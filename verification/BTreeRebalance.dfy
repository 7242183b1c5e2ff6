/**
 Borrowing and merging in memory: what the three nodes involved hold afterwards, and that
 memory then holds the rebalanced tree.
 */
module BTreeRebalance {
  import opened BTreeShape
  import opened BTreeNode
  import opened BTreeRows

  /** Freed memory may be overwritten by anything. */
  method Deallocate(n: Node)
    modifies n
  {
    n.count, n.items, n.children := *, *, *;
  }

  // ----- The nodes -----

  /** The separator goes down to `node`, the right sibling's first item goes up, its first child across. */
  method RotateRightNodes(rsb: Node, node: Node, parent: Node, pos: nat,
                          ghost pi: seq<Item>, ghost pk: seq<Node>, ghost ni: seq<Item>, ghost nk: seq<Node>,
                          ghost ri: seq<Item>, ghost rk: seq<Node>)
    requires parent.Holds(pi, pk) && node.Holds(ni, nk) && rsb.Holds(ri, rk)
    requires parent != node && parent != rsb && node != rsb
    requires pos < |pi| && |ni| < MAX && NonZero(ni) && |ri| > 0 && (nk == [] <==> rk == []) && pk != []
    modifies parent, node, rsb
    ensures parent.Holds(pi[pos := ri[0]], pk)
    ensures node.Holds(ni + [pi[pos]], if nk == [] then [] else nk + [rk[0]])
    ensures rsb.Holds(ri[1..], if rk == [] then [] else rk[1..])
  {
    var sep := parent.items[pos];
    assert sep == parent.items[..parent.count][pos];
    node.InsertItem(node.count, sep);
    assert rsb.items[0] == rsb.items[..rsb.count][0];
    parent.items := parent.items[pos := rsb.items[0]];
    node.children := node.children[node.count := rsb.children[0]];
    DropFront(rsb, ri, rk);
  }

  /** The first item and the first child leave the node. */
  method DropFront(rsb: Node, ghost ri: seq<Item>, ghost rk: seq<Node>)
    requires rsb.Holds(ri, rk) && |ri| > 0
    modifies rsb
    ensures rsb.Holds(ri[1..], if rk == [] then [] else rk[1..])
  {
    ghost var items := rsb.items;
    rsb.count := rsb.count - 1;
    rsb.items := MemMove(rsb.items, 0, 1, rsb.count);
    rsb.children := MemMove(rsb.children, 0, 1, rsb.count + 1);
    assert rsb.items[..rsb.count] == items[1..|ri|] == ri[1..];
  }

  /** The separator goes down to `node`, the left sibling's last item goes up, its last child across. */
  method RotateLeftNodes(lsb: Node, node: Node, parent: Node, pos: nat,
                         ghost pi: seq<Item>, ghost pk: seq<Node>, ghost ni: seq<Item>, ghost nk: seq<Node>,
                         ghost li: seq<Item>, ghost lk: seq<Node>)
    requires parent.Holds(pi, pk) && node.Holds(ni, nk) && lsb.Holds(li, lk)
    requires parent != node && parent != lsb && node != lsb
    requires 0 < pos <= |pi| && |ni| < MAX && NonZero(ni) && |li| > 0 && (nk == [] <==> lk == []) && pk != []
    modifies parent, node, lsb
    ensures parent.Holds(pi[pos - 1 := li[|li| - 1]], pk)
    ensures node.Holds([pi[pos - 1]] + ni, if nk == [] then [] else [lk[|lk| - 1]] + nk)
    ensures lsb.Holds(li[..|li| - 1], if lk == [] then [] else lk[..|lk| - 1])
  {
    var sep := parent.items[pos - 1];
    assert sep == parent.items[..parent.count][pos - 1];
    node.InsertItem(0, sep);
    assert lsb.items[lsb.count - 1] == lsb.items[..lsb.count][lsb.count - 1];
    parent.items := parent.items[pos - 1 := lsb.items[lsb.count - 1]];
    PushChild(node, lsb.children[lsb.count], [pi[pos - 1]] + ni, nk);
    lsb.count := lsb.count - 1;
    assert lsb.items[..lsb.count] == li[..|li| - 1];
  }

  /** A node with one item more than it had gets a child in front of the others. */
  method PushChild(node: Node, kid: Node?, ghost its: seq<Item>, ghost nk: seq<Node>)
    requires node.Sized() && 0 < node.count == |its| && node.items[..node.count] == its
    requires if nk == [] then kid == null && forall i :: 0 <= i < ORDER ==> node.children[i] == null
             else kid != null && |nk| == |its| && forall i :: 0 <= i < |nk| ==> node.children[i] == nk[i]
    modifies node`children
    ensures node.Holds(its, if nk == [] then [] else [kid] + nk)
  {
    node.children := MemMove(node.children, 1, 0, node.count);
    node.children := node.children[0 := kid];
  }

  /** `node` takes the separator and everything of `rn`, which is freed; the parent closes the gap. */
  method MergeNodes(rn: Node, node: Node, parent: Node, pos: nat,
                    ghost pi: seq<Item>, ghost pk: seq<Node>, ghost ni: seq<Item>, ghost nk: seq<Node>,
                    ghost ri: seq<Item>, ghost rk: seq<Node>)
    requires parent.Holds(pi, pk) && node.Holds(ni, nk) && rn.Holds(ri, rk)
    requires parent != node && parent != rn && node != rn
    requires pos < |pi| && |ni| + 1 + |ri| <= MAX && (nk == [] <==> rk == []) && pk != []
    modifies parent, node, rn
    ensures parent.Holds(pi[..pos] + pi[pos + 1..], pk[..pos + 1] + pk[pos + 2..])
    ensures node.Holds(ni + [pi[pos]] + ri, nk + rk)
  {
    var sep := parent.items[pos];
    assert sep == parent.items[..parent.count][pos];
    MergeIntoLeft(rn, node, sep, ni, nk, ri, rk);
    Deallocate(rn);
    CloseGap(parent, pos, pi, pk);
  }

  method MergeIntoLeft(rn: Node, node: Node, sep: Item,
                       ghost ni: seq<Item>, ghost nk: seq<Node>, ghost ri: seq<Item>, ghost rk: seq<Node>)
    requires node.Holds(ni, nk) && rn.Holds(ri, rk) && node != rn
    requires |ni| + 1 + |ri| <= MAX && (nk == [] <==> rk == [])
    modifies node
    ensures node.Holds(ni + [sep] + ri, nk + rk)
  {
    node.items := node.items[node.count := sep];
    node.count := node.count + 1;
    var c, n := node.count, rn.count;
    node.items := node.items[..c] + rn.items[..n] + node.items[c + n..];
    node.children := node.children[..c] + rn.children[..n + 1] + node.children[c + n + 1..];
    node.count := c + n;
    assert node.items[..node.count] == ni + [sep] + ri;
  }

  /**
   The parent drops separator `pos` and the pointer after it. The pointer move is one slot longer than
   needed; on a full node its last read is past the array and brings in something arbitrary.
   */
  method CloseGap(parent: Node, pos: nat, ghost pi: seq<Item>, ghost pk: seq<Node>)
    requires parent.Holds(pi, pk) && pos < |pi| && pk != []
    modifies parent
    ensures parent.Holds(pi[..pos] + pi[pos + 1..], pk[..pos + 1] + pk[pos + 2..])
  {
    ghost var items, children := parent.items, parent.children;
    parent.count := parent.count - 1;
    GapClosed(items, pos, parent.count - pos, pi);
    parent.items := MemMove(parent.items, pos, pos + 1, parent.count - pos);
    var pastEnd: Node? := *;
    var padded := parent.children + [pastEnd];
    parent.children := MemMove(padded, pos + 1, pos + 2, parent.count - pos + 1)[..ORDER];
    ghost var pk' := pk[..pos + 1] + pk[pos + 2..];
    forall i | 0 <= i <= parent.count
      ensures parent.children[i] == pk'[i]
    {
      assert padded[i] == children[i] == pk[i] && padded[i + 1] == children[i + 1] == pk[i + 1];
    }
  }

  lemma GapClosed(items: seq<Item>, pos: nat, n: nat, pi: seq<Item>)
    requires pos < |pi| <= |items| && items[..|pi|] == pi && n == |pi| - 1 - pos
    ensures MemMove(items, pos, pos + 1, n)[..|pi| - 1] == pi[..pos] + pi[pos + 1..]
  {
    var after, pi' := MemMove(items, pos, pos + 1, n), pi[..pos] + pi[pos + 1..];
    assert forall i :: 0 <= i < |pi| ==> items[i] == items[..|pi|][i];
    assert forall i :: 0 <= i < |pi| - 1 ==> after[i] == pi'[i];
  }

  // ----- The tree -----

  /** Seven parts of a tree around children `k` and `k + 1`, none of which shares a node with another. */
  ghost predicate PartsApart(t: NTree, k: nat)
    requires k + 1 < |t.kids|
  {
    var a, n, r, b := RowNodes(t.kids[..k]), t.kids[k], t.kids[k + 1], RowNodes(t.kids[k + 2..]);
    && n.tag != t.tag && r.tag != t.tag && n.tag != r.tag
    && t.tag !in a && t.tag !in b && t.tag !in RowNodes(n.kids) && t.tag !in RowNodes(r.kids)
    && n.tag !in a && n.tag !in b && n.tag !in RowNodes(n.kids) && n.tag !in RowNodes(r.kids)
    && r.tag !in a && r.tag !in b && r.tag !in RowNodes(n.kids) && r.tag !in RowNodes(r.kids)
    && a !! b && a !! RowNodes(n.kids) && a !! RowNodes(r.kids)
    && b !! RowNodes(n.kids) && b !! RowNodes(r.kids) && RowNodes(n.kids) !! RowNodes(r.kids)
  }

  ghost function PartNodes(t: NTree, k: nat): set<Node>
    requires k + 1 < |t.kids|
  {
    RowNodes(t.kids[..k]) + RowNodes(t.kids[k].kids) + RowNodes(t.kids[k + 1].kids) + RowNodes(t.kids[k + 2..])
  }

  /** The rows that a rotation or a merge leaves alone. */
  ghost predicate RowsKept(t: NTree, k: nat)
    requires k + 1 < |t.kids|
    reads PartNodes(t, k)
  {
    RowRep(t.kids[..k]) && RowRep(t.kids[k].kids) && RowRep(t.kids[k + 1].kids) && RowRep(t.kids[k + 2..])
  }

  /** Rows whose nodes did not change are kept. */
  twostate lemma RowsStay(new t: NTree, k: nat, new ns: set<Node>)
    requires old(allocated(t)) && old(allocated(ns))
    requires k + 1 < |t.kids| && ns == PartNodes(t, k) && old(RowsKept(t, k)) && unchanged(ns)
    ensures RowsKept(t, k)
  {
  }

  lemma {:induction false} TakeApart(t: NTree, k: nat)
    requires Rep(t) && k + 1 < |t.kids|
    ensures PartsApart(t, k) && RowsKept(t, k)
    ensures Nodes(t) == {t.tag, t.kids[k].tag, t.kids[k + 1].tag} + PartNodes(t, k)
    ensures t.tag.Holds(t.items, Tags(t.kids))
    ensures t.kids[k].tag.Holds(t.kids[k].items, Tags(t.kids[k].kids))
    ensures t.kids[k + 1].tag.Holds(t.kids[k + 1].items, Tags(t.kids[k + 1].kids))
  {
    RepAsRow(t);
    RowAroundPair(t.kids, k);
    RepAsRow(t.kids[k]);
    RepAsRow(t.kids[k + 1]);
    PartsFrom(t, k);
  }

  lemma {:induction false} PartsFrom(t: NTree, k: nat)
    requires k + 1 < |t.kids|
    requires Nodes(t.kids[k]) == {t.kids[k].tag} + RowNodes(t.kids[k].kids) && t.kids[k].tag !in RowNodes(t.kids[k].kids)
    requires Nodes(t.kids[k + 1]) == {t.kids[k + 1].tag} + RowNodes(t.kids[k + 1].kids) && t.kids[k + 1].tag !in RowNodes(t.kids[k + 1].kids)
    requires Nodes(t.kids[k]) !! Nodes(t.kids[k + 1]) && RowNodes(t.kids[..k]) !! RowNodes(t.kids[k + 2..])
    requires (Nodes(t.kids[k]) + Nodes(t.kids[k + 1])) !! (RowNodes(t.kids[..k]) + RowNodes(t.kids[k + 2..]))
    requires t.tag !in RowNodes(t.kids[..k]) + Nodes(t.kids[k]) + Nodes(t.kids[k + 1]) + RowNodes(t.kids[k + 2..])
    ensures PartsApart(t, k)
    ensures {t.tag} + (RowNodes(t.kids[..k]) + Nodes(t.kids[k]) + Nodes(t.kids[k + 1]) + RowNodes(t.kids[k + 2..]))
            == {t.tag, t.kids[k].tag, t.kids[k + 1].tag} + PartNodes(t, k)
  {
    var n, r := t.kids[k], t.kids[k + 1];
    assert n.tag in Nodes(n) && r.tag in Nodes(r) && RowNodes(n.kids) <= Nodes(n) && RowNodes(r.kids) <= Nodes(r);
  }

  /** A pair of new trees at the place of the old pair. */
  lemma {:induction false} PutPair(t: NTree, k: nat, x: Item, n: NTree, r: NTree)
    requires k + 1 < |t.kids| == |t.items| + 1
    requires RowRep(t.kids[..k]) && RowRep(t.kids[k + 2..]) && RowNodes(t.kids[..k]) !! RowNodes(t.kids[k + 2..])
    requires Rep(n) && Rep(r) && Nodes(n) !! Nodes(r)
    requires (Nodes(n) + Nodes(r)) !! (RowNodes(t.kids[..k]) + RowNodes(t.kids[k + 2..]))
    requires t.tag !in Nodes(n) + Nodes(r) + RowNodes(t.kids[..k]) + RowNodes(t.kids[k + 2..])
    requires n.tag == t.kids[k].tag && r.tag == t.kids[k + 1].tag && t.tag.Holds(t.items[k := x], Tags(t.kids))
    ensures var t' := Tree(t.tag, t.items[k := x], t.kids[k := n][k + 1 := r]);
            Rep(t') && Nodes(t') == {t.tag} + Nodes(n) + Nodes(r) + RowNodes(t.kids[..k]) + RowNodes(t.kids[k + 2..])
  {
    var kids := t.kids[k := n][k + 1 := r];
    PairRow(t.kids[..k], n, r, t.kids[k + 2..]);
    assert kids == t.kids[..k] + [n, r] + t.kids[k + 2..];
    assert Tags(kids) == Tags(t.kids);
    RepAsRow(Tree(t.tag, t.items[k := x], kids));
  }

  /** Two trees made of the nodes of the old pair keep clear of the rest. */
  lemma {:induction false} PairOutside(t: NTree, k: nat, n: NTree, r: NTree)
    requires k + 1 < |t.kids| && PartsApart(t, k)
    requires Nodes(n) + Nodes(r)
             == {t.kids[k].tag, t.kids[k + 1].tag} + RowNodes(t.kids[k].kids) + RowNodes(t.kids[k + 1].kids)
    ensures (Nodes(n) + Nodes(r)) !! (RowNodes(t.kids[..k]) + RowNodes(t.kids[k + 2..]))
    ensures t.tag !in Nodes(n) + Nodes(r) + RowNodes(t.kids[..k]) + RowNodes(t.kids[k + 2..])
    ensures {t.tag} + Nodes(n) + Nodes(r) + RowNodes(t.kids[..k]) + RowNodes(t.kids[k + 2..])
            == {t.tag, t.kids[k].tag, t.kids[k + 1].tag} + PartNodes(t, k)
  {
    var both := Nodes(n) + Nodes(r);
    assert {t.tag} + Nodes(n) + Nodes(r) == {t.tag} + both;
  }

  lemma {:induction false} RotateRightKids(t: NTree, pos: nat)
    requires pos + 1 < |t.kids| == |t.items| + 1 && |t.kids[pos + 1].items| > 0 && Alike(t.kids[pos], t.kids[pos + 1])
    requires PartsApart(t, pos) && RowsKept(t, pos)
    requires t.kids[pos].tag.Holds(RotateRight(t, pos).kids[pos].items, Tags(RotateRight(t, pos).kids[pos].kids))
    requires t.kids[pos + 1].tag.Holds(RotateRight(t, pos).kids[pos + 1].items, Tags(RotateRight(t, pos).kids[pos + 1].kids))
    ensures var n, r := RotateRight(t, pos).kids[pos], RotateRight(t, pos).kids[pos + 1];
            && Rep(n) && Rep(r) && Nodes(n) !! Nodes(r)
            && Nodes(n) + Nodes(r) == {n.tag, r.tag} + RowNodes(t.kids[pos].kids) + RowNodes(t.kids[pos + 1].kids)
  {
    var n, r := t.kids[pos], t.kids[pos + 1];
    var n', r' := RotateRight(t, pos).kids[pos], RotateRight(t, pos).kids[pos + 1];
    RepAsRow(n');
    RepAsRow(r');
    if !n.IsLeaf() {
      CutRep(r.kids, 1);
      assert r.kids[..1] == [r.kids[0]];
      JoinRep(n.kids, [r.kids[0]]);
    } else {
      EmptyRow();
    }
  }

  lemma {:induction false} RotateLeftKids(t: NTree, k: nat)
    requires k + 1 < |t.kids| == |t.items| + 1 && |t.kids[k].items| > 0 && Alike(t.kids[k + 1], t.kids[k])
    requires PartsApart(t, k) && RowsKept(t, k)
    requires t.kids[k + 1].tag.Holds(RotateLeft(t, k + 1).kids[k + 1].items, Tags(RotateLeft(t, k + 1).kids[k + 1].kids))
    requires t.kids[k].tag.Holds(RotateLeft(t, k + 1).kids[k].items, Tags(RotateLeft(t, k + 1).kids[k].kids))
    ensures var l, n := RotateLeft(t, k + 1).kids[k], RotateLeft(t, k + 1).kids[k + 1];
            && Rep(l) && Rep(n) && Nodes(l) !! Nodes(n)
            && Nodes(l) + Nodes(n) == {l.tag, n.tag} + RowNodes(t.kids[k].kids) + RowNodes(t.kids[k + 1].kids)
  {
    var l, n := t.kids[k], t.kids[k + 1];
    var l', n' := RotateLeft(t, k + 1).kids[k], RotateLeft(t, k + 1).kids[k + 1];
    RepAsRow(l');
    RepAsRow(n');
    if !n.IsLeaf() {
      var m := |l.kids| - 1;
      CutRep(l.kids, m);
      assert l.kids[m..] == [l.kids[m]];
      JoinRep([l.kids[m]], n.kids);
    } else {
      EmptyRow();
    }
  }

  method RotateRightTree(rsb: Node, node: Node, parent: Node, pos: nat, ghost t: NTree)
    requires Rep(t) && t.tag == parent && pos + 1 < |t.kids| == |t.items| + 1
    requires t.kids[pos].tag == node && t.kids[pos + 1].tag == rsb && Alike(t.kids[pos], t.kids[pos + 1])
    requires |t.kids[pos].items| < MAX && NonZero(t.kids[pos].items) && |t.kids[pos + 1].items| > 0
    modifies parent, node, rsb
    ensures Rep(RotateRight(t, pos)) && Nodes(RotateRight(t, pos)) == Nodes(t)
  {
    ghost var n, r := t.kids[pos], t.kids[pos + 1];
    TakeApart(t, pos);
    ghost var ns := Existing(PartNodes(t, pos));
    RotateRightNodes(rsb, node, parent, pos, t.items, Tags(t.kids), n.items, Tags(n.kids), r.items, Tags(r.kids));
    RowsStay(t, pos, ns);
    RotateRightTags(t, pos);
    RotateRightRep(t, pos);
  }

  lemma {:induction false} RotateRightRep(t: NTree, pos: nat)
    requires pos + 1 < |t.kids| == |t.items| + 1 && |t.kids[pos + 1].items| > 0 && Alike(t.kids[pos], t.kids[pos + 1])
    requires PartsApart(t, pos) && RowsKept(t, pos)
    requires t.tag.Holds(t.items[pos := t.kids[pos + 1].items[0]], Tags(t.kids))
    requires t.kids[pos].tag.Holds(RotateRight(t, pos).kids[pos].items, Tags(RotateRight(t, pos).kids[pos].kids))
    requires t.kids[pos + 1].tag.Holds(RotateRight(t, pos).kids[pos + 1].items, Tags(RotateRight(t, pos).kids[pos + 1].kids))
    ensures Rep(RotateRight(t, pos))
    ensures Nodes(RotateRight(t, pos)) == {t.tag, t.kids[pos].tag, t.kids[pos + 1].tag} + PartNodes(t, pos)
  {
    var t' := RotateRight(t, pos);
    RotateRightKids(t, pos);
    PairOutside(t, pos, t'.kids[pos], t'.kids[pos + 1]);
    PutPair(t, pos, t.kids[pos + 1].items[0], t'.kids[pos], t'.kids[pos + 1]);
  }

  lemma {:induction false} RotateRightTags(t: NTree, pos: nat)
    requires pos + 1 < |t.kids| == |t.items| + 1 && |t.kids[pos + 1].items| > 0 && Alike(t.kids[pos], t.kids[pos + 1])
    ensures var n, r, t' := t.kids[pos], t.kids[pos + 1], RotateRight(t, pos);
            && Tags(t'.kids[pos].kids) == (if n.IsLeaf() then [] else Tags(n.kids) + [Tags(r.kids)[0]])
            && Tags(t'.kids[pos + 1].kids) == (if r.IsLeaf() then [] else Tags(r.kids)[1..])
  {
  }

  method RotateLeftTree(lsb: Node, node: Node, parent: Node, pos: nat, ghost t: NTree)
    requires Rep(t) && t.tag == parent && 0 < pos < |t.kids| == |t.items| + 1
    requires t.kids[pos].tag == node && t.kids[pos - 1].tag == lsb && Alike(t.kids[pos], t.kids[pos - 1])
    requires |t.kids[pos].items| < MAX && NonZero(t.kids[pos].items) && |t.kids[pos - 1].items| > 0
    modifies parent, node, lsb
    ensures Rep(RotateLeft(t, pos)) && Nodes(RotateLeft(t, pos)) == Nodes(t)
  {
    ghost var k := pos - 1;
    ghost var l, n := t.kids[k], t.kids[k + 1];
    TakeApart(t, k);
    ghost var ns := Existing(PartNodes(t, k));
    RotateLeftNodes(lsb, node, parent, pos, t.items, Tags(t.kids), n.items, Tags(n.kids), l.items, Tags(l.kids));
    RowsStay(t, k, ns);
    RotateLeftTags(t, k);
    RotateLeftRep(t, k);
  }

  lemma {:induction false} RotateLeftRep(t: NTree, k: nat)
    requires k + 1 < |t.kids| == |t.items| + 1 && |t.kids[k].items| > 0 && Alike(t.kids[k + 1], t.kids[k])
    requires PartsApart(t, k) && RowsKept(t, k)
    requires t.tag.Holds(RotateLeft(t, k + 1).items, Tags(t.kids))
    requires t.kids[k + 1].tag.Holds(RotateLeft(t, k + 1).kids[k + 1].items, Tags(RotateLeft(t, k + 1).kids[k + 1].kids))
    requires t.kids[k].tag.Holds(RotateLeft(t, k + 1).kids[k].items, Tags(RotateLeft(t, k + 1).kids[k].kids))
    ensures Rep(RotateLeft(t, k + 1))
    ensures Nodes(RotateLeft(t, k + 1)) == {t.tag, t.kids[k].tag, t.kids[k + 1].tag} + PartNodes(t, k)
  {
    var l, t' := t.kids[k], RotateLeft(t, k + 1);
    RotateLeftKids(t, k);
    PairOutside(t, k, t'.kids[k], t'.kids[k + 1]);
    PutPair(t, k, l.items[|l.items| - 1], t'.kids[k], t'.kids[k + 1]);
  }

  lemma {:induction false} RotateLeftTags(t: NTree, k: nat)
    requires k + 1 < |t.kids| == |t.items| + 1 && |t.kids[k].items| > 0 && Alike(t.kids[k + 1], t.kids[k])
    ensures var l, n, t' := t.kids[k], t.kids[k + 1], RotateLeft(t, k + 1);
            && Tags(t'.kids[k + 1].kids) == (if n.IsLeaf() then [] else [Tags(l.kids)[|l.kids| - 1]] + Tags(n.kids))
            && Tags(t'.kids[k].kids) == (if l.IsLeaf() then [] else Tags(l.kids)[..|l.kids| - 1])
  {
  }

  lemma {:induction false} MergeRep(t: NTree, pos: nat)
    requires pos + 1 < |t.kids| == |t.items| + 1 && PartsApart(t, pos) && RowsKept(t, pos)
    requires t.tag.Holds(Merge(t, pos).items, Tags(Merge(t, pos).kids))
    requires t.kids[pos].tag.Holds(Merge(t, pos).kids[pos].items, Tags(Merge(t, pos).kids[pos].kids))
    ensures Rep(Merge(t, pos)) && Rep(Merge(t, pos).kids[pos])
    ensures Nodes(Merge(t, pos)) == {t.tag, t.kids[pos].tag} + PartNodes(t, pos)
  {
    var n, r, j := t.kids[pos], t.kids[pos + 1], Merge(t, pos).kids[pos];
    JoinRep(n.kids, r.kids);
    RepAsRow(j);
    SingleRow(t.kids[..pos], j, t.kids[pos + 2..]);
    RepAsRow(Merge(t, pos));
  }

  lemma {:induction false} MergeTags(t: NTree, pos: nat)
    requires pos + 1 < |t.kids| == |t.items| + 1
    ensures Tags(Merge(t, pos).kids) == Tags(t.kids)[..pos + 1] + Tags(t.kids)[pos + 2..]
    ensures Tags(Merge(t, pos).kids[pos].kids) == Tags(t.kids[pos].kids) + Tags(t.kids[pos + 1].kids)
  {
  }

  method MergeTree(rn: Node, node: Node, parent: Node, pos: nat, ghost t: NTree)
    requires Rep(t) && t.tag == parent && pos + 1 < |t.kids| == |t.items| + 1
    requires t.kids[pos].tag == node && t.kids[pos + 1].tag == rn && Alike(t.kids[pos], t.kids[pos + 1])
    requires |t.kids[pos].items| + 1 + |t.kids[pos + 1].items| <= MAX
    modifies parent, node, rn
    ensures Rep(Merge(t, pos)) && Rep(Merge(t, pos).kids[pos]) && Nodes(Merge(t, pos)) == Nodes(t) - {rn}
    ensures parent !in Nodes(Merge(t, pos).kids[pos])
  {
    ghost var n, r := t.kids[pos], t.kids[pos + 1];
    TakeApart(t, pos);
    ghost var ns := Existing(PartNodes(t, pos));
    MergeNodes(rn, node, parent, pos, t.items, Tags(t.kids), n.items, Tags(n.kids), r.items, Tags(r.kids));
    RowsStay(t, pos, ns);
    MergeTags(t, pos);
    MergeRep(t, pos);
    MergeLeaves(t, pos);
  }

  lemma {:induction false} MergeLeaves(t: NTree, pos: nat)
    requires pos + 1 < |t.kids| == |t.items| + 1 && PartsApart(t, pos)
    requires Rep(Merge(t, pos)) && Nodes(Merge(t, pos)) == {t.tag, t.kids[pos].tag} + PartNodes(t, pos)
    ensures t.tag !in Nodes(Merge(t, pos).kids[pos])
    ensures Nodes(Merge(t, pos)) == {t.tag, t.kids[pos].tag, t.kids[pos + 1].tag} + PartNodes(t, pos) - {t.kids[pos + 1].tag}
  {
    KidRep(Merge(t, pos), pos);
  }
}

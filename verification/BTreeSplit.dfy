/**
 Splitting a full node, in memory.
 */
module BTreeSplit {
  import opened BTreeShape
  import opened BTreePaths
  import opened BTreeNode
  import opened BTreeRows

  /** Moves everything right of the median to a new node and hands out the median. */
  method SplitNode(node: Node, ghost its: seq<Item>, ghost kids: seq<Node>) returns (item: Item, right: Node)
    requires node.Holds(its, kids) && |its| == MAX
    modifies node
    ensures fresh(right) && item == its[MEDIAN]
    ensures node.Holds(its[..MEDIAN], if kids == [] then [] else kids[..MEDIAN + 1])
    ensures right.Holds(its[MEDIAN + 1..], if kids == [] then [] else kids[MEDIAN + 1..])
    ensures forall j :: MEDIAN <= j < MAX ==> node.items[j] == NO_ITEM && node.children[j + 1] == null
  {
    right := new Node();
    var c := ORDER / 2;
    item := node.items[c - 1];
    ghost var children := node.children;
    node.ClearSlot(c - 1);
    var i := c;
    while i < ORDER
      invariant c <= i <= ORDER && node.Sized() && right.Sized()
      invariant right.count == if i < ORDER then i - c else MAX - c
      invariant node.items[..c - 1] == its[..c - 1] && (forall j :: i <= j < MAX ==> node.items[j] == its[j])
      invariant forall j :: c - 1 <= j < i && j < MAX ==> node.items[j] == NO_ITEM
      invariant forall j :: 0 <= j < right.count ==> right.items[j] == its[c + j]
      invariant forall j :: 0 <= j < ORDER ==> node.children[j] == if c <= j < i then null else children[j]
      invariant forall j :: 0 <= j < ORDER ==> right.children[j] == if j < i - c then children[c + j] else null
    {
      if i != ORDER - 1 {
        right.items := right.items[right.count := node.items[i]];
        right.count := right.count + 1;
        node.ClearSlot(i);
      }
      right.children := right.children[i - c := node.children[i]];
      node.children := node.children[i := null];
      i := i + 1;
    }
    node.count := c - 1;
    assert right.items[..right.count] == its[c..];
  }

  /** The nodes of the two halves. */
  lemma {:induction false} HalvesNodes(c: NTree, right: Node)
    requires |c.items| == MAX && (c.IsLeaf() || |c.kids| == ORDER)
    ensures Nodes(LeftHalf(c)) == {c.tag} + RowNodes(LeftHalf(c).kids)
    ensures Nodes(RightHalf(c, right)) == {right} + RowNodes(RightHalf(c, right).kids)
    ensures RowNodes(c.kids) == RowNodes(LeftHalf(c).kids) + RowNodes(RightHalf(c, right).kids)
  {
    TreeAsRow(LeftHalf(c));
    TreeAsRow(RightHalf(c, right));
    if !c.IsLeaf() {
      assert c.kids == c.kids[..MEDIAN + 1] + c.kids[MEDIAN + 1..];
      JoinNodes(c.kids[..MEDIAN + 1], c.kids[MEDIAN + 1..]);
    }
  }

  lemma {:induction false} HalvesRowsApart(c: NTree, right: Node)
    requires RowApart(c.kids) && |c.items| == MAX && (c.IsLeaf() || |c.kids| == ORDER)
    ensures RowApart(LeftHalf(c).kids) && RowApart(RightHalf(c, right).kids)
    ensures RowNodes(LeftHalf(c).kids) !! RowNodes(RightHalf(c, right).kids)
  {
    if !c.IsLeaf() {
      assert c.kids == c.kids[..MEDIAN + 1] + c.kids[MEDIAN + 1..];
      JoinApart(c.kids[..MEDIAN + 1], c.kids[MEDIAN + 1..]);
    }
  }

  lemma {:induction false} HalvesApart(c: NTree, right: Node)
    requires Apart(c) && |c.items| == MAX && (c.IsLeaf() || |c.kids| == ORDER) && right !in Nodes(c)
    ensures Nodes(LeftHalf(c)) !! Nodes(RightHalf(c, right))
    ensures Nodes(LeftHalf(c)) + Nodes(RightHalf(c, right)) == Nodes(c) + {right}
    ensures Apart(LeftHalf(c)) && Apart(RightHalf(c, right))
  {
    TreeAsRow(c);
    HalvesNodes(c, right);
    HalvesRowsApart(c, right);
    TreeAsRow(LeftHalf(c));
    TreeAsRow(RightHalf(c, right));
  }

  /** After SplitNode the two halves are in memory. */
  lemma {:induction false} HalvesRep(c: NTree, right: Node)
    requires Apart(c) && RowInMemory(c.kids) && |c.items| == MAX && (c.IsLeaf() || |c.kids| == ORDER) && right !in Nodes(c)
    requires c.tag.Holds(LeftHalf(c).items, Tags(LeftHalf(c).kids))
    requires right.Holds(RightHalf(c, right).items, Tags(RightHalf(c, right).kids))
    ensures Rep(LeftHalf(c)) && Rep(RightHalf(c, right))
  {
    HalvesApart(c, right);
    TreeAsRow(LeftHalf(c));
    TreeAsRow(RightHalf(c, right));
    if !c.IsLeaf() {
      var a, b := c.kids[..MEDIAN + 1], c.kids[MEDIAN + 1..];
      assert c.kids == a + b;
      JoinInMemory(a, b);
    }
  }

  /** Splits a full tree into two that share nothing. */
  method SplitTree(node: Node, ghost c: NTree) returns (item: Item, right: Node)
    requires Rep(c) && c.tag == node && |c.items| == MAX && (c.IsLeaf() || |c.kids| == ORDER)
    modifies node
    ensures fresh(right) && right !in Nodes(c) && item == c.items[MEDIAN]
    ensures Rep(LeftHalf(c)) && Rep(RightHalf(c, right))
    ensures Nodes(LeftHalf(c)) !! Nodes(RightHalf(c, right))
    ensures Nodes(LeftHalf(c)) + Nodes(RightHalf(c, right)) == Nodes(c) + {right}
  {
    TreeAsRow(c);
    ghost var ns := Existing(Nodes(c));
    item, right := SplitNode(node, c.items, Tags(c.kids));
    HalvesApart(c, right);
    assert Tags(LeftHalf(c).kids) == if c.IsLeaf() then [] else Tags(c.kids)[..MEDIAN + 1];
    assert Tags(RightHalf(c, right).kids) == if c.IsLeaf() then [] else Tags(c.kids)[MEDIAN + 1..];
    assert RowInMemory(c.kids);
    HalvesRep(c, right);
  }

  /** The row of children after InsertNode. */
  lemma {:induction false} InsertNodeRep(t: NTree, pos: nat, item: Item, left: NTree, right: NTree)
    requires pos <= |t.items| && |t.kids| == |t.items| + 1
    requires RowRep(t.kids[..pos]) && RowRep(t.kids[pos + 1..]) && RowNodes(t.kids[..pos]) !! RowNodes(t.kids[pos + 1..])
    requires Rep(left) && Rep(right) && Nodes(left) !! Nodes(right)
    requires (Nodes(left) + Nodes(right)) !! (RowNodes(t.kids[..pos]) + RowNodes(t.kids[pos + 1..]))
    requires t.tag !in Nodes(left) + Nodes(right) + RowNodes(t.kids[..pos]) + RowNodes(t.kids[pos + 1..])
    requires t.tag.Holds(InsertAt(t.items, pos, item), Tags(t.kids)[..pos] + [left.tag, right.tag] + Tags(t.kids)[pos + 1..])
    ensures Rep(InsertNode(t, pos, item, left, right))
    ensures Nodes(InsertNode(t, pos, item, left, right)) ==
            {t.tag} + Nodes(left) + Nodes(right) + RowNodes(t.kids[..pos]) + RowNodes(t.kids[pos + 1..])
  {
    var a, b := t.kids[..pos], t.kids[pos + 1..];
    PairRow(a, left, right, b);
    TagsOfPair(t.kids, pos, left, right);
    RepAsRow(InsertNode(t, pos, item, left, right));
  }

  lemma {:induction false} TagsOfPair(kids: seq<NTree>, pos: nat, left: NTree, right: NTree)
    requires pos < |kids|
    ensures Tags(kids[..pos] + [left, right] + kids[pos + 1..]) == Tags(kids)[..pos] + [left.tag, right.tag] + Tags(kids)[pos + 1..]
  {
    TagsJoin(kids[..pos] + [left, right], kids[pos + 1..]);
    TagsJoin(kids[..pos], [left, right]);
    TagsCut(kids, pos);
    TagsCut(kids, pos + 1);
  }

  lemma HoldsInserted(n: Node, its: seq<Item>, kids: seq<Node>)
    requires n.Sized() && kids != [] && |kids| == |its| + 1 && n.count == |its|
    requires n.items[..n.count] == its && n.children[..n.count + 1] == kids
    ensures n.Holds(its, kids)
  {
    forall i | 0 <= i <= n.count
      ensures n.children[i] == kids[i]
    {
      assert n.children[i] == n.children[..n.count + 1][i];
    }
  }

  /** InsertNode in terms of what the node holds. */
  method InsertInParent(parent: Node, pos: nat, m: Item, node: Node, right: Node, ghost its: seq<Item>, ghost tags: seq<Node>)
    requires parent.Holds(its, tags) && tags != [] && |its| < MAX && LiveAt(its, pos) && pos <= |its| && tags[pos] == node
    modifies parent
    ensures parent.Holds(InsertAt(its, pos, m), tags[..pos] + [node, right] + tags[pos + 1..])
  {
    assert parent.children[..parent.count + 1] == tags;
    parent.InsertNode(pos, m, node, right);
    HoldsInserted(parent, InsertAt(its, pos, m), tags[..pos] + [node, right] + tags[pos + 1..]);
  }

  /** The parts a split rearranges share no node. */
  lemma {:induction false} SplitParts(t: NTree, pos: nat, right: Node)
    requires Apart(t) && pos < |t.kids| && right !in Nodes(t)
    requires |t.kids[pos].items| == MAX && (t.kids[pos].IsLeaf() || |t.kids[pos].kids| == ORDER)
    ensures var l, r, a, b := LeftHalf(t.kids[pos]), RightHalf(t.kids[pos], right), t.kids[..pos], t.kids[pos + 1..];
            && RowNodes(a) !! RowNodes(b) && Nodes(l) !! Nodes(r) && (Nodes(l) + Nodes(r)) !! (RowNodes(a) + RowNodes(b))
            && t.tag !in Nodes(l) + Nodes(r) + RowNodes(a) + RowNodes(b)
            && {t.tag} + Nodes(l) + Nodes(r) + RowNodes(a) + RowNodes(b) == Nodes(t) + {right}
  {
    TreeAsRow(t);
    ApartAround(t.kids, pos);
    HalvesApart(t.kids[pos], right);
  }

  /** Splits the full child at `pos` of a parent that is not full. */
  method SplitChild(parent: Node, node: Node, pos: nat, ghost t: NTree) returns (m: Item, right: Node)
    requires Rep(t) && t.tag == parent && |t.kids| == |t.items| + 1 && |t.items| < MAX && LiveAt(t.items, pos)
    requires pos <= |t.items| && t.kids[pos].tag == node
    requires |t.kids[pos].items| == MAX && (t.kids[pos].IsLeaf() || |t.kids[pos].kids| == ORDER)
    modifies parent, node
    ensures fresh(right) && m == t.kids[pos].items[MEDIAN]
    ensures Rep(SplitKid(t, pos, right)) && Nodes(SplitKid(t, pos, right)) == Nodes(t) + {right}
  {
    ghost var ns := Existing(Nodes(t));
    RepAsRow(t);
    RowAround(t.kids, pos);
    m, right := SplitBetween(parent, node, t.items, Tags(t.kids), t.kids[..pos], t.kids[pos], t.kids[pos + 1..]);
    assert right !in ns;
    SplitParent(parent, node, right, m, pos, t);
  }

  /** The first half of SplitChild: the child is cut in two, and parent and neighbours stay as they are. */
  method SplitBetween(ghost parent: Node, node: Node, ghost its: seq<Item>, ghost tags: seq<Node>,
                      ghost a: seq<NTree>, ghost c: NTree, ghost b: seq<NTree>) returns (m: Item, right: Node)
    requires parent.Holds(its, tags) && RowRep(a) && Rep(c) && RowRep(b)
    requires parent !in Nodes(c) && Nodes(c) !! RowNodes(a) && Nodes(c) !! RowNodes(b)
    requires node == c.tag && |c.items| == MAX && (c.IsLeaf() || |c.kids| == ORDER)
    modifies node
    ensures fresh(right) && m == c.items[MEDIAN]
    ensures parent.Holds(its, tags) && RowRep(a) && RowRep(b)
    ensures Rep(LeftHalf(c)) && Rep(RightHalf(c, right))
  {
    ghost var na := Existing(RowNodes(a));
    ghost var nb := Existing(RowNodes(b));
    TreeAsRow(c);
    m, right := SplitTree(node, c);
  }

  /** The second half of SplitChild: the parent takes the median and the new node. */
  method SplitParent(parent: Node, node: Node, right: Node, m: Item, pos: nat, ghost t: NTree)
    requires t.tag == parent && |t.kids| == |t.items| + 1 && |t.items| < MAX && LiveAt(t.items, pos)
    requires pos <= |t.items| && t.kids[pos].tag == node
    requires |t.kids[pos].items| == MAX && (t.kids[pos].IsLeaf() || |t.kids[pos].kids| == ORDER) && m == t.kids[pos].items[MEDIAN]
    requires Apart(t) && parent.Holds(t.items, Tags(t.kids)) && RowRep(t.kids[..pos]) && RowRep(t.kids[pos + 1..])
    requires Rep(LeftHalf(t.kids[pos])) && Rep(RightHalf(t.kids[pos], right)) && right !in Nodes(t)
    modifies parent
    ensures Rep(SplitKid(t, pos, right)) && Nodes(SplitKid(t, pos, right)) == Nodes(t) + {right}
  {
    ghost var l, r := LeftHalf(t.kids[pos]), RightHalf(t.kids[pos], right);
    ghost var a, b := t.kids[..pos], t.kids[pos + 1..];
    ghost var ns := Existing(Nodes(l) + Nodes(r) + RowNodes(a) + RowNodes(b));
    SplitParts(t, pos, right);
    InsertInParent(parent, pos, m, node, right, t.items, Tags(t.kids));
    PairStays(a, l, r, b, ns);
    InsertNodeRep(t, pos, m, l, r);
  }

  /** The tree grows: the halves of the root go under a new one. */
  method GrowTree(node: Node, ghost t: NTree) returns (up: Node, right: Node)
    requires Rep(t) && t.tag == node && |t.items| == MAX && (t.IsLeaf() || |t.kids| == ORDER)
    modifies node
    ensures fresh(up) && fresh(right)
    ensures Rep(GrowRoot(t, up, right)) && Nodes(GrowRoot(t, up, right)) == Nodes(t) + {up, right}
  {
    ghost var ns := Existing(Nodes(t));
    var m;
    m, right := SplitTree(node, t);
    ghost var ls := Existing(Nodes(LeftHalf(t)));
    ghost var rs := Existing(Nodes(RightHalf(t, right)));
    up := NewRoot(m, node, right);
    GrowRootRep(t, up, right);
  }

  method NewRoot(m: Item, node: Node, right: Node) returns (up: Node)
    ensures fresh(up) && up.Holds([m], [node, right])
  {
    up := new Node();
    up.count := 1;
    up.items := up.items[0 := m];
    up.children := up.children[0 := node];
    up.children := up.children[1 := right];
  }

  lemma {:induction false} GrowRootRep(t: NTree, up: Node, right: Node)
    requires |t.items| == MAX && (t.IsLeaf() || |t.kids| == ORDER)
    requires Rep(LeftHalf(t)) && Rep(RightHalf(t, right)) && Nodes(LeftHalf(t)) !! Nodes(RightHalf(t, right))
    requires up !in Nodes(LeftHalf(t)) + Nodes(RightHalf(t, right))
    requires up.Holds([t.items[MEDIAN]], [t.tag, right])
    ensures Rep(GrowRoot(t, up, right))
    ensures Nodes(GrowRoot(t, up, right)) == {up} + Nodes(LeftHalf(t)) + Nodes(RightHalf(t, right))
  {
    TwoKidsRep(up, t.items[MEDIAN], LeftHalf(t), RightHalf(t, right));
  }

  /** A node over two trees that share nothing. */
  lemma {:induction false} TwoKidsRep(up: Node, m: Item, l: NTree, r: NTree)
    requires Rep(l) && Rep(r) && Nodes(l) !! Nodes(r) && up !in Nodes(l) + Nodes(r) && up.Holds([m], [l.tag, r.tag])
    ensures Rep(Tree(up, [m], [l, r])) && Nodes(Tree(up, [m], [l, r])) == {up} + Nodes(l) + Nodes(r)
  {
    TwoRow(l, r);
    RepAsRow(Tree(up, [m], [l, r]));
  }

  lemma {:induction false} TwoRow(l: NTree, r: NTree)
    requires Rep(l) && Rep(r) && Nodes(l) !! Nodes(r)
    ensures RowRep([l, r]) && RowNodes([l, r]) == Nodes(l) + Nodes(r) && Tags([l, r]) == [l.tag, r.tag]
  {
    assert [l, r] == [l] + [r];
    OneRep(l);
    OneRep(r);
    JoinRep([l], [r]);
  }

  /** The loop that looks for the child, or the place in a leaf. It always ends inside: the node is not full. */
  method FindSlot(node: Node, key: nat, ghost its: seq<Item>, ghost kids: seq<Node>) returns (i: nat)
    requires node.Holds(its, kids) && |its| < MAX
    ensures i <= |its|
    ensures forall j :: 0 <= j < i ==> its[j].key <= key
    ensures i < |its| ==> its[i].key > key
  {
    i := 0;
    while i < ORDER - 1
      invariant 0 <= i <= |its|
      invariant forall j :: 0 <= j < i ==> its[j].key <= key
    {
      assert i < |its| ==> node.items[i] == its[i];
      if node.count == i || node.items[i].key > key {
        return;
      }
      i := i + 1;
    }
    assert false;
  }
}

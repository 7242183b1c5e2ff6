/**
 Trees as the B-tree code builds them, apart from how they lie in memory: a tag per node (the
 address it has), its items, and its children, none for a leaf.
 */
module BTreeShape {

  const ORDER: nat := 8
  const MIN: nat := ORDER / 2 - 1
  const MAX: nat := ORDER - 1

  datatype Item = Item(key: nat, val: nat)

  datatype Tree<L> = Tree(tag: L, items: seq<Item>, kids: seq<Tree<L>>) {

    predicate IsLeaf() {
      kids == []
    }
  }

  // ----- Contents -----

  /** The items from left to right. */
  function Inorder<L>(t: Tree<L>): seq<Item>
    decreases t, 1
  {
    if |t.kids| == |t.items| + 1 then Flat(t.items, t.kids) else t.items
  }

  /** A row of children with the separators between them. */
  function Flat<L>(items: seq<Item>, kids: seq<Tree<L>>): seq<Item>
    requires |kids| == |items| + 1
    decreases kids, 0
  {
    if items == [] then Inorder(kids[0])
    else Inorder(kids[0]) + [items[0]] + Flat(items[1..], kids[1..])
  }

  /** What comes before child `k`. */
  function Before<L>(items: seq<Item>, kids: seq<Tree<L>>, k: nat): seq<Item>
    requires |kids| == |items| + 1 && k < |kids|
  {
    if k == 0 then [] else Flat(items[..k - 1], kids[..k]) + [items[k - 1]]
  }

  /** What comes after child `k`. */
  function After<L>(items: seq<Item>, kids: seq<Tree<L>>, k: nat): seq<Item>
    requires |kids| == |items| + 1 && k < |kids|
  {
    if k == |items| then [] else [items[k]] + Flat(items[k + 1..], kids[k + 1..])
  }

  lemma {:induction false} FlatAtItem<L>(items: seq<Item>, kids: seq<Tree<L>>, k: nat)
    requires |kids| == |items| + 1 && k < |items|
    ensures Flat(items, kids) == Flat(items[..k], kids[..k + 1]) + [items[k]] + Flat(items[k + 1..], kids[k + 1..])
    decreases k
  {
    if k == 0 {
      assert kids[..1] == [kids[0]] && items[..0] == [];
    } else {
      FlatAtItem(items[1..], kids[1..], k - 1);
      assert items[1..][..k - 1] == items[..k][1..] && kids[1..][..k] == kids[..k + 1][1..];
      assert items[1..][k..] == items[k + 1..] && kids[1..][k..] == kids[k + 1..];
      assert items[..k][0] == items[0] && kids[..k + 1][0] == kids[0];
    }
  }

  /** Contents up to and with child `k`. */
  lemma {:induction false} FlatUpTo<L>(items: seq<Item>, kids: seq<Tree<L>>, k: nat)
    requires |kids| == |items| + 1 && k < |kids|
    ensures Flat(items[..k], kids[..k + 1]) == Before(items, kids, k) + Inorder(kids[k])
  {
    var i, c := items[..k], kids[..k + 1];
    if k > 0 {
      FlatAtItem(i, c, k - 1);
      assert i[..k - 1] == items[..k - 1] && c[..k] == kids[..k];
      assert i[k..] == [] && c[k..] == [kids[k]];
    } else {
      assert i == [] && c == [kids[0]];
    }
  }

  /** Contents around child `k`. */
  lemma {:induction false} FlatAtKid<L>(items: seq<Item>, kids: seq<Tree<L>>, k: nat)
    requires |kids| == |items| + 1 && k < |kids|
    ensures Flat(items, kids) == Before(items, kids, k) + Inorder(kids[k]) + After(items, kids, k)
  {
    FlatUpTo(items, kids, k);
    if k < |items| {
      FlatAtItem(items, kids, k);
    } else {
      assert items[..k] == items && kids[..k + 1] == kids;
    }
  }

  /** Contents around two neighbours and the separator between them. */
  lemma {:induction false} FlatAtPair<L>(items: seq<Item>, kids: seq<Tree<L>>, k: nat)
    requires |kids| == |items| + 1 && k < |items|
    ensures Flat(items, kids) ==
            Before(items, kids, k) + (Inorder(kids[k]) + [items[k]] + Inorder(kids[k + 1])) + After(items, kids, k + 1)
  {
    FlatAtKid(items, kids, k);
    AfterPeel(items, kids, k);
    Regroup(Before(items, kids, k), Inorder(kids[k]), [items[k]], Inorder(kids[k + 1]), After(items, kids, k + 1));
  }

  lemma {:induction false} Regroup(b: seq<Item>, x: seq<Item>, m: seq<Item>, y: seq<Item>, a: seq<Item>)
    ensures b + x + (m + y + a) == b + (x + m + y) + a
    ensures (b + x + m) + y + a == b + x + (m + y + a)
  {
  }

  lemma {:induction false} AfterPeel<L>(items: seq<Item>, kids: seq<Tree<L>>, k: nat)
    requires |kids| == |items| + 1 && k < |items|
    ensures After(items, kids, k) == [items[k]] + Inorder(kids[k + 1]) + After(items, kids, k + 1)
  {
    var i, c := items[k + 1..], kids[k + 1..];
    if k + 1 < |items| {
      assert i[1..] == items[k + 2..] && c[1..] == kids[k + 2..];
    }
  }

  /** Before and After do not look at the child itself. */
  lemma {:induction false} AroundKid<L>(items: seq<Item>, kids: seq<Tree<L>>, k: nat, s: Tree<L>)
    requires |kids| == |items| + 1 && k < |kids|
    ensures Before(items, kids[k := s], k) == Before(items, kids, k)
    ensures After(items, kids[k := s], k) == After(items, kids, k)
  {
    assert kids[k := s][..k] == kids[..k] && kids[k := s][k + 1..] == kids[k + 1..];
  }

  function WithKid<L>(t: Tree<L>, k: nat, s: Tree<L>): Tree<L>
    requires k < |t.kids|
  {
    t.(kids := t.kids[k := s])
  }

  lemma {:induction false} InorderWithKid<L>(t: Tree<L>, k: nat, s: Tree<L>)
    requires |t.kids| == |t.items| + 1 && k < |t.kids|
    ensures Inorder(t) == Before(t.items, t.kids, k) + Inorder(t.kids[k]) + After(t.items, t.kids, k)
    ensures Inorder(WithKid(t, k, s)) == Before(t.items, t.kids, k) + Inorder(s) + After(t.items, t.kids, k)
  {
    FlatAtKid(t.items, t.kids, k);
    FlatAtKid(t.items, t.kids[k := s], k);
    AroundKid(t.items, t.kids, k, s);
  }

  // ----- Shape -----

  /** All leaves are `h` levels down, and an inner node has one child more than items. */
  predicate Formed<L>(t: Tree<L>, h: nat)
    decreases h
  {
    if h == 0 then t.kids == []
    else |t.kids| == |t.items| + 1 && forall k :: 0 <= k < |t.kids| ==> Formed(t.kids[k], h - 1)
  }

  /** All leaves are `h` levels down, and every node below the top holds 3 to 7 items. */
  predicate KidsOk<L>(t: Tree<L>, h: nat)
    decreases h
  {
    if h == 0 then t.kids == []
    else
      && |t.kids| == |t.items| + 1
      && forall k :: 0 <= k < |t.kids| ==> MIN <= |t.kids[k].items| <= MAX && KidsOk(t.kids[k], h - 1)
  }

  predicate NodeOk<L>(t: Tree<L>, h: nat, least: nat) {
    least <= |t.items| <= MAX && KidsOk(t, h)
  }

  lemma {:induction false} KidOk<L>(t: Tree<L>, k: nat, h: nat)
    requires h > 0 && KidsOk(t, h) && k < |t.kids|
    ensures NodeOk(t.kids[k], h - 1, MIN) && NodeOk(t.kids[k], h - 1, 1)
  {
  }

  /** As KidsOk, with `lo` as the least number of items. */
  predicate KidsIn<L>(t: Tree<L>, h: nat, lo: nat)
    decreases h
  {
    if h == 0 then t.kids == []
    else
      && |t.kids| == |t.items| + 1
      && forall k :: 0 <= k < |t.kids| ==> lo <= |t.kids[k].items| <= MAX && KidsIn(t.kids[k], h - 1, lo)
  }

  predicate NodeIn<L>(t: Tree<L>, h: nat, least: nat, lo: nat) {
    least <= |t.items| <= MAX && KidsIn(t, h, lo)
  }

  lemma {:induction false} KidIn<L>(t: Tree<L>, k: nat, h: nat, lo: nat)
    requires h > 0 && KidsIn(t, h, lo) && k < |t.kids|
    ensures NodeIn(t.kids[k], h - 1, lo, lo)
  {
  }

  lemma {:induction false} OkIsIn<L>(t: Tree<L>, h: nat)
    ensures KidsOk(t, h) <==> KidsIn(t, h, MIN)
    decreases h
  {
    if h > 0 {
      forall k | 0 <= k < |t.kids|
        ensures KidsOk(t.kids[k], h - 1) <==> KidsIn(t.kids[k], h - 1, MIN)
      {
        OkIsIn(t.kids[k], h - 1);
      }
    }
  }

  lemma {:induction false} LowerBound<L>(t: Tree<L>, h: nat, lo: nat, lo': nat)
    requires KidsIn(t, h, lo) && lo' <= lo
    ensures KidsIn(t, h, lo')
    decreases h
  {
    if h > 0 {
      forall k | 0 <= k < |t.kids|
        ensures KidsIn(t.kids[k], h - 1, lo')
      {
        LowerBound(t.kids[k], h - 1, lo, lo');
      }
    }
  }

  lemma {:induction false} InIsFormed<L>(t: Tree<L>, h: nat, lo: nat)
    requires KidsIn(t, h, lo)
    ensures Formed(t, h)
    decreases h
  {
    if h > 0 {
      forall k | 0 <= k < |t.kids|
        ensures Formed(t.kids[k], h - 1)
      {
        InIsFormed(t.kids[k], h - 1, lo);
      }
    }
  }

  /** How few items a root may have: none if it is a leaf. */
  function LeastAtRoot(h: nat): nat {
    if h == 0 then 0 else 1
  }

  /** As KidsOk, but child `k` is or holds the one parent of leaves with one item too few. */
  predicate ShortKid<L>(t: Tree<L>, h: nat, k: nat)
    decreases h, 0
  {
    && h > 1 && |t.kids| == |t.items| + 1 && k < |t.kids|
    && NodeShort(t.kids[k], h - 1)
    && forall j :: 0 <= j < |t.kids| && j != k ==> NodeOk(t.kids[j], h - 1, MIN)
  }

  predicate NodeShort<L>(t: Tree<L>, h: nat)
    decreases h, 1
  {
    if h <= 1 then h == 1 && |t.items| == MIN - 1 && KidsOk(t, 1)
    else MIN <= |t.items| <= MAX && exists k :: 0 <= k < |t.kids| && ShortKid(t, h, k)
  }

  predicate KidsShort<L>(t: Tree<L>, h: nat) {
    exists k :: 0 <= k < |t.kids| && ShortKid(t, h, k)
  }

  lemma {:induction false} OkIsFormed<L>(t: Tree<L>, h: nat)
    requires KidsOk(t, h)
    ensures Formed(t, h)
    decreases h
  {
    if h > 0 {
      forall k | 0 <= k < |t.kids|
        ensures Formed(t.kids[k], h - 1)
      {
        OkIsFormed(t.kids[k], h - 1);
      }
    }
  }

  lemma {:induction false} ShortIsFormed<L>(t: Tree<L>, h: nat)
    requires KidsShort(t, h)
    ensures Formed(t, h)
    decreases h
  {
    var k :| 0 <= k < |t.kids| && ShortKid(t, h, k);
    assert NodeShort(t.kids[k], h - 1);
    assert h > 2 ==> KidsShort(t.kids[k], h - 1);
    forall j | 0 <= j < |t.kids|
      ensures Formed(t.kids[j], h - 1)
    {
      if j != k || h == 2 { OkIsFormed(t.kids[j], h - 1); } else { ShortIsFormed(t.kids[j], h - 1); }
    }
  }

  /** One item too few is one too few. */
  lemma {:induction false} ShortIsIn<L>(t: Tree<L>, h: nat)
    requires KidsShort(t, h)
    ensures KidsIn(t, h, MIN - 1)
    decreases h
  {
    var k :| 0 <= k < |t.kids| && ShortKid(t, h, k);
    assert NodeShort(t.kids[k], h - 1);
    assert h > 2 ==> KidsShort(t.kids[k], h - 1);
    forall j | 0 <= j < |t.kids|
      ensures MIN - 1 <= |t.kids[j].items| <= MAX && KidsIn(t.kids[j], h - 1, MIN - 1)
    {
      if j != k || h == 2 {
        OkIsIn(t.kids[j], h - 1);
        LowerBound(t.kids[j], h - 1, MIN, MIN - 1);
      } else {
        ShortIsIn(t.kids[j], h - 1);
      }
    }
  }

  /** One item too few is too few. */
  lemma {:induction false} ShortIsNotOk<L>(t: Tree<L>, h: nat)
    requires KidsShort(t, h)
    ensures !KidsOk(t, h)
    decreases h
  {
    var k :| 0 <= k < |t.kids| && ShortKid(t, h, k);
    assert NodeShort(t.kids[k], h - 1);
    if h > 2 {
      assert KidsShort(t.kids[k], h - 1);
      ShortIsNotOk(t.kids[k], h - 1);
    }
  }

  predicate Sorted(s: seq<Item>) {
    forall i, j :: 0 <= i < j < |s| ==> s[i].key <= s[j].key
  }

  predicate NonZero(s: seq<Item>) {
    forall i :: 0 <= i < |s| ==> s[i].key != 0
  }

  /** The slot at `pos`, if it is in use, does not look unused. */
  predicate LiveAt(s: seq<Item>, pos: nat) {
    pos < |s| ==> s[pos].key != 0
  }

  // ----- Splitting a full child -----

  const MEDIAN: nat := ORDER / 2 - 1

  function LeftHalf<L>(c: Tree<L>): Tree<L>
    requires |c.items| == MAX && (c.IsLeaf() || |c.kids| == ORDER)
  {
    Tree(c.tag, c.items[..MEDIAN], if c.IsLeaf() then [] else c.kids[..MEDIAN + 1])
  }

  function RightHalf<L>(c: Tree<L>, tag: L): Tree<L>
    requires |c.items| == MAX && (c.IsLeaf() || |c.kids| == ORDER)
  {
    Tree(tag, c.items[MEDIAN + 1..], if c.IsLeaf() then [] else c.kids[MEDIAN + 1..])
  }

  lemma {:induction false} HalvesInorder<L>(c: Tree<L>, tag: L)
    requires |c.items| == MAX && (c.IsLeaf() || |c.kids| == ORDER)
    ensures Inorder(c) == Inorder(LeftHalf(c)) + [c.items[MEDIAN]] + Inorder(RightHalf(c, tag))
  {
    if !c.IsLeaf() { FlatAtItem(c.items, c.kids, MEDIAN); }
  }

  lemma {:induction false} HalvesOk<L>(c: Tree<L>, tag: L, h: nat, lo: nat)
    requires KidsIn(c, h, lo) && |c.items| == MAX && lo <= MIN
    ensures c.IsLeaf() || |c.kids| == ORDER
    ensures NodeIn(LeftHalf(c), h, lo, lo) && NodeIn(RightHalf(c, tag), h, lo, lo)
  {
  }

  /** Puts an item at `pos` and two children where one was. */
  function InsertNode<L>(t: Tree<L>, pos: nat, item: Item, left: Tree<L>, right: Tree<L>): Tree<L>
    requires pos <= |t.items| && |t.kids| == |t.items| + 1
  {
    Tree(t.tag, t.items[..pos] + [item] + t.items[pos..], t.kids[..pos] + [left, right] + t.kids[pos + 1..])
  }

  function SplitKid<L>(t: Tree<L>, pos: nat, tag: L): Tree<L>
    requires pos <= |t.items| && |t.kids| == |t.items| + 1
    requires |t.kids[pos].items| == MAX && (t.kids[pos].IsLeaf() || |t.kids[pos].kids| == ORDER)
  {
    var c := t.kids[pos];
    InsertNode(t, pos, c.items[MEDIAN], LeftHalf(c), RightHalf(c, tag))
  }

  lemma {:induction false} InsertNodeInorder<L>(t: Tree<L>, pos: nat, item: Item, left: Tree<L>, right: Tree<L>)
    requires pos <= |t.items| && |t.kids| == |t.items| + 1
    requires Inorder(t.kids[pos]) == Inorder(left) + [item] + Inorder(right)
    ensures Inorder(InsertNode(t, pos, item, left, right)) == Inorder(t)
  {
    var t' := InsertNode(t, pos, item, left, right);
    FlatAtKid(t.items, t.kids, pos);
    FlatAtPair(t'.items, t'.kids, pos);
    assert t'.kids[..pos] == t.kids[..pos] && t'.kids[pos + 2..] == t.kids[pos + 1..];
    if pos > 0 { assert t'.items[..pos - 1] == t.items[..pos - 1]; }
    assert Before(t'.items, t'.kids, pos) == Before(t.items, t.kids, pos);
    if pos < |t.items| {
      assert t'.items[pos + 2..] == t.items[pos + 1..] && t'.items[pos + 1] == t.items[pos];
    }
    assert After(t'.items, t'.kids, pos + 1) == After(t.items, t.kids, pos);
  }

  lemma {:induction false} InsertNodeOk<L>(t: Tree<L>, pos: nat, item: Item, left: Tree<L>, right: Tree<L>, h: nat, lo: nat)
    requires h > 0 && KidsIn(t, h, lo) && pos <= |t.items|
    requires NodeIn(left, h - 1, lo, lo) && NodeIn(right, h - 1, lo, lo)
    ensures KidsIn(InsertNode(t, pos, item, left, right), h, lo)
  {
    var t' := InsertNode(t, pos, item, left, right);
    forall k | 0 <= k < |t'.kids|
      ensures NodeIn(t'.kids[k], h - 1, lo, lo)
    {
      if k < pos { assert t'.kids[k] == t.kids[k]; }
      if k > pos + 1 { assert t'.kids[k] == t.kids[k - 1]; }
    }
  }

  lemma {:induction false} SplitKidInorder<L>(t: Tree<L>, pos: nat, tag: L)
    requires pos <= |t.items| && |t.kids| == |t.items| + 1
    requires |t.kids[pos].items| == MAX && (t.kids[pos].IsLeaf() || |t.kids[pos].kids| == ORDER)
    ensures Inorder(SplitKid(t, pos, tag)) == Inorder(t)
  {
    var c := t.kids[pos];
    HalvesInorder(c, tag);
    InsertNodeInorder(t, pos, c.items[MEDIAN], LeftHalf(c), RightHalf(c, tag));
  }

  /** Splitting keeps the contents, their order, the leaf depth and the occupancy. */
  lemma {:induction false} SplitKidOk<L>(t: Tree<L>, pos: nat, tag: L, h: nat, least: nat, lo: nat)
    requires h > 0 && NodeIn(t, h, least, lo) && lo <= MIN && |t.items| < MAX && pos <= |t.items| && |t.kids[pos].items| == MAX
    ensures t.kids[pos].IsLeaf() || |t.kids[pos].kids| == ORDER
    ensures Inorder(SplitKid(t, pos, tag)) == Inorder(t)
    ensures NodeIn(SplitKid(t, pos, tag), h, least, lo)
  {
    var c := t.kids[pos];
    KidIn(t, pos, h, lo);
    HalvesOk(c, tag, h - 1, lo);
    SplitKidInorder(t, pos, tag);
    InsertNodeOk(t, pos, c.items[MEDIAN], LeftHalf(c), RightHalf(c, tag), h, lo);
  }

  /** The root is full: its halves go under a new root and the tree grows by one level. */
  function GrowRoot<L>(t: Tree<L>, up: L, tag: L): Tree<L>
    requires |t.items| == MAX && (t.IsLeaf() || |t.kids| == ORDER)
  {
    Tree(up, [t.items[MEDIAN]], [LeftHalf(t), RightHalf(t, tag)])
  }

  lemma {:induction false} GrowRootOk<L>(t: Tree<L>, up: L, tag: L, h: nat, lo: nat)
    requires KidsIn(t, h, lo) && |t.items| == MAX && lo <= MIN
    ensures t.IsLeaf() || |t.kids| == ORDER
    ensures Inorder(GrowRoot(t, up, tag)) == Inorder(t)
    ensures NodeIn(GrowRoot(t, up, tag), h + 1, 1, lo)
  {
    HalvesOk(t, tag, h, lo);
    HalvesInorder(t, tag);
    var g := GrowRoot(t, up, tag);
    assert g.items[1..] == [] && g.kids[1..] == [RightHalf(t, tag)];
    assert Flat(g.items[1..], g.kids[1..]) == Inorder(RightHalf(t, tag));
  }

  // ----- Borrowing from a sibling, and merging -----

  function RotateRight<L>(t: Tree<L>, pos: nat): Tree<L>
    requires pos + 1 < |t.kids| && pos < |t.items| && |t.kids[pos + 1].items| > 0
    requires !t.kids[pos].IsLeaf() ==> !t.kids[pos + 1].IsLeaf()
  {
    var n, r := t.kids[pos], t.kids[pos + 1];
    var n' := Tree(n.tag, n.items + [t.items[pos]], if n.IsLeaf() then [] else n.kids + [r.kids[0]]);
    var r' := Tree(r.tag, r.items[1..], if r.IsLeaf() then [] else r.kids[1..]);
    Tree(t.tag, t.items[pos := r.items[0]], t.kids[pos := n'][pos + 1 := r'])
  }

  function RotateLeft<L>(t: Tree<L>, pos: nat): Tree<L>
    requires 0 < pos < |t.kids| && pos <= |t.items| && |t.kids[pos - 1].items| > 0
    requires !t.kids[pos].IsLeaf() ==> !t.kids[pos - 1].IsLeaf()
  {
    var l, n := t.kids[pos - 1], t.kids[pos];
    var n' := Tree(n.tag, [t.items[pos - 1]] + n.items, if n.IsLeaf() then [] else [l.kids[|l.kids| - 1]] + n.kids);
    var l' := Tree(l.tag, l.items[..|l.items| - 1], if l.IsLeaf() then [] else l.kids[..|l.kids| - 1]);
    Tree(t.tag, t.items[pos - 1 := l.items[|l.items| - 1]], t.kids[pos - 1 := l'][pos := n'])
  }

  /** Joins children `pos` and `pos + 1` around the item between them, in the left one's node. */
  function Merge<L>(t: Tree<L>, pos: nat): Tree<L>
    requires pos + 1 < |t.kids| && pos < |t.items|
  {
    var n, r := t.kids[pos], t.kids[pos + 1];
    var joined := Tree(n.tag, n.items + [t.items[pos]] + r.items, n.kids + r.kids);
    Tree(t.tag, t.items[..pos] + t.items[pos + 1..], t.kids[..pos] + [joined] + t.kids[pos + 2..])
  }

  /** Which of the three, in the order the code tries them. */
  function Rebalance<L>(t: Tree<L>, pos: nat): Tree<L>
    requires |t.kids| == |t.items| + 1 && pos < |t.kids| && |t.items| > 0
    requires forall k :: 0 <= k < |t.kids| ==> (t.kids[k].IsLeaf() <==> t.kids[0].IsLeaf())
  {
    if pos < |t.items| && |t.kids[pos + 1].items| > MIN then RotateRight(t, pos)
    else if pos > 0 && |t.kids[pos - 1].items| > MIN then RotateLeft(t, pos)
    else if pos >= |t.items| then Merge(t, pos - 1)
    else Merge(t, pos)
  }

  /** Flat of two rows joined by an item. */
  lemma {:induction false} FlatJoin<L>(a: seq<Item>, ak: seq<Tree<L>>, x: Item, b: seq<Item>, bk: seq<Tree<L>>)
    requires |ak| == |a| + 1 && |bk| == |b| + 1
    ensures Flat(a + [x] + b, ak + bk) == Flat(a, ak) + [x] + Flat(b, bk)
  {
    var i, k := a + [x] + b, ak + bk;
    FlatAtItem(i, k, |a|);
    assert i[..|a|] == a && k[..|a| + 1] == ak && i[|a| + 1..] == b && k[|a| + 1..] == bk;
  }

  /** Replacing a neighbouring pair by one with the same contents. */
  lemma {:induction false} SamePair<L>(t: Tree<L>, pos: nat, n: Tree<L>, x: Item, r: Tree<L>)
    requires |t.kids| == |t.items| + 1 && pos < |t.items|
    requires Inorder(n) + [x] + Inorder(r) == Inorder(t.kids[pos]) + [t.items[pos]] + Inorder(t.kids[pos + 1])
    ensures Inorder(Tree(t.tag, t.items[pos := x], t.kids[pos := n][pos + 1 := r])) == Inorder(t)
  {
    var t' := Tree(t.tag, t.items[pos := x], t.kids[pos := n][pos + 1 := r]);
    FlatAtPair(t.items, t.kids, pos);
    FlatAtPair(t'.items, t'.kids, pos);
    assert t'.kids[..pos] == t.kids[..pos] && t'.kids[pos + 2..] == t.kids[pos + 2..];
    if pos > 0 { assert t'.items[..pos - 1] == t.items[..pos - 1]; }
    assert Before(t'.items, t'.kids, pos) == Before(t.items, t.kids, pos);
    if pos + 1 < |t.items| { assert t'.items[pos + 2..] == t.items[pos + 2..]; }
    assert After(t'.items, t'.kids, pos + 1) == After(t.items, t.kids, pos + 1);
  }

  /** Two nodes of the same height, each formed as the other. */
  predicate Alike<L>(n: Tree<L>, r: Tree<L>) {
    || (n.IsLeaf() && r.IsLeaf())
    || (|n.kids| == |n.items| + 1 && |r.kids| == |r.items| + 1)
  }

  lemma {:induction false} RotateRightInorder<L>(t: Tree<L>, pos: nat)
    requires |t.kids| == |t.items| + 1 && pos < |t.items| && |t.kids[pos + 1].items| > 0
    requires Alike(t.kids[pos], t.kids[pos + 1])
    ensures Inorder(RotateRight(t, pos)) == Inorder(t)
  {
    var n, r, x := t.kids[pos], t.kids[pos + 1], t.items[pos];
    var t' := RotateRight(t, pos);
    var n', r' := t'.kids[pos], t'.kids[pos + 1];
    if n.IsLeaf() {
      assert n.items + [x] + r.items == n'.items + [r.items[0]] + r'.items;
    } else {
      FlatJoin(n.items, n.kids, x, [], [r.kids[0]]);
      assert n.items + [x] + [] == n.items + [x];
      assert Inorder(n') == Inorder(n) + [x] + Inorder(r.kids[0]);
      assert Inorder(r) == Inorder(r.kids[0]) + [r.items[0]] + Inorder(r');
    }
    SamePair(t, pos, n', r.items[0], r');
  }

  lemma {:induction false} PeelLast<L>(items: seq<Item>, kids: seq<Tree<L>>)
    requires |kids| == |items| + 1 && |items| > 0
    ensures Flat(items, kids) ==
            Flat(items[..|items| - 1], kids[..|items|]) + [items[|items| - 1]] + Inorder(kids[|items|])
  {
    var m := |items| - 1;
    FlatAtItem(items, kids, m);
    assert items[m + 1..] == [] && kids[m + 1..] == [kids[m + 1]];
  }

  lemma {:induction false} PutFirst<L>(items: seq<Item>, kids: seq<Tree<L>>, x: Item, s: Tree<L>)
    requires |kids| == |items| + 1
    ensures Flat([x] + items, [s] + kids) == Inorder(s) + [x] + Flat(items, kids)
  {
    assert ([x] + items)[1..] == items && ([s] + kids)[1..] == kids;
  }

  /** The last child of an inner node moves over to the front of its right neighbour. */
  lemma {:induction false} MoveLastKid<L>(l: Tree<L>, x: Item, n: Tree<L>)
    requires |l.kids| == |l.items| + 1 && |n.kids| == |n.items| + 1 && |l.items| > 0
    ensures var m := |l.items| - 1;
            Inorder(Tree(l.tag, l.items[..m], l.kids[..m + 1])) + [l.items[m]]
              + Inorder(Tree(n.tag, [x] + n.items, [l.kids[m + 1]] + n.kids))
            == Inorder(l) + [x] + Inorder(n)
  {
    var m := |l.items| - 1;
    var s := l.kids[m + 1];
    PeelLast(l.items, l.kids);
    PutFirst(n.items, n.kids, x, s);
    Regroup(Flat(l.items[..m], l.kids[..m + 1]), [l.items[m]], Inorder(s), [x], Inorder(n));
  }

  lemma {:induction false} RotateLeftInorder<L>(t: Tree<L>, pos: nat)
    requires |t.kids| == |t.items| + 1 && 0 < pos <= |t.items| && |t.kids[pos - 1].items| > 0
    requires Alike(t.kids[pos], t.kids[pos - 1])
    ensures Inorder(RotateLeft(t, pos)) == Inorder(t)
  {
    var l, n, x := t.kids[pos - 1], t.kids[pos], t.items[pos - 1];
    var l', n' := RotateLeft(t, pos).kids[pos - 1], RotateLeft(t, pos).kids[pos];
    var y := l.items[|l.items| - 1];
    if n.IsLeaf() {
      assert l'.items + [y] + n'.items == l.items + [x] + n.items;
    } else {
      MoveLastKid(l, x, n);
    }
    SamePair(t, pos - 1, l', y, n');
  }

  /** The joined node has what the two had and the item between them. */
  lemma {:induction false} JoinedInorder<L>(n: Tree<L>, x: Item, r: Tree<L>)
    requires Alike(n, r)
    ensures Inorder(Tree(n.tag, n.items + [x] + r.items, n.kids + r.kids)) == Inorder(n) + [x] + Inorder(r)
  {
    if n.IsLeaf() && r.IsLeaf() {
      assert n.kids + r.kids == [];
    } else {
      FlatJoin(n.items, n.kids, x, r.items, r.kids);
    }
  }

  lemma {:induction false} AroundMerged<L>(t: Tree<L>, pos: nat)
    requires |t.kids| == |t.items| + 1 && pos < |t.items|
    ensures var t' := Merge(t, pos);
            && Before(t'.items, t'.kids, pos) == Before(t.items, t.kids, pos)
            && After(t'.items, t'.kids, pos) == After(t.items, t.kids, pos + 1)
  {
    var t' := Merge(t, pos);
    assert t'.kids[..pos] == t.kids[..pos] && t'.kids[pos + 1..] == t.kids[pos + 2..];
    if pos > 0 { assert t'.items[..pos - 1] == t.items[..pos - 1]; }
    if pos + 1 < |t.items| {
      assert t'.items[pos + 1..] == t.items[pos + 2..] && t'.items[pos] == t.items[pos + 1];
    }
  }

  lemma {:induction false} MergeInorder<L>(t: Tree<L>, pos: nat)
    requires |t.kids| == |t.items| + 1 && pos < |t.items| && Alike(t.kids[pos], t.kids[pos + 1])
    ensures Inorder(Merge(t, pos)) == Inorder(t)
  {
    var t' := Merge(t, pos);
    JoinedInorder(t.kids[pos], t.items[pos], t.kids[pos + 1]);
    FlatAtPair(t.items, t.kids, pos);
    FlatAtKid(t'.items, t'.kids, pos);
    AroundMerged(t, pos);
  }

  /** Child `pos` has one item too few; everything else is in order. */
  predicate OneShort<L>(t: Tree<L>, pos: nat, h: nat) {
    && h > 0 && 0 < |t.items| <= MAX && |t.kids| == |t.items| + 1 && pos < |t.kids|
    && |t.kids[pos].items| == MIN - 1 && KidsOk(t.kids[pos], h - 1)
    && forall k :: 0 <= k < |t.kids| && k != pos ==> NodeOk(t.kids[k], h - 1, MIN)
  }

  lemma {:induction false} OneShortAlike<L>(t: Tree<L>, pos: nat, h: nat)
    requires OneShort(t, pos, h)
    ensures forall k :: 0 <= k < |t.kids| ==> (t.kids[k].IsLeaf() <==> h == 1)
    ensures forall j, k :: 0 <= j < |t.kids| && 0 <= k < |t.kids| ==> Alike(t.kids[j], t.kids[k])
  {
    forall k | 0 <= k < |t.kids|
      ensures KidsOk(t.kids[k], h - 1)
    {
      if k != pos { assert NodeOk(t.kids[k], h - 1, MIN); }
    }
  }

  lemma {:induction false} MergeOk<L>(t: Tree<L>, pos: nat, q: nat, h: nat)
    requires OneShort(t, pos, h) && q < |t.items| && (q == pos || q + 1 == pos)
    requires |t.kids[q].items| + |t.kids[q + 1].items| < MAX
    ensures KidsOk(Merge(t, q), h)
  {
    OneShortAlike(t, pos, h);
    var t' := Merge(t, q);
    var j := t'.kids[q];
    assert NodeOk(t.kids[if q == pos then q + 1 else q], h - 1, MIN);
    assert NodeOk(j, h - 1, MIN);
    forall k | 0 <= k < |t'.kids|
      ensures NodeOk(t'.kids[k], h - 1, MIN)
    {
      if k != q { assert t'.kids[k] == t.kids[if k < q then k else k + 1]; }
    }
  }

  /** Rebalancing keeps the contents, repairs the deficient child and costs the parent at most one item. */
  lemma {:induction false} RebalanceOk<L>(t: Tree<L>, pos: nat, h: nat)
    requires OneShort(t, pos, h)
    ensures forall k :: 0 <= k < |t.kids| ==> (t.kids[k].IsLeaf() <==> t.kids[0].IsLeaf())
    ensures Inorder(Rebalance(t, pos)) == Inorder(t)
    ensures KidsOk(Rebalance(t, pos), h) && |t.items| - 1 <= |Rebalance(t, pos).items| <= |t.items|
    ensures |Rebalance(t, pos).items| == |t.items| <==>
            (pos < |t.items| && |t.kids[pos + 1].items| > MIN) || (pos > 0 && |t.kids[pos - 1].items| > MIN)
  {
    OneShortAlike(t, pos, h);
    if pos < |t.items| && |t.kids[pos + 1].items| > MIN {
      RotateRightInorder(t, pos);
      RotateRightOk(t, pos, h);
    } else if pos > 0 && |t.kids[pos - 1].items| > MIN {
      RotateLeftInorder(t, pos);
      RotateLeftOk(t, pos, h);
    } else {
      var q := if pos >= |t.items| then pos - 1 else pos;
      MergeInorder(t, q);
      MergeOk(t, pos, q, h);
    }
  }

  /** Two neighbours, one of which may have been short, exchanged for two that are not. */
  lemma {:induction false} PairOk<L>(t: Tree<L>, pos: nat, k: nat, a: Tree<L>, x: Item, b: Tree<L>, h: nat)
    requires OneShort(t, pos, h) && k < |t.items| && (pos == k || pos == k + 1)
    requires NodeOk(a, h - 1, MIN) && NodeOk(b, h - 1, MIN)
    ensures KidsOk(Tree(t.tag, t.items[k := x], t.kids[k := a][k + 1 := b]), h)
  {
    var kids := t.kids[k := a][k + 1 := b];
    forall j | 0 <= j < |kids|
      ensures NodeOk(kids[j], h - 1, MIN)
    {
      if j != k && j != k + 1 { assert kids[j] == t.kids[j]; }
    }
  }

  /** A node gains or loses an item, and a child with it, at one of its ends. */
  lemma {:induction false} GainOk<L>(n: Tree<L>, x: Item, c: Tree<L>, h: nat)
    requires KidsOk(n, h) && (h > 0 ==> NodeOk(c, h - 1, MIN))
    ensures KidsOk(Tree(n.tag, n.items + [x], if n.IsLeaf() then [] else n.kids + [c]), h)
    ensures KidsOk(Tree(n.tag, [x] + n.items, if n.IsLeaf() then [] else [c] + n.kids), h)
  {
  }

  lemma {:induction false} LoseOk<L>(n: Tree<L>, h: nat)
    requires KidsOk(n, h) && |n.items| > 0
    ensures KidsOk(Tree(n.tag, n.items[1..], if n.IsLeaf() then [] else n.kids[1..]), h)
    ensures KidsOk(Tree(n.tag, n.items[..|n.items| - 1], if n.IsLeaf() then [] else n.kids[..|n.kids| - 1]), h)
  {
  }

  lemma {:induction false} RotateRightOk<L>(t: Tree<L>, pos: nat, h: nat)
    requires OneShort(t, pos, h) && pos < |t.items| && |t.kids[pos + 1].items| > MIN
    ensures !t.kids[pos].IsLeaf() ==> !t.kids[pos + 1].IsLeaf()
    ensures KidsOk(RotateRight(t, pos), h)
  {
    OneShortAlike(t, pos, h);
    var n, r, t' := t.kids[pos], t.kids[pos + 1], RotateRight(t, pos);
    assert NodeOk(r, h - 1, MIN);
    GainOk(n, t.items[pos], if h == 1 then n else r.kids[0], h - 1);
    LoseOk(r, h - 1);
    PairOk(t, pos, pos, t'.kids[pos], r.items[0], t'.kids[pos + 1], h);
  }

  lemma {:induction false} RotateLeftOk<L>(t: Tree<L>, pos: nat, h: nat)
    requires OneShort(t, pos, h) && 0 < pos && |t.kids[pos - 1].items| > MIN
    ensures !t.kids[pos].IsLeaf() ==> !t.kids[pos - 1].IsLeaf()
    ensures KidsOk(RotateLeft(t, pos), h)
  {
    OneShortAlike(t, pos, h);
    var l, n, t' := t.kids[pos - 1], t.kids[pos], RotateLeft(t, pos);
    assert NodeOk(l, h - 1, MIN);
    GainOk(n, t.items[pos - 1], if h == 1 then n else l.kids[|l.kids| - 1], h - 1);
    LoseOk(l, h - 1);
    PairOk(t, pos, pos - 1, t'.kids[pos - 1], l.items[|l.items| - 1], t'.kids[pos], h);
  }
}

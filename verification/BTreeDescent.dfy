/**
 What the descent of an insertion does to the tree's contents and shape.
 */
module BTreeDescent {
  import opened BTreeShape
  import opened BTreePaths

  /** The path ends at a leaf with room, and `pos` is the place for `key` in it, in front of no zero key. */
  predicate Lands<L>(t: Tree<L>, path: seq<nat>, pos: nat, key: nat, h: nat) {
    && IsPath(t, path) && |path| == h
    && Subtree(t, path).IsLeaf() && |Subtree(t, path).items| < MAX && pos <= |Subtree(t, path).items|
    && LiveAt(Subtree(t, path).items, pos) && Slot(Inorder(t), Offset(t, path) + pos, key)
  }

  /** After a split the key still belongs to the half the code picks. */
  lemma {:induction false} RouteAfterSplit<L>(t: Tree<L>, pos: nat, tag: L, key: nat)
    requires pos <= |t.items| && |t.kids| == |t.items| + 1 && Route(t.items, pos, key)
    requires |t.kids[pos].items| == MAX && (t.kids[pos].IsLeaf() || |t.kids[pos].kids| == ORDER)
    ensures var t', m := SplitKid(t, pos, tag), t.kids[pos].items[MEDIAN];
            && t'.kids[pos] == LeftHalf(t.kids[pos]) && t'.kids[pos + 1] == RightHalf(t.kids[pos], tag)
            && |t'.kids[pos].items| < MAX && |t'.kids[pos + 1].items| < MAX
            && Route(t'.items, if key > m.key then pos + 1 else pos, key)
  {
  }

  /** The loop's answer in a leaf is the place for the key. */
  lemma LeafSlot<L>(t: Tree<L>, i: nat, key: nat)
    requires t.IsLeaf() && Sorted(t.items) && i <= |t.items|
    requires forall j :: 0 <= j < i ==> t.items[j].key <= key
    requires i < |t.items| ==> t.items[i].key > key
    ensures Slot(Inorder(t), i, key)
  {
  }

  lemma {:induction false} LandsHere<L>(t: Tree<L>, i: nat, key: nat)
    requires t.IsLeaf() && |t.items| < MAX && Sorted(Inorder(t)) && i <= |t.items|
    requires forall j :: 0 <= j < i ==> t.items[j].key <= key
    requires i < |t.items| ==> t.items[i].key > key
    ensures Lands(t, [], i, key, 0)
  {
    LeafSlot(t, i, key);
  }

  /** Landing in the right child is landing in the whole. */
  lemma {:induction false} LandsInKid<L>(t: Tree<L>, q: nat, path: seq<nat>, pos: nat, key: nat, h: nat)
    requires q < |t.kids| == |t.items| + 1 && Sorted(Inorder(t)) && Route(t.items, q, key)
    requires Lands(t.kids[q], path, pos, key, h)
    ensures Lands(t, [q] + path, pos, key, h + 1)
  {
    var p := [q] + path;
    assert p[0] == q && p[1..] == path;
    SlotInKid(t, q, Offset(t.kids[q], path) + pos, key);
  }

  /** A child exchanged for one with the same contents and shape. */
  lemma {:induction false} SameKidOk<L>(t: Tree<L>, q: nat, s: Tree<L>, h: nat, least: nat, lo: nat)
    requires h > 0 && NodeIn(t, h, least, lo) && q < |t.kids| && NodeIn(s, h - 1, lo, lo) && Inorder(s) == Inorder(t.kids[q])
    ensures Inorder(WithKid(t, q, s)) == Inorder(t) && NodeIn(WithKid(t, q, s), h, least, lo)
  {
    InorderWithKid(t, q, s);
  }

  /** Putting the item where the descent landed puts it in its place, and the leaf had room for it. */
  lemma {:induction false} InsertAtLanding<L>(t: Tree<L>, path: seq<nat>, pos: nat, item: Item, h: nat, least: nat, lo: nat)
    requires NodeIn(t, h, least, lo) && Sorted(Inorder(t)) && Lands(t, path, pos, item.key, h)
    ensures var leaf := Subtree(t, path);
            var t' := Replace(t, path, leaf.(items := InsertAt(leaf.items, pos, item)));
            && Inorder(t') == InsertAt(Inorder(t), Offset(t, path) + pos, item) && Sorted(Inorder(t'))
            && NodeIn(t', h, least, lo)
  {
    var leaf := Subtree(t, path);
    ContentsAtLanding(t, path, pos, item);
    InsertKeepsSorted(Inorder(t), Offset(t, path) + pos, item);
    ShapeAtLanding(t, path, pos, item, h, least, lo);
  }

  lemma {:induction false} ContentsAtLanding<L>(t: Tree<L>, path: seq<nat>, pos: nat, item: Item)
    requires IsPath(t, path) && Subtree(t, path).IsLeaf() && pos <= |Subtree(t, path).items|
    ensures var leaf := Subtree(t, path);
            var t' := Replace(t, path, leaf.(items := InsertAt(leaf.items, pos, item)));
            Offset(t, path) + pos <= |Inorder(t)| && Inorder(t') == InsertAt(Inorder(t), Offset(t, path) + pos, item)
  {
    var leaf := Subtree(t, path);
    var leaf' := leaf.(items := InsertAt(leaf.items, pos, item));
    ReplaceInorder(t, path, leaf');
    SpliceInsert(Inorder(t), Offset(t, path), leaf.items, pos, item, Inorder(Replace(t, path, leaf')));
  }

  lemma {:induction false} ShapeAtLanding<L>(t: Tree<L>, path: seq<nat>, pos: nat, item: Item, h: nat, least: nat, lo: nat)
    requires NodeIn(t, h, least, lo) && IsPath(t, path) && |path| == h && |Subtree(t, path).items| < MAX && pos <= |Subtree(t, path).items|
    ensures var leaf := Subtree(t, path);
            NodeIn(Replace(t, path, leaf.(items := InsertAt(leaf.items, pos, item))), h, least, lo)
  {
    var leaf := Subtree(t, path);
    SubtreeOk(t, path, h, least, lo);
    ReplaceOk(t, path, leaf.(items := InsertAt(leaf.items, pos, item)), h, least, lo);
  }

  lemma SpliceInsert(was: seq<Item>, o: nat, mid: seq<Item>, pos: nat, x: Item, now: seq<Item>)
    requires pos <= |mid| && Spliced(was, o, mid, InsertAt(mid, pos, x), now)
    ensures o + pos <= |was| && now == InsertAt(was, o + pos, x)
  {
    assert was[o..o + |mid|] == mid;
    assert was[..o] + mid[..pos] == was[..o + pos];
    assert mid[pos..] + was[o + |mid|..] == was[o + pos..];
  }

  lemma {:induction false} SubtreeOk<L>(t: Tree<L>, path: seq<nat>, h: nat, least: nat, lo: nat)
    requires NodeIn(t, h, least, lo) && IsPath(t, path) && |path| <= h
    ensures NodeIn(Subtree(t, path), h - |path|, if path == [] then least else lo, lo)
    decreases |path|
  {
    if path != [] { SubtreeOk(t.kids[path[0]], path[1..], h - 1, lo, lo); }
  }
}

/**
 The descent of an insertion: every full node on the way is split before it is entered, so a
 split always finds room in the parent, and the leaf at the end has room for the item.
 */
module BTreeFind {
  import opened BTreeShape
  import opened BTreePaths
  import opened BTreeDescent
  import opened BTreeNode
  import opened BTreeRows
  import opened BTreeSplit

  /** A tree in memory within its bounds whose contents are sorted: `least` items at the root, and `lo` below it. */
  ghost predicate Ordered(t: NTree, h: nat, least: nat, lo: nat)
    reads Nodes(t)
  {
    Rep(t) && NodeIn(t, h, least, lo) && Sorted(Inorder(t)) && lo <= MIN
  }

  lemma {:induction false} OrderedKid(t: NTree, q: nat, h: nat, least: nat, lo: nat)
    requires Ordered(t, h, least, lo) && h > 0 && q < |t.kids|
    ensures Ordered(t.kids[q], h - 1, lo, lo)
    ensures Nodes(t.kids[q]) <= Nodes(t) && t.tag !in Nodes(t.kids[q])
    ensures RowRep(t.kids[..q]) && RowRep(t.kids[q + 1..])
    ensures RowNodes(t.kids[..q]) !! Nodes(t.kids[q]) && RowNodes(t.kids[q + 1..]) !! Nodes(t.kids[q])
    ensures RowNodes(t.kids[..q]) <= Nodes(t) && RowNodes(t.kids[q + 1..]) <= Nodes(t)
    ensures t.tag.Holds(t.items, Tags(t.kids)) && t.tag.children[q] == t.kids[q].tag
  {
    RepAsRow(t);
    RowAround(t.kids, q);
    SortedKid(t, q);
    KidIn(t, q, h, lo);
  }

  /** Only leaves have null children. */
  lemma {:induction false} ChildPointer(s: NTree, i: nat, h: nat)
    requires s.tag.Holds(s.items, Tags(s.kids)) && i <= |s.items|
    requires if h == 0 then s.kids == [] else |s.kids| == |s.items| + 1
    ensures s.tag.children[i] == null <==> h == 0
    ensures h > 0 ==> |s.kids| == |s.items| + 1 && s.tag.children[i] == s.kids[i].tag
  {
    assert h == 0 ==> Tags(s.kids) == [];
  }

  /** The second part of find_dest_node: look for the child, and go on there unless this is a leaf. */
  method SearchNode(node: Node, key: nat, ghost s: NTree, ghost h: nat, ghost least: nat, ghost lo: nat)
    returns (dest: Node, pos: nat, ghost s': NTree, ghost path: seq<nat>)
    requires Ordered(s, h, least, lo) && s.tag == node && |s.items| < MAX
    modifies Nodes(s)
    ensures Ordered(s', h, least, lo) && s'.tag == node && (forall n :: n in Nodes(s') && n !in Nodes(s) ==> fresh(n)) && Inorder(s') == Inorder(s)
    ensures Lands(s', path, pos, key, h) && Subtree(s', path).tag == dest
    decreases 3 * h + 2
  {
    ghost var ns := Existing(Nodes(s));
    RepAsRow(s);
    pos := FindSlot(node, key, s.items, Tags(s.kids));
    ChildPointer(s, pos, h);
    if node.children[pos] == null {
      LandsHere(s, pos, key);
      dest, s', path := node, s, [];
    } else {
      OrderedKid(s, pos, h, least, lo);
      dest, pos, s', path := FindDestInKid(node.children[pos], node, key, pos, s, h, least, lo);
    }
  }

  /** find_dest_node with a parent: split the child if it is full, and continue in the right half. */
  method FindDestInKid(node: Node, parent: Node, key: nat, pos0: nat, ghost t: NTree, ghost h: nat, ghost least: nat, ghost lo: nat)
    returns (dest: Node, pos: nat, ghost t': NTree, ghost path: seq<nat>)
    requires Ordered(t, h, least, lo) && h > 0 && t.tag == parent && |t.items| < MAX
    requires pos0 <= |t.items| && t.kids[pos0].tag == node && Route(t.items, pos0, key) && LiveAt(t.items, pos0)
    modifies Nodes(t)
    ensures Ordered(t', h, least, lo) && t'.tag == parent && (forall n :: n in Nodes(t') && n !in Nodes(t) ==> fresh(n)) && Inorder(t') == Inorder(t)
    ensures Lands(t', path, pos, key, h) && Subtree(t', path).tag == dest
    decreases 3 * h + 1
  {
    ghost var q, t1;
    var n;
    n, q, t1 := SplitIfFull(node, parent, key, pos0, t, h, least, lo);
    dest, pos, t', path := SearchKid(n, key, q, t1, h, least, lo);
  }

  /** The first part of find_dest_node, with a parent. */
  method SplitIfFull(node: Node, parent: Node, key: nat, pos: nat, ghost t: NTree, ghost h: nat, ghost least: nat, ghost lo: nat)
    returns (n: Node, ghost q: nat, ghost t': NTree)
    requires Ordered(t, h, least, lo) && h > 0 && t.tag == parent && |t.items| < MAX
    requires pos <= |t.items| && t.kids[pos].tag == node && Route(t.items, pos, key) && LiveAt(t.items, pos)
    modifies Nodes(t)
    ensures Ordered(t', h, least, lo) && t'.tag == parent && (forall n :: n in Nodes(t') && n !in Nodes(t) ==> fresh(n)) && Inorder(t') == Inorder(t)
    ensures q < |t'.kids| && t'.kids[q].tag == n && |t'.kids[q].items| < MAX && Route(t'.items, q, key)
  {
    OrderedKid(t, pos, h, least, lo);
    RepAsRow(t.kids[pos]);
    if node.count == ORDER - 1 {
      n, q, t' := SplitFull(node, parent, key, pos, t, h, least, lo);
    } else {
      n, q, t' := node, pos, t;
    }
  }

  method SplitFull(node: Node, parent: Node, key: nat, pos: nat, ghost t: NTree, ghost h: nat, ghost least: nat, ghost lo: nat)
    returns (n: Node, ghost q: nat, ghost t': NTree)
    requires Rep(t) && NodeIn(t, h, least, lo) && lo <= MIN && h > 0 && t.tag == parent && |t.items| < MAX
    requires pos <= |t.items| && t.kids[pos].tag == node && Route(t.items, pos, key) && LiveAt(t.items, pos) && |t.kids[pos].items| == MAX
    modifies parent, node
    ensures Rep(t') && NodeIn(t', h, least, lo) && t'.tag == parent && Inorder(t') == Inorder(t)
    ensures forall n :: n in Nodes(t') && n !in Nodes(t) ==> fresh(n)
    ensures q < |t'.kids| && t'.kids[q].tag == n && |t'.kids[q].items| < MAX && Route(t'.items, q, key)
    ensures q == if key > t.kids[pos].items[MEDIAN].key then pos + 1 else pos
  {
    SplitKidOk(t, pos, node, h, least, lo);
    var m, right := SplitChild(parent, node, pos, t);
    AfterSplit(t, pos, right, key, h, least, lo);
    t' := SplitKid(t, pos, right);
    if key > m.key {
      n, q := right, pos + 1;
    } else {
      n, q := node, pos;
    }
  }

  /** The split tree as a value, and where the search goes on. */
  lemma {:induction false} AfterSplit(t: NTree, pos: nat, right: Node, key: nat, h: nat, least: nat, lo: nat)
    requires h > 0 && NodeIn(t, h, least, lo) && lo <= MIN && |t.items| < MAX && pos <= |t.items| && |t.kids[pos].items| == MAX
    requires Route(t.items, pos, key) && (t.kids[pos].IsLeaf() || |t.kids[pos].kids| == ORDER)
    ensures var t', m := SplitKid(t, pos, right), t.kids[pos].items[MEDIAN];
            && t'.tag == t.tag && NodeIn(t', h, least, lo) && Inorder(t') == Inorder(t) && pos + 1 < |t'.kids|
            && t'.kids[pos].tag == t.kids[pos].tag && t'.kids[pos + 1].tag == right
            && |t'.kids[pos].items| < MAX && |t'.kids[pos + 1].items| < MAX
            && Route(t'.items, if key > m.key then pos + 1 else pos, key)
  {
    SplitKidOk(t, pos, right, h, least, lo);
    RouteAfterSplit(t, pos, right, key);
  }

  /** Continues in child `q`, which is not full. */
  method SearchKid(n: Node, key: nat, ghost q: nat, ghost t: NTree, ghost h: nat, ghost least: nat, ghost lo: nat)
    returns (dest: Node, pos: nat, ghost t': NTree, ghost path: seq<nat>)
    requires Ordered(t, h, least, lo) && h > 0 && q < |t.kids| && t.kids[q].tag == n && |t.kids[q].items| < MAX && Route(t.items, q, key)
    modifies Nodes(t)
    ensures Ordered(t', h, least, lo) && t'.tag == t.tag && (forall n :: n in Nodes(t') && n !in Nodes(t) ==> fresh(n)) && Inorder(t') == Inorder(t)
    ensures Lands(t', path, pos, key, h) && Subtree(t', path).tag == dest
    decreases 3 * h
  {
    ghost var ns := Existing(Nodes(t));
    OrderedKid(t, q, h, least, lo);
    ghost var s, rest;
    dest, pos, s, rest := SearchNode(n, key, t.kids[q], h - 1, lo, lo);
    RepAroundKid(t, q, s);
    SameKidOk(t, q, s, h, least, lo);
    t', path := WithKid(t, q, s), [q] + rest;
    LandsInKid(t', q, rest, pos, key, h - 1);
  }

  /** find_dest_node without a parent: a full root is split under a new one, and the tree grows. */
  method GrowIfFull(root: Node, ghost t: NTree, ghost h: nat, ghost lo: nat) returns (root': Node, ghost t': NTree)
    requires t.tag == root && Ordered(t, h, LeastAtRoot(h), lo)
    modifies root
    ensures t'.tag == root' && |t'.items| < MAX && Inorder(t') == Inorder(t)
    ensures forall n :: n in Nodes(t') && n !in Nodes(t) ==> fresh(n)
    ensures if |t.items| == MAX then Ordered(t', h + 1, 1, lo) else t' == t && Ordered(t, h, LeastAtRoot(h), lo)
  {
    RepAsRow(t);
    root', t' := root, t;
    if root.count == ORDER - 1 {
      GrowRootOk(t, root, root, h, lo);
      var up, right := GrowTree(root, t);
      GrowRootOk(t, up, right, h, lo);
      root', t' := up, GrowRoot(t, up, right);
    }
  }

  /** insert_item on a leaf, seen from the whole tree. */
  method InsertInLeaf(dest: Node, pos: nat, item: Item, ghost t: NTree, ghost path: seq<nat>) returns (ghost t': NTree)
    requires Rep(t) && IsPath(t, path) && Subtree(t, path).tag == dest && Subtree(t, path).IsLeaf()
    requires pos <= |Subtree(t, path).items| < MAX && LiveAt(Subtree(t, path).items, pos)
    modifies dest
    ensures var leaf := Subtree(t, path); t' == Replace(t, path, leaf.(items := InsertAt(leaf.items, pos, item)))
    ensures Rep(t') && Nodes(t') <= Nodes(t) && t'.tag == t.tag
  {
    ghost var leaf := Subtree(t, path);
    ghost var leaf' := leaf.(items := InsertAt(leaf.items, pos, item));
    ghost var ns := Existing(Nodes(t) - Nodes(leaf));
    AllButHolds(t, path, ns);
    LeafRep(leaf);
    LeafRep(leaf');
    assert dest !in ns;
    dest.InsertItem(pos, item);
    ReplaceRep(t, path, leaf', ns);
    t' := Replace(t, path, leaf');
  }

  lemma {:induction false} LeafRep(t: NTree)
    requires t.IsLeaf()
    ensures Nodes(t) == {t.tag} && (Rep(t) <==> t.tag.Holds(t.items, []))
  {
    EmptyRow();
    RepAsRow(t);
    assert Tags(t.kids) == [];
  }

  /** InsertInLeaf where the descent landed: the tree stays in order and within its bounds. */
  method InsertLanded(dest: Node, pos: nat, item: Item, ghost t: NTree, ghost path: seq<nat>, ghost h: nat, ghost least: nat, ghost lo: nat)
    returns (ghost t': NTree)
    requires Ordered(t, h, least, lo)
    requires Lands(t, path, pos, item.key, h) && Subtree(t, path).tag == dest
    modifies dest
    ensures Ordered(t', h, least, lo) && t'.tag == t.tag && Nodes(t') <= Nodes(t)
    ensures Inorder(t') == InsertAt(Inorder(t), Offset(t, path) + pos, item)
  {
    InsertAtLanding(t, path, pos, item, h, least, lo);
    t' := InsertInLeaf(dest, pos, item, t, path);
  }
}

/**
 The B-tree map: insertion with preemptive splitting, removal with rebalancing on the way
 up, and the queries, on nodes in memory.
 */
module BTree {
  import opened BTreeShape
  import opened BTreePaths
  import opened BTreeDescent
  import opened BTreeNode
  import opened BTreeRows
  import opened BTreeFind
  import opened BTreeRebalance
  import opened BTreeRemoval
  import opened BTreeQuery

  /** The tree below the root pointer, if there is one, and how deep its leaves are. */
  datatype Top = Nothing | Top(tree: NTree, h: nat)

  class BTree {
    var root: Node?
    ghost var top: Top

    constructor ()
      ensures root == null && Valid() && Contents() == []
    {
      root := null;
      top := Nothing;
    }

    ghost function Footprint(): set<Node>
      reads this
    {
      if top.Top? then Nodes(top.tree) else {}
    }

    /** The items in key order. */
    ghost function Contents(): seq<Item>
      reads this
    {
      if top.Top? then Inorder(top.tree) else []
    }

    /** Within the bounds, with at least `lo` items in every node below the root, and sorted. */
    ghost predicate InOrder(lo: nat)
      reads this, Footprint()
    {
      if top.Top? then top.tree.tag == root && Ordered(top.tree, top.h, LeastAtRoot(top.h), lo) else root == null
    }

    ghost predicate Within(lo: nat)
      reads this, Footprint()
    {
      InOrder(lo) && NonZero(Contents())
    }

    /** Every node below the root has 3 to 7 items. */
    ghost predicate Valid()
      reads this, Footprint()
    {
      Within(MIN)
    }

    /** Every node in use was in use before or is newly allocated. */
    twostate predicate OnlyNew(before: set<Node>)
      reads this
    {
      forall n :: n in Footprint() && n !in before ==> fresh(n)
    }

    method IsEmpty(ghost lo: nat) returns (b: bool)
      requires InOrder(lo)
      ensures b <==> Contents() == []
      ensures b ==> top.Nothing? || (top.h == 0 && top.tree.items == [])
    {
      b := root == null || root.count == 0;
      if top.Top? {
        RepAsRow(top.tree);
        if top.h > 0 { FlatAtItem(top.tree.items, top.tree.kids, 0); }
      }
    }

    /** insert_node_empty_tree. */
    method InsertNodeEmptyTree(item: Item, ghost lo: nat)
      requires InOrder(lo) && lo <= MIN && (top.Nothing? || (top.h == 0 && top.tree.items == []))
      modifies this, Footprint()
      ensures InOrder(lo) && top.Top? && top.h == 0 && Contents() == [item] && OnlyNew(old(Footprint()))
    {
      if root == null {
        root := new Node();
      } else {
        RepAsRow(top.tree);
      }
      root.count := 0;
      root.SetItem(0, item);
      top := Top(Tree(root, [item], []), 0);
      assert Tags([]) == [];
      EmptyRow();
      RepAsRow(top.tree);
    }

    /** Another tree in memory becomes the one below the root. */
    ghost method Adopt(t: NTree, h: nat)
      requires Rep(t)
      modifies `top
      ensures top == Top(t, h) && Rep(t)
    {
      var ns := Existing(Nodes(t));
      label Before:
      top := Top(t, h);
      RepStays@Before(t, ns);
    }

    /** find_dest_node from the root. */
    method FindDestNode(key: nat, ghost lo: nat) returns (dest: Node, pos: nat, ghost path: seq<nat>)
      requires InOrder(lo) && top.Top?
      modifies this, Footprint()
      ensures InOrder(lo) && top.Top? && Contents() == old(Contents()) && OnlyNew(old(Footprint()))
      ensures top.h == if |old(top).tree.items| == MAX then old(top).h + 1 else old(top).h
      ensures Lands(top.tree, path, pos, key, top.h) && Subtree(top.tree, path).tag == dest
    {
      ghost var t, h;
      root, dest, pos, t, h, path := FindFromRoot(root, key, top.tree, top.h, lo);
      Adopt(t, h);
    }

    /** Contents and depth after adding an item to what was there before. */
    ghost predicate Grown(was: seq<Item>, topWas: Top, item: Item)
      reads this
    {
      && top.Top? && (topWas.Top? ==> top.h == if |topWas.tree.items| == MAX then topWas.h + 1 else topWas.h)
      && exists p :: Slot(was, p, item.key) && Contents() == InsertAt(was, p, item)
    }

    /**
     Adds the pair at its place in the contents, and the tree grows by one level exactly when the root was
     full. The upper bounds, and any lower bound on the items per node, are kept. Zero keys, which look like
     unused slots elsewhere, are no obstacle: the descent never stops in front of one.
     */
    method Insert(key: nat, value: nat, ghost lo: nat)
      requires InOrder(lo) && lo <= MIN
      modifies this, Footprint()
      ensures InOrder(lo) && Readable() && OnlyNew(old(Footprint()))
      ensures Within(lo) <==> old(Within(lo)) && key != 0
      ensures Grown(old(Contents()), old(top), Item(key, value))
      ensures multiset(Contents()) == multiset(old(Contents())) + multiset{Item(key, value)}
    {
      var item := Item(key, value);
      ghost var was := Contents();
      ghost var ns := Existing(Footprint());
      var empty := IsEmpty(lo);
      ghost var p := 0;
      if empty {
        InsertNodeEmptyTree(item, lo);
        assert Slot(was, 0, key) && Contents() == InsertAt(was, 0, item);
      } else {
        p := InsertByDescent(item, lo);
      }
      InsertMultiset(was, p, item);
      InsertNonZeroIff(was, p, item);
      InIsFormed(top.tree, top.h, lo);
    }

    method InsertByDescent(item: Item, ghost lo: nat) returns (ghost p: nat)
      requires InOrder(lo) && top.Top?
      modifies this, Footprint()
      ensures InOrder(lo) && OnlyNew(old(Footprint())) && top.Top?
      ensures top.h == if |old(top).tree.items| == MAX then old(top).h + 1 else old(top).h
      ensures Slot(old(Contents()), p, item.key) && Contents() == InsertAt(old(Contents()), p, item)
    {
      var dest, pos;
      ghost var path;
      dest, pos, path := FindDestNode(item.key, lo);
      SubtreeNodes(top.tree, path);
      p := InsertAtDest(dest, pos, item, path, lo);
    }

    /** insert_item on the leaf the descent found. */
    method InsertAtDest(dest: Node, pos: nat, item: Item, ghost path: seq<nat>, ghost lo: nat) returns (ghost p: nat)
      requires InOrder(lo) && top.Top?
      requires Lands(top.tree, path, pos, item.key, top.h) && Subtree(top.tree, path).tag == dest
      modifies this, dest
      ensures InOrder(lo) && top.Top? && top.h == old(top).h && Footprint() <= old(Footprint())
      ensures Slot(old(Contents()), p, item.key) && Contents() == InsertAt(old(Contents()), p, item)
    {
      p := Offset(top.tree, path) + pos;
      ghost var t' := InsertLanded(dest, pos, item, top.tree, path, top.h, LeastAtRoot(top.h), lo);
      Adopt(t', top.h);
    }

    // ----- Removal -----

    /** merge: joins two children; a root left without items is freed and its only child takes over. */
    method MergeAt(rn: Node, node: Node, parent: Node, pos: nat, ghost t: NTree)
      requires Rep(t) && t.tag == parent && pos + 1 < |t.kids| == |t.items| + 1
      requires t.kids[pos].tag == node && t.kids[pos + 1].tag == rn && Alike(t.kids[pos], t.kids[pos + 1])
      requires |t.kids[pos].items| + 1 + |t.kids[pos + 1].items| <= MAX
      requires |t.items| == 1 ==> root == parent
      modifies `root, parent, node, rn
      ensures |t.items| > 1 ==> Rep(Merge(t, pos)) && Nodes(Merge(t, pos)) <= Nodes(t) && root == old(root)
      ensures |t.items| == 1 ==> Rep(Merge(t, pos).kids[0]) && Nodes(Merge(t, pos).kids[0]) <= Nodes(t) && root == node
    {
      MergeTree(rn, node, parent, pos, t);
      ghost var t' := Merge(t, pos);
      RepAsRow(t');
      if parent.count == 0 && parent == root {
        InRow(t'.kids, 0);
        DropRoot(node, t'.kids[0]);
      }
    }

    /** The root is freed, and the tree under `node` takes over. */
    method DropRoot(node: Node, ghost t: NTree)
      requires root != null && Rep(t) && root !in Nodes(t)
      modifies `root, root
      ensures Rep(t) && root == node
    {
      ghost var ns := Existing(Nodes(t));
      label Before:
      Deallocate(root);
      root := node;
      RepStays@Before(t, ns);
    }

    /** rebalance, when no sibling can spare an item. */
    method MergeWithSibling(rsb: Node?, lsb: Node?, node: Node, parent: Node, pos: nat, ghost t: NTree, ghost h: nat)
      requires Rep(t) && OneShort(t, pos, h)
      requires t.tag == parent && t.kids[pos].tag == node && (|t.items| == 1 ==> root == parent)
      requires if pos < |t.items| then rsb == t.kids[pos + 1].tag && |t.kids[pos + 1].items| == MIN else rsb == null
      requires if pos > 0 then lsb == t.kids[pos - 1].tag && |t.kids[pos - 1].items| == MIN else lsb == null
      modifies `root, Nodes(t)
      ensures |t.items| > 1 ==> Rep(Merged(t, pos)) && Nodes(Merged(t, pos)) <= Nodes(t) && root == old(root)
      ensures |t.items| == 1 ==>
                && Rep(Merged(t, pos).kids[0]) && Nodes(Merged(t, pos).kids[0]) <= Nodes(t)
                && root == Merged(t, pos).kids[0].tag
    {
      OneShortAlike(t, pos, h);
      TagsInNodes(t);
      if rsb == null {
        MergeAt(node, lsb, parent, pos - 1, t);
      } else {
        MergeAt(rsb, node, parent, pos, t);
      }
    }

    /** rebalance: child `pos` has one item too few; borrow from a sibling or merge with one. */
    method RebalanceAt(node: Node, parent: Node, pos: nat, ghost t: NTree, ghost h: nat)
      requires Rep(t) && OneShort(t, pos, h) && NonZero(t.kids[pos].items)
      requires t.tag == parent && t.kids[pos].tag == node && (|t.items| == 1 ==> root == parent)
      modifies `root, Nodes(t)
      ensures KidsOk(Rebalance(t, pos), h)
      ensures Rebalance(t, pos).items != [] ==>
                Rep(Rebalance(t, pos)) && Nodes(Rebalance(t, pos)) <= Nodes(t) && root == old(root)
      ensures Rebalance(t, pos).items == [] ==>
                && Rep(Rebalance(t, pos).kids[0]) && Nodes(Rebalance(t, pos).kids[0]) <= Nodes(t)
                && root == Rebalance(t, pos).kids[0].tag
    {
      RebalanceOk(t, pos, h);
      var rsb, lsb := Siblings(parent, pos, t);
      if (rsb != null && rsb.count > MIN) || (lsb != null && lsb.count > MIN) {
        Borrow(rsb, lsb, node, parent, pos, t, h);
      } else {
        MergeWithSibling(rsb, lsb, node, parent, pos, t, h);
      }
    }

    /** What remains of a tree in memory: the tree itself, or its only child when the root lost its last item. */
    twostate predicate Remains(before: set<Node>, new r: NTree)
      reads this, Nodes(r)
    {
      if r.items == [] && r.kids != [] then
        Rep(r.kids[0]) && Nodes(r.kids[0]) <= before && root == r.kids[0].tag
      else
        Rep(r) && Nodes(r) <= before && root == old(root)
    }

    /** The leaf child `k` loses its first item, and its parent makes up for it. */
    method PopKidAt(lm: Node, lp: Node, k: nat, ghost t: NTree)
      requires Rep(t) && NodeOk(t, 1, 1) && k < |t.kids| && t.tag == lp && t.kids[k].tag == lm
      requires NonZero(t.kids[k].items) && (|t.items| == 1 ==> root == lp)
      modifies `root, Nodes(t)
      ensures Remains(Nodes(t), PopKid(t, k))
    {
      PopLeaf(lm, k, t);
      ghost var t' := WithKid(t, k, Pop(t.kids[k]));
      if |t'.kids[k].items| < MIN { assert OneShort(t', k, 1); }
      RebalanceIfShort(lm, lp, k, t', 1);
    }

    /** remove_from_node on an inner node: the successor takes the item's place and leaves its leaf. */
    method ReplaceBySuccessor(node: Node, i: nat, ghost s: NTree, ghost h: nat)
      requires Rep(s) && h > 0 && NodeOk(s, h, 1) && i < |s.items| && s.tag == node && NonZero(Inorder(s))
      requires |s.items| == 1 ==> root == node
      modifies `root, Nodes(s)
      ensures Remains(Nodes(s), RemoveFromNode(s, i, h))
    {
      ghost var s' := ReadyToPop(s, i, h);
      var lm, lp := TakeSuccessor(node, i, s, h);
      PopSuccessor(node, lm, lp, i + 1, s', h);
    }

    /** The leaf `lm` below child `k` loses its first item; its parent is the node itself or further down. */
    method PopSuccessor(node: Node, lm: Node, lp: Node, k: nat, ghost s: NTree, ghost h: nat)
      requires Rep(s) && h > 0 && NodeOk(s, h, 1) && k < |s.kids| && s.tag == node && NonZero(Inorder(s.kids[k]))
      requires IsPath(s.kids[k], Leftmost(h - 1)) && Subtree(s.kids[k], Leftmost(h - 1)).tag == lm
      requires if h == 1 then lp == node
               else IsPath(s.kids[k], Leftmost(h - 2)) && Subtree(s.kids[k], Leftmost(h - 2)).tag == lp && lp != node
      requires |s.items| == 1 ==> root == node
      modifies `root, Nodes(s)
      ensures Remains(Nodes(s), if h == 1 then PopKid(s, k) else WithKid(s, k, DropFirst(s.kids[k], h - 1)))
    {
      KidOk(s, k, h);
      if lp == node {
        NonZeroParts(s.kids[k]);
        PopKidAt(lm, lp, k, s);
      } else {
        PopBelow(lm, lp, k, s, h);
      }
    }

    /** The parent of the successor's leaf is further down. */
    method PopBelow(lm: Node, lp: Node, ghost k: nat, ghost s: NTree, ghost h: nat)
      requires Rep(s) && h > 1 && NodeOk(s, h, 1) && k < |s.kids| && NonZero(Inorder(s.kids[k]))
      requires IsPath(s.kids[k], Leftmost(h - 1)) && Subtree(s.kids[k], Leftmost(h - 1)).tag == lm
      requires IsPath(s.kids[k], Leftmost(h - 2)) && Subtree(s.kids[k], Leftmost(h - 2)).tag == lp
      modifies `root, Nodes(s)
      ensures Remains(Nodes(s), WithKid(s, k, DropFirst(s.kids[k], h - 1)))
    {
      ghost var path := [k] + Leftmost(h - 2);
      ghost var sub := Subtree(s.kids[k], Leftmost(h - 2));
      SuccessorPath(s, k, h);
      ghost var ns := Existing(Nodes(s) - Nodes(sub));
      AllButHolds(s, path, ns);
      SubtreeNodes(s, path);
      NonZeroSubtree(s.kids[k], Leftmost(h - 2));
      NonZeroParts(sub);
      PopKidAt(lm, lp, 0, sub);
      ReplaceRep(s, path, PopKid(sub, 0), ns);
    }

    /** remove_from_node. */
    method RemoveFromNodeAt(node: Node, i: nat, ghost s: NTree, ghost h: nat)
      requires Rep(s) && NodeOk(s, h, 1) && i < |s.items| && s.tag == node && NonZero(Inorder(s))
      requires h > 0 && |s.items| == 1 ==> root == node
      modifies `root, Nodes(s)
      ensures Remains(Nodes(s), RemoveFromNode(s, i, h))
    {
      RepAsRow(s);
      ChildPointer(s, 0, h);
      if node.children[0] == null {
        LeafRep(s);
        LeafRep(s.(items := RemoveAt(s.items, i)));
        node.RemoveFromLeaf(i);
      } else {
        ReplaceBySuccessor(node, i, s, h);
      }
    }

    /** remove_item at one node: take the key out here, or in the one child that can have it. */
    method RemoveItem(node: Node, key: nat, ghost s: NTree, ghost h: nat) returns (ret: nat)
      requires Rep(s) && NodeOk(s, h, if h == 0 then 0 else 1) && s.tag == node && NonZero(Inorder(s)) && Sorted(Inorder(s))
      requires h > 0 && |s.items| == 1 ==> root == node
      modifies `root, Nodes(s)
      ensures Remains(Nodes(s), RemoveKey(s, key, h))
      ensures ret == match Find(s, key) { case Present(v) => v case Absent => 0 }
      decreases 2 * h + 1
    {
      ret := 0;
      RepAsRow(s);
      SortedItems(s);
      ghost var ns := Existing(Nodes(s));
      var i, hit := Locate(node, key, s.items, Tags(s.kids));
      if hit {
        assert node.items[i] == s.items[i];
        ret := node.items[i].val;
        RemoveFromNodeAt(node, i, s, h);
      } else {
        ChildPointer(s, 0, h);
        if node.children[0] != null {
          ChildPointer(s, i, h);
          ret := RemoveItemInKid(node.children[i], node, key, i, s, h);
        }
      }
    }

    /** remove_item with a parent: afterwards a node with too few items is rebalanced. */
    method RemoveItemInKid(node: Node, parent: Node, key: nat, pos: nat, ghost t: NTree, ghost h: nat) returns (ret: nat)
      requires Rep(t) && h > 0 && NodeOk(t, h, 1) && NonZero(Inorder(t)) && Sorted(Inorder(t))
      requires t.tag == parent && pos < |t.kids| && t.kids[pos].tag == node
      requires |t.items| == 1 ==> root == parent
      modifies `root, Nodes(t)
      ensures Remains(Nodes(t), RemoveInKid(t, pos, key, h))
      ensures ret == match Find(t.kids[pos], key) { case Present(v) => v case Absent => 0 }
      decreases 2 * h
    {
      ghost var s := RemovedKid(t, pos, key, h);
      OkIsIn(t, h);
      ret := RemoveBelow(node, key, pos, t, h, s);
      RebalanceIfShort(node, parent, pos, WithKid(t, pos, s), h);
    }

    /** The second part of RemoveItemInKid. */
    method RebalanceIfShort(node: Node, parent: Node, pos: nat, ghost t: NTree, ghost h: nat)
      requires Rep(t) && pos < |t.kids| && t.tag == parent && t.kids[pos].tag == node && (|t.items| == 1 ==> root == parent)
      requires t.items != []
      requires |t.kids[pos].items| < MIN ==> OneShort(t, pos, h) && NonZero(t.kids[pos].items)
      modifies `root, Nodes(t)
      ensures Remains(Nodes(t), if |t.kids[pos].items| < MIN then Rebalanced(t, pos, h) else t)
    {
      RepAsRow(t);
      RowAround(t.kids, pos);
      RepAsRow(t.kids[pos]);
      if node.count < MIN {
        RebalanceAt(node, parent, pos, t, h);
      }
    }

    /** The first part of RemoveItemInKid: the key leaves the child. */
    method RemoveBelow(node: Node, key: nat, ghost pos: nat, ghost t: NTree, ghost h: nat, ghost s: NTree) returns (ret: nat)
      requires Ordered(t, h, 1, MIN) && NonZero(Inorder(t)) && h > 0 && pos < |t.kids| && t.kids[pos].tag == node
      requires NodeOk(t.kids[pos], h - 1, MIN) && s == RemoveKey(t.kids[pos], key, h - 1) && s.items != []
      modifies `root, Nodes(t.kids[pos])
      ensures Rep(WithKid(t, pos, s)) && Nodes(WithKid(t, pos, s)) <= Nodes(t) && root == old(root)
      ensures ret == match Find(t.kids[pos], key) { case Present(v) => v case Absent => 0 }
      decreases 2 * h, 0
    {
      KidByPath(t, pos, s);
      ghost var ns := Existing(Nodes(t) - Nodes(t.kids[pos]));
      AllButHolds(t, [pos], ns);
      NonZeroKid(t, pos, h);
      ret := RemoveItem(node, key, t.kids[pos], h - 1);
      ReplaceRep(t, [pos], s, ns);
    }

    /**
     Removes one item with the key, if there is one, and returns its value; otherwise nothing changes and
     the result is 0. Order and equal leaf depth always stay. The occupancy stays too, unless the way to the
     successor runs short: then, and only then, the tree is not valid, and exactly one parent of leaves has
     one item too few. Even so the queries and insertions that follow are right.
     */
    method Remove(key: nat) returns (ret: nat)
      requires Valid() && top.Top?
      modifies this, Footprint()
      ensures Within(MIN - 1) && Readable() && top.Top? && Footprint() <= old(Footprint())
      ensures if HasKey(old(Contents()), key) then exists p :: Taken(old(Contents()), Contents(), p, key, ret)
              else ret == 0 && top == old(top) && root == old(root)
      ensures HasKey(old(Contents()), key) ==> multiset(Contents()) == multiset(old(Contents())) - multiset{Item(key, ret)}
      ensures Valid() <==> !old(RunsShortAt(key))
      ensures old(RunsShortAt(key)) ==> top.h == old(top).h && |top.tree.items| == |old(top).tree.items| && KidsShort(top.tree, top.h)
    {
      ghost var t, h := top.tree, top.h;
      OkIsIn(t, h);
      RemoveShape(t, key, h);
      RemoveContents(t, key, h);
      ret := RemoveFromTop(key);
      ghost var r := RemoveKey(t, key, h);
      BoundsAfter(t, key, h);
      if HasKey(Inorder(t), key) {
        ghost var p :| Taken(Inorder(t), Inorder(r), p, key, Find(t, key).val);
        assert Taken(old(Contents()), Contents(), p, key, ret);
        RemoveMultiset(old(Contents()), p);
      }
    }

    /** What removal makes of the tree, as a value. */
    method RemoveFromTop(key: nat) returns (ret: nat)
      requires Valid() && top.Top? && NodeOk(top.tree, top.h, LeastAtRoot(top.h))
      modifies this, Footprint()
      ensures var r := RemoveKey(old(top).tree, key, old(top).h);
              && (r.kids != [] ==> old(top).h > 0) && top == Top(Crown(r), CrownHeight(r, old(top).h))
              && (r == old(top).tree && Crown(r) == r ==> root == old(root))
      ensures Rep(top.tree) && root == top.tree.tag && Footprint() <= old(Footprint())
      ensures ret == match Find(old(top).tree, key) { case Present(v) => v case Absent => 0 }
    {
      ghost var t, h := top.tree, top.h;
      RemoveShape(t, key, h);
      ret := RemoveItem(root, key, t, h);
      ghost var r := RemoveKey(t, key, h);
      Adopt(Crown(r), CrownHeight(r, h));
    }

    /** The tree is so arranged that removing the key leaves a node short; see LeavesShort. */
    ghost predicate RunsShortAt(key: nat)
      reads this
    {
      top.Top? && NodeOk(top.tree, top.h, 0) && LeavesShort(top.tree, key, top.h)
    }

    // ----- Queries -----

    /** What the queries need: a sorted tree with all leaves at one depth. */
    ghost predicate Readable()
      reads this, Footprint()
    {
      if top.Top? then top.tree.tag == root && Searchable(top.tree, top.h) else root == null
    }

    /** A value stored under the key, or 0 if there is none. */
    method Get(key: nat) returns (v: nat)
      requires Readable()
      ensures if HasKey(Contents(), key) then Item(key, v) in Contents() else v == 0
    {
      if root == null { return 0; }
      FindAgrees(top.tree, key, top.h);
      v := GetInNode(root, key, top.tree, top.h);
    }

    /** 1 exactly for the stored keys, else 0. */
    method Lookup(key: nat) returns (found: nat)
      requires Readable()
      ensures found == if HasKey(Contents(), key) then 1 else 0
    {
      if root == null { return 0; }
      FindAgrees(top.tree, key, top.h);
      found := LookupInNode(root, key, top.tree, top.h);
    }

    /** Hands the items to the callback in key order, each once, until it says stop. */
    method Foreach(stop: seq<Item> -> bool) returns (visited: seq<Item>, rc: bool)
      requires Readable() && NonZero(Contents())
      ensures visited <= Contents() && (!rc ==> visited == Contents())
      ensures rc <==> exists k :: 0 < k <= |Contents()| && stop(Contents()[..k])
      ensures rc ==> stop(visited) && forall k :: 0 < k < |visited| ==> !stop(visited[..k])
    {
      visited, rc := ForeachNode(root, stop, [], if top.Top? then [top.tree] else [], if top.Top? then top.h else 0);
      VisitFromStart(Contents(), stop);
    }
  }

  /** find_dest_node without a parent: first the root, then down. */
  method FindFromRoot(root: Node, key: nat, ghost t: NTree, ghost h: nat, ghost lo: nat)
    returns (root': Node, dest: Node, pos: nat, ghost t': NTree, ghost h': nat, ghost path: seq<nat>)
    requires t.tag == root && Ordered(t, h, LeastAtRoot(h), lo)
    modifies Nodes(t)
    ensures h' == if |t.items| == MAX then h + 1 else h
    ensures t'.tag == root' && Ordered(t', h', LeastAtRoot(h'), lo) && Inorder(t') == Inorder(t)
    ensures forall n :: n in Nodes(t') && n !in Nodes(t) ==> fresh(n)
    ensures Lands(t', path, pos, key, h') && Subtree(t', path).tag == dest
  {
    ghost var ns := Existing(Nodes(t));
    h' := if |t.items| == MAX then h + 1 else h;
    TreeAsRow(t);
    root', t' := GrowIfFull(root, t, h, lo);
    dest, pos, t', path := SearchNode(root', key, t', h', LeastAtRoot(h'), lo);
  }

  lemma {:induction false} NonZeroKid(t: NTree, pos: nat, h: nat)
    requires Ordered(t, h, 1, MIN) && NonZero(Inorder(t)) && h > 0 && pos < |t.kids|
    ensures Rep(t.kids[pos]) && Sorted(Inorder(t.kids[pos])) && NonZero(Inorder(t.kids[pos]))
  {
    OrderedKid(t, pos, h, 1, MIN);
    NonZeroParts(t);
  }

  lemma {:induction false} KidByPath(t: NTree, pos: nat, s: NTree)
    requires pos < |t.kids| == |t.items| + 1
    ensures IsPath(t, [pos]) && Subtree(t, [pos]) == t.kids[pos] && Replace(t, [pos], s) == WithKid(t, pos, s)
  {
    var p := [pos];
    assert p[0] == pos && p[1..] == [];
    assert IsPath(t.kids[pos], p[1..]) && Subtree(t.kids[pos], p[1..]) == t.kids[pos] && Replace(t.kids[pos], p[1..], s) == s;
  }

  /** The bounds of what is left, in the two senses. */
  lemma {:induction false} BoundsAfter(t: NTree, key: nat, h: nat)
    requires NodeOk(t, h, LeastAtRoot(h))
    ensures var r := RemoveKey(t, key, h);
            && (r.kids != [] ==> h > 0)
            && var c, hc := Crown(r), CrownHeight(r, h);
            && NodeIn(c, hc, LeastAtRoot(hc), MIN - 1) && Formed(c, hc)
            && (NodeIn(c, hc, LeastAtRoot(hc), MIN) <==> !LeavesShort(t, key, h))
  {
    RemoveShape(t, key, h);
    var r := RemoveKey(t, key, h);
    var c, hc := Crown(r), CrownHeight(r, h);
    OkIsIn(c, hc);
    if LeavesShort(t, key, h) {
      ShortIsIn(r, h);
      ShortIsNotOk(r, h);
    } else {
      LowerBound(c, hc, MIN, MIN - 1);
    }
  }

  /** What the child becomes, and what the parent then does about it. */
  lemma {:induction false} RemovedKid(t: NTree, pos: nat, key: nat, h: nat) returns (s: NTree)
    requires h > 0 && NodeOk(t, h, 1) && pos < |t.kids| && NonZero(Inorder(t))
    ensures NodeOk(t.kids[pos], h - 1, MIN) && s == RemoveKey(t.kids[pos], key, h - 1)
    ensures s.tag == t.kids[pos].tag && s.items != []
    ensures |s.items| < MIN ==> OneShort(WithKid(t, pos, s), pos, h) && NonZero(s.items)
    ensures RemoveInKid(t, pos, key, h) == if |s.items| < MIN then Rebalanced(WithKid(t, pos, s), pos, h) else WithKid(t, pos, s)
  {
    RemoveInKidCases(t, pos, key, h);
    s := RemoveKey(t.kids[pos], key, h - 1);
    NonZeroParts(t);
    if |s.items| < MIN { RemovedNonZero(t.kids[pos], key, h - 1); }
  }

  /** Removal brings in no zero key. */
  lemma {:induction false} RemovedNonZero(t: NTree, key: nat, h: nat)
    requires NodeOk(t, h, 0) && (h > 0 ==> t.items != []) && NonZero(Inorder(t)) && |RemoveKey(t, key, h).items| < |t.items|
    ensures NonZero(RemoveKey(t, key, h).items)
  {
    if Find(t, key).Present? {
      var p := RemovePresent(t, key, h);
    } else {
      RemoveAbsent(t, key, h);
    }
    NonZeroParts(RemoveKey(t, key, h));
  }

  lemma {:induction false} SameNodes(s: NTree, items: seq<Item>)
    ensures Nodes(s.(items := items)) == Nodes(s) && Apart(s.(items := items)) == Apart(s)
  {
    TreeAsRow(s);
    TreeAsRow(s.(items := items));
  }

  /** The path to the parent of the leftmost leaf below child `k`. */
  lemma {:induction false} SuccessorPath(s: NTree, k: nat, h: nat)
    requires h > 1 && NodeOk(s, h, 1) && k < |s.kids|
    ensures IsPath(s.kids[k], Leftmost(h - 2)) && IsPath(s.kids[k], Leftmost(h - 1)) && IsPath(s, [k] + Leftmost(h - 2))
    ensures var sub := Subtree(s.kids[k], Leftmost(h - 2));
            && Subtree(s, [k] + Leftmost(h - 2)) == sub && NodeOk(sub, 1, MIN)
            && Subtree(s.kids[k], Leftmost(h - 1)) == sub.kids[0]
            && Replace(s, [k] + Leftmost(h - 2), PopKid(sub, 0)) == WithKid(s, k, DropFirst(s.kids[k], h - 1))
  {
    var kid, path := s.kids[k], [k] + Leftmost(h - 2);
    assert path[0] == k && path[1..] == Leftmost(h - 2);
    assert NodeOk(kid, h - 1, MIN);
    LeftmostIsPath(kid, h - 1, h - 2);
    LeftmostIsPath(kid, h - 1, h - 1);
    DropFirstIsReplace(kid, h - 1);
    LeftmostSnoc(kid, h - 1, h - 2);
  }

  lemma {:induction false} LeftmostSnoc<L>(t: Tree<L>, h: nat, n: nat)
    requires KidsOk(t, h) && n < h
    ensures IsPath(t, Leftmost(n)) && IsPath(t, Leftmost(n + 1)) && KidsOk(Subtree(t, Leftmost(n)), h - n)
    ensures Subtree(t, Leftmost(n + 1)) == Subtree(t, Leftmost(n)).kids[0]
    decreases n
  {
    LeftmostIsPath(t, h, n);
    LeftmostIsPath(t, h, n + 1);
    assert Leftmost(n + 1)[1..] == Leftmost(n);
    if n > 0 {
      assert Leftmost(n)[1..] == Leftmost(n - 1);
      LeftmostSnoc(t.kids[0], h - 1, n - 1);
    }
  }

  /** The successor's leaf hangs from the node itself exactly when the node's children are leaves. */
  lemma {:induction false} SuccessorParent(s: NTree, i: nat, h: nat)
    requires Apart(s) && h > 0 && NodeOk(s, h, 1) && i < |s.items|
    ensures h == 1 ==> Leftmost(h - 1) == []
    ensures h > 1 ==> IsPath(s.kids[i + 1], Leftmost(h - 2)) && Subtree(s.kids[i + 1], Leftmost(h - 2)).tag != s.tag
  {
    if h > 1 {
      TreeAsRow(s);
      InRow(s.kids, i + 1);
      LeftmostIsPath(s.kids[i + 1], h - 1, h - 2);
      SubtreeNodes(s.kids[i + 1], Leftmost(h - 2));
    }
  }

  /** The tree with the successor in the place of item `i`, where it is to leave its leaf. */
  lemma {:induction false} ReadyToPop(s: NTree, i: nat, h: nat) returns (s': NTree)
    requires Apart(s) && h > 0 && NodeOk(s, h, 1) && i < |s.items| && NonZero(Inorder(s))
    ensures NodeOk(s.kids[i + 1], h - 1, 1) && s' == s.(items := s.items[i := First(s.kids[i + 1], h - 1)])
    ensures NodeOk(s', h, 1) && NonZero(Inorder(s.kids[i + 1])) && Nodes(s') == Nodes(s)
    ensures RemoveFromNode(s, i, h) == if h == 1 then PopKid(s', i + 1) else WithKid(s', i + 1, DropFirst(s'.kids[i + 1], h - 1))
    ensures h > 1 ==> IsPath(s.kids[i + 1], Leftmost(h - 2)) && Subtree(s.kids[i + 1], Leftmost(h - 2)).tag != s.tag
  {
    WithSuccessor(s, i, h);
    SuccessorParent(s, i, h);
    NonZeroParts(s);
    s' := s.(items := s.items[i := First(s.kids[i + 1], h - 1)]);
    SameNodes(s, s'.items);
  }

  /** Puts the successor in the place of item `i`; it is still in its leaf as well. */
  method TakeSuccessor(node: Node, i: nat, ghost s: NTree, ghost h: nat) returns (lm: Node, lp: Node)
    requires Rep(s) && h > 0 && NodeOk(s, h, 1) && i < |s.items| && s.tag == node
    modifies node
    ensures NodeOk(s.kids[i + 1], h - 1, 1) && Rep(s.(items := s.items[i := First(s.kids[i + 1], h - 1)]))
    ensures IsPath(s.kids[i + 1], Leftmost(h - 1)) && lm == Subtree(s.kids[i + 1], Leftmost(h - 1)).tag
    ensures if h == 1 then lp == node else IsPath(s.kids[i + 1], Leftmost(h - 2)) && lp == Subtree(s.kids[i + 1], Leftmost(h - 2)).tag
  {
    ghost var ns := Existing(Nodes(s));
    lm, lp := FindSuccessor(node, i, s, h);
    SetNodeItem(node, i, lm.items[0], s);
  }

  /** The leaf with the successor of item `i`, and its parent. */
  method FindSuccessor(node: Node, i: nat, ghost s: NTree, ghost h: nat) returns (lm: Node, lp: Node)
    requires Rep(s) && h > 0 && NodeOk(s, h, 1) && i < |s.items| && s.tag == node
    ensures NodeOk(s.kids[i + 1], h - 1, 1) && lm.Sized() && lm.items[0] == First(s.kids[i + 1], h - 1)
    ensures IsPath(s.kids[i + 1], Leftmost(h - 1)) && lm == Subtree(s.kids[i + 1], Leftmost(h - 1)).tag
    ensures if h == 1 then lp == node else IsPath(s.kids[i + 1], Leftmost(h - 2)) && lp == Subtree(s.kids[i + 1], Leftmost(h - 2)).tag
  {
    ghost var kid := s.kids[i + 1];
    SuccessorLeaf(i, s, h);
    ghost var ls := Existing({Subtree(kid, Leftmost(h - 1)).tag});
    var rchild := node.children[i + 1];
    lm, lp := GetLeftmostLeaf(rchild, node, kid, h - 1);
  }

  /** Where the successor of item `i` is. */
  lemma {:induction false} SuccessorLeaf(i: nat, s: NTree, h: nat)
    requires Rep(s) && h > 0 && NodeOk(s, h, 1) && i < |s.items|
    ensures s.tag.children[i + 1] == s.kids[i + 1].tag
    ensures Rep(s.kids[i + 1]) && NodeOk(s.kids[i + 1], h - 1, 1) && IsPath(s.kids[i + 1], Leftmost(h - 1))
    ensures var leaf := Subtree(s.kids[i + 1], Leftmost(h - 1)).tag;
            leaf.Sized() && leaf.items[0] == First(s.kids[i + 1], h - 1)
  {
    var kid := s.kids[i + 1];
    KidRep(s, i + 1);
    ChildPointer(s, i + 1, h);
    KidOk(s, i + 1, h);
    LeftmostHolds(kid, h - 1);
  }

  /** Overwrites item `i` of a node. */
  method SetNodeItem(node: Node, i: nat, x: Item, ghost s: NTree)
    requires Rep(s) && i < |s.items| && s.tag == node
    modifies node
    ensures Rep(s.(items := s.items[i := x]))
  {
    RepAsRow(s);
    ghost var rs := Existing(RowNodes(s.kids));
    node.items := node.items[i := x];
    assert node.items[..node.count] == s.items[i := x];
    RepAsRow(s.(items := s.items[i := x]));
  }

  /** rebalance, when a sibling can spare an item: the right one is asked first. */
  method Borrow(rsb: Node?, lsb: Node?, node: Node, parent: Node, pos: nat, ghost t: NTree, ghost h: nat)
    requires Rep(t) && OneShort(t, pos, h) && NonZero(t.kids[pos].items) && t.tag == parent && t.kids[pos].tag == node
    requires if pos < |t.items| then rsb == t.kids[pos + 1].tag && rsb.count == |t.kids[pos + 1].items| else rsb == null
    requires if pos > 0 then lsb == t.kids[pos - 1].tag && lsb.count == |t.kids[pos - 1].items| else lsb == null
    requires (rsb != null && rsb.count > MIN) || (lsb != null && lsb.count > MIN)
    modifies Nodes(t)
    ensures forall k :: 0 <= k < |t.kids| ==> (t.kids[k].IsLeaf() <==> t.kids[0].IsLeaf())
    ensures Rep(Rebalance(t, pos)) && Nodes(Rebalance(t, pos)) == Nodes(t)
  {
    OneShortAlike(t, pos, h);
    TagsInNodes(t);
    if rsb != null && rsb.count > MIN {
      assert Rebalance(t, pos) == RotateRight(t, pos);
      RotateRightTree(rsb, node, parent, pos, t);
    } else {
      assert Rebalance(t, pos) == RotateLeft(t, pos);
      RotateLeftTree(lsb, node, parent, pos, t);
    }
  }

  /** Always merge with the right neighbour, except at the right end. */
  function Merged<L>(t: Tree<L>, pos: nat): Tree<L>
    requires |t.kids| == |t.items| + 1 && pos < |t.kids| && |t.items| > 0
  {
    if pos >= |t.items| then Merge(t, pos - 1) else Merge(t, pos)
  }

  lemma {:induction false} TagsInNodes(t: NTree)
    ensures forall k :: 0 <= k < |t.kids| ==> t.kids[k].tag in Nodes(t)
  {
    TreeAsRow(t);
    forall k | 0 <= k < |t.kids|
      ensures t.kids[k].tag in Nodes(t)
    {
      InRow(t.kids, k);
    }
  }

  /** The neighbours of child `pos`, and how many items they have. */
  method Siblings(parent: Node, pos: nat, ghost t: NTree) returns (rsb: Node?, lsb: Node?)
    requires Rep(t) && t.tag == parent && pos < |t.kids| == |t.items| + 1
    ensures Rep(t)
    ensures if pos < |t.items| then rsb == t.kids[pos + 1].tag && rsb.count == |t.kids[pos + 1].items| else rsb == null
    ensures if pos > 0 then lsb == t.kids[pos - 1].tag && lsb.count == |t.kids[pos - 1].items| else lsb == null
  {
    RepAsRow(t);
    ghost var tags := Tags(t.kids);
    rsb := if pos >= parent.count then null else parent.children[pos + 1];
    lsb := if pos == 0 then null else parent.children[pos - 1];
    if pos < |t.items| { assert rsb == tags[pos + 1] && InMemory(t.kids[pos + 1]); }
    if pos > 0 { assert lsb == tags[pos - 1] && InMemory(t.kids[pos - 1]); }
  }

  /** The first item of the leftmost leaf is the first item of the tree. */
  lemma {:induction false} LeftmostHolds(t: NTree, h: nat)
    requires Rep(t) && NodeOk(t, h, 1)
    ensures IsPath(t, Leftmost(h)) && Rep(Subtree(t, Leftmost(h)))
    ensures var leaf := Subtree(t, Leftmost(h)).tag;
            leaf.Sized() && leaf.count > 0 && leaf.items[0] == First(t, h)
    decreases h
  {
    LeftmostIsPath(t, h, h);
    RepAsRow(t);
    if h > 0 {
      assert Leftmost(h)[1..] == Leftmost(h - 1);
      RowAround(t.kids, 0);
      assert NodeOk(t.kids[0], h - 1, 1);
      LeftmostHolds(t.kids[0], h - 1);
    }
  }

  /** get_leftmost_leaf: the leftmost leaf and its parent, which is `parent` if `node` is the leaf. */
  method GetLeftmostLeaf(node: Node, parent: Node, ghost t: NTree, ghost h: nat) returns (leaf: Node, lp: Node)
    requires Rep(t) && t.tag == node && KidsOk(t, h)
    ensures IsPath(t, Leftmost(h)) && leaf == Subtree(t, Leftmost(h)).tag
    ensures if h == 0 then lp == parent else IsPath(t, Leftmost(h - 1)) && lp == Subtree(t, Leftmost(h - 1)).tag
    decreases h
  {
    RepAsRow(t);
    ChildPointer(t, 0, h);
    LeftmostIsPath(t, h, h);
    if node.children[0] == null {
      leaf, lp := node, parent;
    } else {
      LeftmostIsPath(t, h, h - 1);
      RowAround(t.kids, 0);
      assert Leftmost(h)[1..] == Leftmost(h - 1);
      if h > 1 { assert Leftmost(h - 1)[1..] == Leftmost(h - 2); }
      leaf, lp := GetLeftmostLeaf(node.children[0], node, t.kids[0], h - 1);
    }
  }

  /** A leaf below `t` loses its first item. */
  method PopLeaf(lm: Node, k: nat, ghost t: NTree)
    requires Rep(t) && NodeOk(t, 1, 1) && k < |t.kids| && t.kids[k].tag == lm && NonZero(t.kids[k].items)
    modifies lm
    ensures Rep(WithKid(t, k, Pop(t.kids[k]))) && Nodes(WithKid(t, k, Pop(t.kids[k]))) == Nodes(t)
  {
    ghost var leaf := t.kids[k];
    ghost var ns := Existing(Nodes(t));
    RepAsRow(t);
    RowAround(t.kids, k);
    LeafRep(leaf);
    LeafRep(Pop(leaf));
    lm.RemoveFromLeaf(0);
    RepAroundKid(t, k, Pop(leaf));
  }
}

/**
 The search loop that get, lookup and remove share, and the read-only queries.
 */
module BTreeQuery {
  import opened BTreeShape
  import opened BTreePaths
  import opened BTreeNode
  import opened BTreeRows
  import opened BTreeRemoval

  /**
   Runs through the slots up to and including the count: stops at an item with the key, or at the
   child that can have it; in a leaf it runs to the end.
   */
  method Locate(node: Node, key: nat, ghost its: seq<Item>, ghost kids: seq<Node>) returns (i: nat, hit: bool)
    requires node.Holds(its, kids) && Sorted(its)
    ensures hit <==> LowerIdx(its, key) < |its| && its[LowerIdx(its, key)].key == key
    ensures i == if hit || kids != [] then LowerIdx(its, key) else |its| + 1
  {
    hit := false;
    i := 0;
    while i <= node.count
      invariant i <= |its| + 1
      invariant forall j :: 0 <= j < i && j < |its| ==> its[j].key != key && (kids != [] ==> its[j].key < key)
      invariant i == |its| + 1 ==> kids == []
    {
      assert i < |its| ==> node.items[i] == its[i];
      if i != node.count && node.items[i].key == key {
        hit := true;
        assert i == LowerIdx(its, key) by { assert !(LowerIdx(its, key) < i); }
        return;
      } else if (i == node.count || node.items[i].key > key) && node.children[i] != null {
        return;
      }
      i := i + 1;
    }
  }

  /** A formed, sorted tree in memory; nodes may be short of items. */
  ghost predicate Searchable(t: NTree, h: nat)
    reads Nodes(t)
  {
    Rep(t) && Formed(t, h) && Sorted(Inorder(t))
  }

  /** A child of a searchable tree. */
  lemma {:induction false} SearchableKid(t: NTree, q: nat, h: nat)
    requires Searchable(t, h) && h > 0 && q < |t.kids|
    ensures Searchable(t.kids[q], h - 1) && t.tag.Holds(t.items, Tags(t.kids)) && t.tag.children[q] == t.kids[q].tag
  {
    RepAsRow(t);
    RowAround(t.kids, q);
    SortedKid(t, q);
    assert Tags(t.kids)[q] == t.kids[q].tag;
  }

  lemma {:induction false} FormedPointer(t: NTree, i: nat, h: nat)
    requires t.tag.Holds(t.items, Tags(t.kids)) && Formed(t, h) && i <= |t.items|
    ensures t.tag.children[i] == null <==> h == 0
  {
    assert h == 0 ==> Tags(t.kids) == [];
  }

  /** get_in_node: 0 stands for not found. */
  method GetInNode(node: Node, key: nat, ghost t: NTree, ghost h: nat) returns (v: nat)
    requires Searchable(t, h) && t.tag == node
    ensures v == match Find(t, key) { case Present(x) => x case Absent => 0 }
    decreases h
  {
    ghost var s;
    var hit, val, kid;
    hit, val, kid, s := LocateIn(node, key, t, h);
    if hit {
      v := val;
    } else if kid != null {
      v := GetInNode(kid, key, s, h - 1);
    } else {
      v := 0;
    }
  }

  /** lookup_in_node. */
  method LookupInNode(node: Node, key: nat, ghost t: NTree, ghost h: nat) returns (found: nat)
    requires Searchable(t, h) && t.tag == node
    ensures found == if Find(t, key).Present? then 1 else 0
    decreases h
  {
    ghost var s;
    var hit, val, kid;
    hit, val, kid, s := LocateIn(node, key, t, h);
    if hit {
      found := 1;
    } else if kid != null {
      found := LookupInNode(kid, key, s, h - 1);
    } else {
      found := 0;
    }
  }

  /** Locate in terms of the tree: the value found, or the child to go on in, or neither. */
  method LocateIn(node: Node, key: nat, ghost t: NTree, ghost h: nat) returns (hit: bool, val: nat, kid: Node?, ghost s: NTree)
    requires Searchable(t, h) && t.tag == node
    ensures hit ==> Find(t, key) == Present(val)
    ensures !hit && kid == null ==> Find(t, key) == Absent
    ensures !hit && kid != null ==> h > 0 && s.tag == kid && Searchable(s, h - 1) && Find(t, key) == Find(s, key)
  {
    ghost var ns := Existing(Nodes(t));
    RepAsRow(t);
    SortedItems(t);
    FormedPointer(t, 0, h);
    var i;
    i, hit := Locate(node, key, t.items, Tags(t.kids));
    val, kid, s := 0, null, t;
    if hit {
      val := node.items[i].val;
      assert node.items[i] == node.items[..node.count][i];
    } else if node.children[0] != null {
      SearchableKid(t, i, h);
      kid, s := node.children[i], t.kids[i];
    }
  }

  // ----- Visiting -----

  /**
   What a callback sees that is handed the items in turn and may stop the visit, deciding from
   everything it has been handed so far.
   */
  function Visit(s: seq<Item>, stop: seq<Item> -> bool, seen: seq<Item>): (seq<Item>, bool)
    decreases |s|
  {
    if s == [] then (seen, false)
    else if stop(seen + [s[0]]) then (seen + [s[0]], true)
    else Visit(s[1..], stop, seen + [s[0]])
  }

  lemma {:induction false} VisitConcat(a: seq<Item>, b: seq<Item>, stop: seq<Item> -> bool, seen: seq<Item>)
    ensures Visit(a + b, stop, seen) == (var (v, st) := Visit(a, stop, seen); if st then (v, st) else Visit(b, stop, v))
    decreases |a|
  {
    if a == [] {
      assert a + b == b;
    } else {
      assert (a + b)[0] == a[0] && (a + b)[1..] == a[1..] + b;
      VisitConcat(a[1..], b, stop, seen + [a[0]]);
    }
  }

  /** A callback that never stops is handed every item, in order, once; any callback gets a prefix. */
  lemma {:induction false} VisitAll(s: seq<Item>, stop: seq<Item> -> bool, seen: seq<Item>)
    ensures var (v, st) := Visit(s, stop, seen);
            && seen <= v <= seen + s
            && (!st ==> v == seen + s)
            && (st <==> exists k :: 0 < k <= |s| && stop(seen + s[..k]))
    decreases |s|
  {
    if s != [] {
      var seen' := seen + [s[0]];
      assert seen + s == seen' + s[1..];
      assert seen + s[..1] == seen';
      if !stop(seen') {
        VisitAll(s[1..], stop, seen');
        forall k | 0 < k <= |s[1..]|
          ensures seen' + s[1..][..k] == seen + s[..k + 1]
        {
        }
        if exists k :: 0 < k <= |s| && stop(seen + s[..k]) {
          var k :| 0 < k <= |s| && stop(seen + s[..k]);
          assert k > 1 && seen' + s[1..][..k - 1] == seen + s[..k];
        }
      }
    }
  }

  /** The visit of a whole sequence from its start. */
  lemma {:induction false} VisitFromStart(s: seq<Item>, stop: seq<Item> -> bool)
    ensures var (v, st) := Visit(s, stop, []);
            && v <= s && (!st ==> v == s)
            && (st <==> exists k :: 0 < k <= |s| && stop(s[..k]))
            && (st ==> stop(v) && forall k :: 0 < k < |v| ==> !stop(v[..k]))
  {
    VisitAll(s, stop, []);
    VisitStopsFirst(s, stop, []);
    assert [] + s == s;
    assert forall k :: 0 < k <= |s| ==> [] + s[..k] == s[..k];
  }

  lemma {:induction false} VisitStopsFirst(s: seq<Item>, stop: seq<Item> -> bool, seen: seq<Item>)
    ensures var (v, st) := Visit(s, stop, seen);
            |seen| <= |v| && (st ==> stop(v) && |seen| < |v| && forall k :: |seen| < k < |v| ==> !stop(v[..k]))
    decreases |s|
  {
    if s != [] {
      var seen' := seen + [s[0]];
      if !stop(seen') {
        VisitStopsFirst(s[1..], stop, seen');
        VisitAll(s[1..], stop, seen');
        var (v, st) := Visit(s[1..], stop, seen');
        assert v[..|seen'|] == seen';
      }
    }
  }

  /** What is left to visit in a node from slot `i` on. */
  ghost function Rest(t: NTree, i: nat): seq<Item>
    requires t.IsLeaf() || |t.kids| == |t.items| + 1
    requires i <= |t.items| + 1
  {
    if i == |t.items| + 1 then []
    else if t.IsLeaf() then t.items[i..]
    else Inorder(t.kids[i]) + After(t.items, t.kids, i)
  }

  lemma {:induction false} RestStep(t: NTree, i: nat)
    requires (t.IsLeaf() || |t.kids| == |t.items| + 1) && i <= |t.items|
    ensures Rest(t, i) == (if t.IsLeaf() then [] else Inorder(t.kids[i])) + (if i < |t.items| then [t.items[i]] else []) + Rest(t, i + 1)
  {
    if !t.IsLeaf() && i < |t.items| { AfterPeel(t.items, t.kids, i); }
  }

  /** foreach_node: in order, skipping slots with a zero key, of which a valid node has none. */
  method ForeachNode(node: Node?, stop: seq<Item> -> bool, seen: seq<Item>, ghost tt: seq<NTree>, ghost h: nat)
    returns (visited: seq<Item>, rc: bool)
    requires |tt| <= 1 && (node == null <==> tt == [])
    requires tt != [] ==> Searchable(tt[0], h) && tt[0].tag == node && NonZero(Inorder(tt[0]))
    ensures (visited, rc) == Visit(if tt == [] then [] else Inorder(tt[0]), stop, seen)
    decreases |tt|, h
  {
    visited, rc := seen, false;
    if node == null { return; }
    ghost var t := tt[0];
    ghost var ns := Existing(Nodes(t));
    RepAsRow(t);
    NonZeroParts(t);
    RestStart(t);
    var i := 0;
    while i <= node.count
      invariant 0 <= i <= |t.items| + 1 && !rc
      invariant Visit(Inorder(t), stop, seen) == Visit(Rest(t, i), stop, visited)
    {
      ghost var kid := KidAt(t, i, h);
      SplitVisit(t, i, stop, visited);
      visited, rc := ForeachNode(node.children[i], stop, visited, kid, if h == 0 then 0 else h - 1);
      if rc { return; }
      if i != node.count && node.items[i].key != 0 {
        assert node.items[i] == node.items[..node.count][i];
        visited := visited + [node.items[i]];
        if stop(visited) {
          rc := true;
          return;
        }
      }
      i := i + 1;
    }
  }

  lemma {:induction false} RestStart(t: NTree)
    requires t.IsLeaf() || |t.kids| == |t.items| + 1
    ensures Rest(t, 0) == Inorder(t)
  {
    if t.IsLeaf() { assert t.items[0..] == t.items; } else { FlatAtKid(t.items, t.kids, 0); }
  }

  /** The subtree the pointer in slot `i` leads to, if any. */
  lemma {:induction false} KidAt(t: NTree, i: nat, h: nat) returns (kid: seq<NTree>)
    requires Searchable(t, h) && NonZero(Inorder(t)) && i <= |t.items|
    ensures kid == if t.IsLeaf() then [] else [t.kids[i]]
    ensures |t.tag.children| == ORDER && (t.tag.children[i] == null <==> kid == []) && (h == 0 <==> kid == [])
    ensures kid != [] ==> Searchable(kid[0], h - 1) && kid[0].tag == t.tag.children[i] && NonZero(Inorder(kid[0]))
  {
    RepAsRow(t);
    FormedPointer(t, i, h);
    if h == 0 {
      kid := [];
    } else {
      kid := [t.kids[i]];
      SearchableKid(t, i, h);
      NonZeroParts(t);
    }
  }

  /** Visiting from slot `i` on: the child, then the item, then the rest. */
  lemma {:induction false} SplitVisit(t: NTree, i: nat, stop: seq<Item> -> bool, seen: seq<Item>)
    requires (t.IsLeaf() || |t.kids| == |t.items| + 1) && i <= |t.items|
    ensures var (v, st) := Visit(if t.IsLeaf() then [] else Inorder(t.kids[i]), stop, seen);
            Visit(Rest(t, i), stop, seen) ==
            if st then (v, true)
            else if i == |t.items| then Visit(Rest(t, i + 1), stop, v)
            else if stop(v + [t.items[i]]) then (v + [t.items[i]], true)
            else Visit(Rest(t, i + 1), stop, v + [t.items[i]])
  {
    var a := if t.IsLeaf() then [] else Inorder(t.kids[i]);
    var x := if i < |t.items| then [t.items[i]] else [];
    RestStep(t, i);
    assert a + x + Rest(t, i + 1) == a + (x + Rest(t, i + 1));
    VisitConcat(a, x + Rest(t, i + 1), stop, seen);
    if i < |t.items| {
      assert (x + Rest(t, i + 1))[1..] == Rest(t, i + 1);
    } else {
      assert x + Rest(t, i + 1) == Rest(t, i + 1);
    }
  }
}

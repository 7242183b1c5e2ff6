/**
 Looking a key up and removing it, as functions on trees, and what they do to the contents and the shape.
 */
module BTreeRemoval {
  import opened BTreeShape
  import opened BTreePaths

  // ----- Looking up -----

  /** The first place that is not below the key. */
  function LowerIdx(items: seq<Item>, key: nat): (i: nat)
    ensures i <= |items| && (forall j :: 0 <= j < i ==> items[j].key < key) && (i < |items| ==> items[i].key >= key)
  {
    if items == [] || items[0].key >= key then 0 else 1 + LowerIdx(items[1..], key)
  }

  datatype Found = Absent | Present(val: nat)

  /** Search from the top: the node's items, else the one child that can have the key. */
  function Find<L>(t: Tree<L>, key: nat): Found
    decreases t
  {
    var i := LowerIdx(t.items, key);
    if i < |t.items| && t.items[i].key == key then Present(t.items[i].val)
    else if i < |t.kids| then Find(t.kids[i], key)
    else Absent
  }

  predicate HasKey(s: seq<Item>, key: nat) {
    exists p :: 0 <= p < |s| && s[p].key == key
  }

  /** A key that is not in the node is in child LowerIdx or nowhere. */
  lemma {:induction false} OnlyInKid<L>(t: Tree<L>, key: nat)
    requires |t.kids| == |t.items| + 1 && Sorted(Inorder(t))
    requires var i := LowerIdx(t.items, key); i == |t.items| || t.items[i].key != key
    ensures HasKey(Inorder(t), key) <==> HasKey(Inorder(t.kids[LowerIdx(t.items, key)]), key)
  {
    var i := LowerIdx(t.items, key);
    FlatAtKid(t.items, t.kids, i);
    SortedKid(t, i);
    var b, m, a := Before(t.items, t.kids, i), Inorder(t.kids[i]), After(t.items, t.kids, i);
    HasKeyMiddle(b, m, a, key);
  }

  lemma HasKeyMiddle(b: seq<Item>, m: seq<Item>, a: seq<Item>, key: nat)
    requires forall j :: 0 <= j < |b| ==> b[j].key < key
    requires forall j :: 0 <= j < |a| ==> a[j].key > key
    ensures HasKey(b + m + a, key) <==> HasKey(m, key)
  {
    var s := b + m + a;
    if HasKey(s, key) {
      var p :| 0 <= p < |s| && s[p].key == key;
      assert m[p - |b|].key == key;
    }
    if HasKey(m, key) {
      var p :| 0 <= p < |m| && m[p].key == key;
      assert s[|b| + p].key == key;
    }
  }

  /** The search finds a key exactly when it is stored, and then a value stored under it. */
  lemma {:induction false} FoundHere<L>(t: Tree<L>, i: nat)
    requires (t.IsLeaf() || |t.kids| == |t.items| + 1) && i < |t.items|
    ensures t.items[i] in Inorder(t) && HasKey(Inorder(t), t.items[i].key)
  {
    ItemsInInorder(t);
    var s := Inorder(t);
    assert t.items[i] in s;
    var p :| 0 <= p < |s| && s[p] == t.items[i];
  }

  lemma {:induction false} FindAgrees<L>(t: Tree<L>, key: nat, h: nat)
    requires Formed(t, h) && Sorted(Inorder(t))
    ensures Find(t, key).Present? <==> HasKey(Inorder(t), key)
    ensures Find(t, key).Present? ==> Item(key, Find(t, key).val) in Inorder(t)
    decreases h
  {
    var i := LowerIdx(t.items, key);
    if i < |t.items| && t.items[i].key == key {
      FoundHere(t, i);
      assert t.items[i] == Item(key, t.items[i].val);
    } else if h == 0 {
      SortedItems(t);
    } else {
      ItemsInInorder(t);
      OnlyInKid(t, key);
      SortedKid(t, i);
      FindAgrees(t.kids[i], key, h - 1);
    }
  }

  // ----- Removing -----

  /** The leftmost item. */
  function First<L>(t: Tree<L>, h: nat): Item
    requires NodeOk(t, h, 1)
    decreases h
  {
    if h == 0 then t.items[0] else First(t.kids[0], h - 1)
  }

  /** A leaf without its first item. */
  function Pop<L>(t: Tree<L>): Tree<L>
    requires t.items != []
  {
    t.(items := t.items[1..])
  }

  function Rebalanced<L>(t: Tree<L>, k: nat, h: nat): (r: Tree<L>)
    requires OneShort(t, k, h)
    ensures r.tag == t.tag && KidsOk(r, h) && |t.items| - 1 <= |r.items| <= |t.items|
  {
    RebalanceOk(t, k, h);
    Rebalance(t, k)
  }

  /** Leaf child `k` of a parent of leaves loses its first item; the parent makes up for it. */
  function PopKid<L>(t: Tree<L>, k: nat): (r: Tree<L>)
    requires NodeOk(t, 1, 1) && k < |t.kids|
    ensures r.tag == t.tag && |t.items| - 1 <= |r.items| <= |t.items| && KidsOk(r, 1)
  {
    var t' := WithKid(t, k, Pop(t.kids[k]));
    if |t'.kids[k].items| < MIN then
      assert OneShort(t', k, 1);
      RebalanceOk(t', k, 1);
      Rebalance(t', k)
    else t'
  }

  /** The leftmost leaf loses its first item; only its parent makes up for it. */
  function DropFirst<L>(t: Tree<L>, h: nat): (r: Tree<L>)
    requires h > 0 && NodeOk(t, h, 1)
    ensures r.tag == t.tag && |t.items| - 1 <= |r.items| <= |t.items|
    ensures h > 1 ==> |r.items| == |t.items|
    decreases h
  {
    if h == 1 then PopKid(t, 0) else WithKid(t, 0, DropFirst(t.kids[0], h - 1))
  }

  /** Removes item `i` of the node: from a leaf directly, else by putting its successor in its place. */
  function RemoveFromNode<L>(t: Tree<L>, i: nat, h: nat): (r: Tree<L>)
    requires NodeOk(t, h, 0) && i < |t.items|
    ensures r.tag == t.tag && |t.items| - 1 <= |r.items| <= |t.items|
    ensures |r.items| < |t.items| ==> KidsOk(r, h)
  {
    if h == 0 then t.(items := RemoveAt(t.items, i))
    else
      var t' := t.(items := t.items[i := First(t.kids[i + 1], h - 1)]);
      if h == 1 then PopKid(t', i + 1)
      else WithKid(t', i + 1, DropFirst(t.kids[i + 1], h - 1))
  }

  function RemoveKey<L>(t: Tree<L>, key: nat, h: nat): (r: Tree<L>)
    requires NodeOk(t, h, 0) && (h > 0 ==> t.items != [])
    ensures r.tag == t.tag && |t.items| - 1 <= |r.items| <= |t.items|
    ensures |r.items| < |t.items| ==> KidsOk(r, h)
    decreases h, 1
  {
    var i := LowerIdx(t.items, key);
    if i < |t.items| && t.items[i].key == key then RemoveFromNode(t, i, h)
    else if h == 0 then t
    else RemoveInKid(t, i, key, h)
  }

  /** Removes the key from child `i`; a child left with too few items is rebalanced. */
  function RemoveInKid<L>(t: Tree<L>, i: nat, key: nat, h: nat): (r: Tree<L>)
    requires h > 0 && NodeOk(t, h, 1) && i < |t.kids|
    ensures r.tag == t.tag && |t.items| - 1 <= |r.items| <= |t.items|
    ensures |r.items| < |t.items| ==> KidsOk(r, h)
    decreases h, 0
  {
    var s := RemoveKey(t.kids[i], key, h - 1);
    var t' := WithKid(t, i, s);
    if |s.items| < MIN then
      assert OneShort(t', i, h);
      Rebalanced(t', i, h)
    else t'
  }

  lemma {:induction false} RemoveInKidCases<L>(t: Tree<L>, i: nat, key: nat, h: nat)
    requires h > 0 && NodeOk(t, h, 1) && i < |t.kids|
    ensures NodeOk(t.kids[i], h - 1, MIN)
    ensures var s := RemoveKey(t.kids[i], key, h - 1);
            var t' := WithKid(t, i, s);
            if |s.items| < MIN then OneShort(t', i, h) && RemoveInKid(t, i, key, h) == Rebalanced(t', i, h)
            else RemoveInKid(t, i, key, h) == t'
  {
    assert NodeOk(t.kids[i], h - 1, MIN);
  }

  // ----- What removal does to the contents -----

  lemma {:induction false} FirstIsFirst<L>(t: Tree<L>, h: nat)
    requires NodeOk(t, h, 1)
    ensures Inorder(t) != [] && Inorder(t)[0] == First(t, h)
    decreases h
  {
    if h > 0 {
      assert NodeOk(t.kids[0], h - 1, 1);
      FirstIsFirst(t.kids[0], h - 1);
      FlatAtKid(t.items, t.kids, 0);
    }
  }

  lemma {:induction false} PopKidInorder<L>(t: Tree<L>, k: nat)
    requires NodeOk(t, 1, 1) && k < |t.kids|
    ensures Inorder(PopKid(t, k)) == Before(t.items, t.kids, k) + Inorder(t.kids[k])[1..] + After(t.items, t.kids, k)
  {
    var t' := WithKid(t, k, Pop(t.kids[k]));
    InorderWithKid(t, k, Pop(t.kids[k]));
    if |t'.kids[k].items| < MIN {
      assert OneShort(t', k, 1);
      RebalanceOk(t', k, 1);
    }
  }

  lemma {:induction false} DropFirstInorder<L>(t: Tree<L>, h: nat)
    requires h > 0 && NodeOk(t, h, 1)
    ensures Inorder(t) != [] && Inorder(DropFirst(t, h)) == Inorder(t)[1..]
    decreases h
  {
    FirstIsFirst(t, h);
    var kid := t.kids[0];
    assert NodeOk(kid, h - 1, 1);
    FirstIsFirst(kid, h - 1);
    var a := After(t.items, t.kids, 0);
    FlatAtKid(t.items, t.kids, 0);
    assert Inorder(t) == Inorder(kid) + a;
    if h == 1 {
      PopKidInorder(t, 0);
    } else {
      DropFirstInorder(kid, h - 1);
      InorderWithKid(t, 0, DropFirst(kid, h - 1));
    }
    TailOfJoin(Inorder(kid), a);
  }

  lemma {:induction false} TailOfJoin(k: seq<Item>, a: seq<Item>)
    requires k != []
    ensures (k + a)[1..] == k[1..] + a
  {
  }

  /** Where item `i` of a node is in the contents. */
  function ItemOffset<L>(t: Tree<L>, i: nat): nat
    requires (t.IsLeaf() || |t.kids| == |t.items| + 1) && i < |t.items|
  {
    if t.IsLeaf() then i else |Before(t.items, t.kids, i)| + |Inorder(t.kids[i])|
  }

  lemma {:induction false} ItemAtOffset<L>(t: Tree<L>, i: nat)
    requires (t.IsLeaf() || |t.kids| == |t.items| + 1) && i < |t.items|
    ensures ItemOffset(t, i) < |Inorder(t)| && Inorder(t)[ItemOffset(t, i)] == t.items[i]
  {
    if !t.IsLeaf() { FlatAtPair(t.items, t.kids, i); }
  }

  /** With the successor in item `i`'s place and out of child `i + 1`, item `i` is gone from the contents. */
  lemma {:induction false} SuccessorReplaces<L>(t: Tree<L>, i: nat, h: nat)
    requires h > 0 && NodeOk(t, h, 1) && i < |t.items|
    ensures ItemOffset(t, i) < |Inorder(t)| && Inorder(t.kids[i + 1]) != []
    ensures var t' := t.(items := t.items[i := First(t.kids[i + 1], h - 1)]);
            Before(t'.items, t'.kids, i + 1) + Inorder(t.kids[i + 1])[1..] + After(t'.items, t'.kids, i + 1)
            == RemoveAt(Inorder(t), ItemOffset(t, i))
  {
    var x := First(t.kids[i + 1], h - 1);
    var t' := t.(items := t.items[i := x]);
    assert NodeOk(t.kids[i + 1], h - 1, 1);
    FirstIsFirst(t.kids[i + 1], h - 1);
    BeforeNext(t'.items, t.kids, i);
    OtherItemsStay(t, i, x);
    FlatAtPair(t.items, t.kids, i);
    CutOut(Before(t.items, t.kids, i), Inorder(t.kids[i]), t.items[i], Inorder(t.kids[i + 1]), After(t.items, t.kids, i + 1));
  }

  lemma {:induction false} BeforeNext<L>(items: seq<Item>, kids: seq<Tree<L>>, i: nat)
    requires |kids| == |items| + 1 && i < |items|
    ensures Before(items, kids, i + 1) == Before(items, kids, i) + Inorder(kids[i]) + [items[i]]
  {
    var a, c := items[..i], kids[..i + 1];
    FlatAtKid(a, c, i);
    if i > 0 { assert a[..i - 1] == items[..i - 1] && c[..i] == kids[..i]; }
  }

  lemma {:induction false} OtherItemsStay<L>(t: Tree<L>, i: nat, x: Item)
    requires |t.kids| == |t.items| + 1 && i < |t.items|
    ensures var items := t.items[i := x];
            && Before(items, t.kids, i) == Before(t.items, t.kids, i)
            && After(items, t.kids, i + 1) == After(t.items, t.kids, i + 1)
  {
    var items := t.items[i := x];
    assert items[..i] == t.items[..i];
    if i > 0 { assert items[..i - 1] == t.items[..i - 1]; }
    if i + 1 < |t.items| { assert items[i + 2..] == t.items[i + 2..]; }
  }

  lemma CutOut(b: seq<Item>, l: seq<Item>, x: Item, r: seq<Item>, a: seq<Item>)
    requires r != []
    ensures RemoveAt(b + (l + [x] + r) + a, |b| + |l|) == b + l + [r[0]] + r[1..] + a
  {
    var s, p := b + (l + [x] + r) + a, |b| + |l|;
    assert s[..p] == b + l && s[p + 1..] == r + a && r == [r[0]] + r[1..];
  }

  /** Child `k` loses its first item, which may cost a parent of leaves an item. */
  lemma {:induction false} LoseFirstInorder<L>(t: Tree<L>, k: nat, h: nat)
    requires h > 0 && NodeOk(t, h, 1) && k < |t.kids|
    ensures NodeOk(t.kids[k], h - 1, 1) && Inorder(t.kids[k]) != []
    ensures Inorder(if h == 1 then PopKid(t, k) else WithKid(t, k, DropFirst(t.kids[k], h - 1)))
            == Before(t.items, t.kids, k) + Inorder(t.kids[k])[1..] + After(t.items, t.kids, k)
  {
    KidOk(t, k, h);
    FirstIsFirst(t.kids[k], h - 1);
    if h == 1 {
      PopKidInorder(t, k);
    } else {
      DropFirstInorder(t.kids[k], h - 1);
      InorderWithKid(t, k, DropFirst(t.kids[k], h - 1));
    }
  }

  lemma {:induction false} RemoveFromNodeInorder<L>(t: Tree<L>, i: nat, h: nat)
    requires NodeOk(t, h, 0) && i < |t.items|
    ensures ItemOffset(t, i) < |Inorder(t)|
    ensures Inorder(RemoveFromNode(t, i, h)) == RemoveAt(Inorder(t), ItemOffset(t, i))
  {
    if h > 0 { RemoveFromInnerInorder(t, i, h); }
  }

  lemma {:induction false} RemoveFromInnerInorder<L>(t: Tree<L>, i: nat, h: nat)
    requires h > 0 && NodeOk(t, h, 1) && i < |t.items|
    ensures ItemOffset(t, i) < |Inorder(t)| && Inorder(RemoveFromNode(t, i, h)) == RemoveAt(Inorder(t), ItemOffset(t, i))
  {
    var t' := t.(items := t.items[i := First(t.kids[i + 1], h - 1)]);
    WithSuccessor(t, i, h);
    LoseFirstInorder(t', i + 1, h);
    SuccessorReplaces(t, i, h);
  }

  lemma {:induction false} WithSuccessor<L>(t: Tree<L>, i: nat, h: nat)
    requires h > 0 && NodeOk(t, h, 1) && i < |t.items|
    ensures NodeOk(t.kids[i + 1], h - 1, 1)
    ensures var t' := t.(items := t.items[i := First(t.kids[i + 1], h - 1)]);
            NodeOk(t', h, 1) && RemoveFromNode(t, i, h) == if h == 1 then PopKid(t', i + 1) else WithKid(t', i + 1, DropFirst(t'.kids[i + 1], h - 1))
  {
    KidOk(t, i + 1, h);
  }

  lemma RemoveInMiddle(b: seq<Item>, m: seq<Item>, a: seq<Item>, p: nat)
    requires p < |m|
    ensures b + RemoveAt(m, p) + a == RemoveAt(b + m + a, |b| + p)
    ensures (b + m + a)[|b| + p] == m[p]
  {
  }

  lemma {:induction false} RemoveInKidInorder<L>(t: Tree<L>, i: nat, key: nat, h: nat)
    requires h > 0 && NodeOk(t, h, 1) && i < |t.kids|
    ensures Inorder(RemoveInKid(t, i, key, h)) ==
            Before(t.items, t.kids, i) + Inorder(RemoveKey(t.kids[i], key, h - 1)) + After(t.items, t.kids, i)
    ensures RemoveKey(t.kids[i], key, h - 1) == t.kids[i] ==> RemoveInKid(t, i, key, h) == t
  {
    var s := RemoveKey(t.kids[i], key, h - 1);
    var t' := WithKid(t, i, s);
    InorderWithKid(t, i, s);
    if |s.items| < MIN {
      assert OneShort(t', i, h);
      RebalanceOk(t', i, h);
    }
  }

  /** `now` is `was` without position `p`, which held the key with the value found. */
  predicate Taken(was: seq<Item>, now: seq<Item>, p: nat, key: nat, val: nat) {
    p < |was| && was[p] == Item(key, val) && now == RemoveAt(was, p)
  }

  lemma {:induction false} TakenFromKid<L>(t: Tree<L>, i: nat, key: nat, h: nat, p: nat, val: nat)
    requires h > 0 && NodeOk(t, h, 1) && i < |t.kids|
    requires Taken(Inorder(t.kids[i]), Inorder(RemoveKey(t.kids[i], key, h - 1)), p, key, val)
    ensures Taken(Inorder(t), Inorder(RemoveInKid(t, i, key, h)), |Before(t.items, t.kids, i)| + p, key, val)
  {
    RemoveInKidInorder(t, i, key, h);
    FlatAtKid(t.items, t.kids, i);
    RemoveInMiddle(Before(t.items, t.kids, i), Inorder(t.kids[i]), After(t.items, t.kids, i), p);
  }

  /** If the key is not there nothing changes. */
  lemma {:induction false} RemoveAbsent<L>(t: Tree<L>, key: nat, h: nat)
    requires NodeOk(t, h, 0) && (h > 0 ==> t.items != []) && Find(t, key).Absent?
    ensures RemoveKey(t, key, h) == t
    decreases h
  {
    if h > 0 {
      var i := LowerIdx(t.items, key);
      RemoveAbsent(t.kids[i], key, h - 1);
      RemoveInKidInorder(t, i, key, h);
    }
  }

  /** Removing a key takes out one item with that key, the one whose value the search returns, and nothing else. */
  lemma {:induction false} RemovePresent<L>(t: Tree<L>, key: nat, h: nat) returns (p: nat)
    requires NodeOk(t, h, 0) && (h > 0 ==> t.items != []) && Find(t, key).Present?
    ensures Taken(Inorder(t), Inorder(RemoveKey(t, key, h)), p, key, Find(t, key).val)
    decreases h
  {
    var i := LowerIdx(t.items, key);
    if i < |t.items| && t.items[i].key == key {
      RemoveFromNodeInorder(t, i, h);
      ItemAtOffset(t, i);
      p := ItemOffset(t, i);
    } else {
      assert MIN <= |t.kids[i].items| <= MAX;
      p := RemovePresent(t.kids[i], key, h - 1);
      TakenFromKid(t, i, key, h, p, Find(t, key).val);
      p := |Before(t.items, t.kids, i)| + p;
    }
  }

  // ----- What removal does to the shape -----

  /**
   The parent of the leftmost leaf, both that leaf and its neighbour are at their minimum: taking the
   first item merges the two leaves and leaves the parent one item short.
   */
  predicate RunsShort<L>(t: Tree<L>, h: nat)
    requires h > 0 && NodeOk(t, h, MIN)
    decreases h
  {
    if h == 1 then |t.items| == MIN && |t.kids[0].items| == MIN && |t.kids[1].items| == MIN
    else RunsShort(t.kids[0], h - 1)
  }

  /**
   The key is at least two levels above the leaves and the way to its successor runs short. What a
   caller can read off the tree before the call.
   */
  predicate LeavesShort<L>(t: Tree<L>, key: nat, h: nat)
    requires NodeOk(t, h, 0)
    decreases h
  {
    var i := LowerIdx(t.items, key);
    if i < |t.items| && t.items[i].key == key then h > 1 && RunsShort(t.kids[i + 1], h - 1)
    else h > 0 && LeavesShort(t.kids[i], key, h - 1)
  }

  lemma {:induction false} PopKidShort<L>(t: Tree<L>)
    requires NodeOk(t, 1, MIN)
    ensures |PopKid(t, 0).items| == MIN - 1 <==> RunsShort(t, 1)
  {
    var t' := WithKid(t, 0, Pop(t.kids[0]));
    if |t'.kids[0].items| < MIN {
      assert OneShort(t', 0, 1);
      RebalanceOk(t', 0, 1);
    }
  }

  lemma {:induction false} DropFirstShape<L>(t: Tree<L>, h: nat)
    requires h > 0 && NodeOk(t, h, MIN)
    ensures if RunsShort(t, h) then NodeShort(DropFirst(t, h), h) else NodeOk(DropFirst(t, h), h, MIN)
    decreases h
  {
    if h == 1 {
      PopKidShort(t);
    } else {
      DropFirstShape(t.kids[0], h - 1);
      var r := DropFirst(t, h);
      if RunsShort(t, h) { assert ShortKid(r, h, 0); }
    }
  }

  lemma {:induction false} RemoveFromNodeShape<L>(t: Tree<L>, i: nat, h: nat)
    requires NodeOk(t, h, 0) && i < |t.items|
    ensures var r := RemoveFromNode(t, i, h);
            if h > 1 && RunsShort(t.kids[i + 1], h - 1) then |r.items| == |t.items| && KidsShort(r, h) else KidsOk(r, h)
  {
    if h > 1 {
      DropFirstShape(t.kids[i + 1], h - 1);
      var r := RemoveFromNode(t, i, h);
      if RunsShort(t.kids[i + 1], h - 1) { assert ShortKid(r, h, i + 1); }
    }
  }

  /**
   Removal keeps all leaves at one depth and every node below the top at 3 to 7 items, unless the
   way to the successor runs short; then exactly one parent of leaves ends with one item too few.
   */
  lemma {:induction false} RemoveKeyShape<L>(t: Tree<L>, key: nat, h: nat)
    requires NodeOk(t, h, 0) && (h > 0 ==> t.items != [])
    ensures var r := RemoveKey(t, key, h);
            if LeavesShort(t, key, h) then |r.items| == |t.items| && KidsShort(r, h) else KidsOk(r, h)
    decreases h
  {
    var i := LowerIdx(t.items, key);
    if i < |t.items| && t.items[i].key == key {
      RemoveFromNodeShape(t, i, h);
    } else if h > 0 {
      var kid := t.kids[i];
      RemoveKeyShape(kid, key, h - 1);
      RemoveInKidShape(t, i, key, h);
    }
  }

  lemma {:induction false} RemoveInKidShape<L>(t: Tree<L>, i: nat, key: nat, h: nat)
    requires h > 0 && NodeOk(t, h, 1) && i < |t.kids|
    requires var s := RemoveKey(t.kids[i], key, h - 1);
             if LeavesShort(t.kids[i], key, h - 1) then |s.items| == |t.kids[i].items| && KidsShort(s, h - 1) else KidsOk(s, h - 1)
    ensures var r := RemoveInKid(t, i, key, h);
            if LeavesShort(t.kids[i], key, h - 1) then |r.items| == |t.items| && KidsShort(r, h) else KidsOk(r, h)
  {
    var s := RemoveKey(t.kids[i], key, h - 1);
    KidOk(t, i, h);
    if LeavesShort(t.kids[i], key, h - 1) {
      ShortKidShape(t, i, s, h);
    } else if |s.items| < MIN {
      assert OneShort(WithKid(t, i, s), i, h);
      RebalanceOk(WithKid(t, i, s), i, h);
    }
  }

  lemma {:induction false} ShortKidShape<L>(t: Tree<L>, i: nat, s: Tree<L>, h: nat)
    requires h > 0 && NodeOk(t, h, 1) && i < |t.kids| && MIN <= |s.items| <= MAX && KidsShort(s, h - 1)
    ensures KidsShort(WithKid(t, i, s), h)
  {
    assert NodeShort(s, h - 1);
    assert ShortKid(WithKid(t, i, s), h, i);
  }

  // ----- Removal from a whole tree -----

  /** The tree that remains when a root without items is dropped. */
  function Crown<L>(t: Tree<L>): Tree<L> {
    if t.items == [] && t.kids != [] then t.kids[0] else t
  }

  function CrownHeight<L>(t: Tree<L>, h: nat): nat
    requires t.kids != [] ==> h > 0
  {
    if t.items == [] && t.kids != [] then h - 1 else h
  }

  lemma {:induction false} RemoveShape<L>(t: Tree<L>, key: nat, h: nat)
    requires NodeOk(t, h, LeastAtRoot(h))
    ensures var r := RemoveKey(t, key, h);
            && (r.kids != [] ==> h > 0) && Formed(Crown(r), CrownHeight(r, h))
            && (if LeavesShort(t, key, h) then h > 1 && Crown(r) == r && KidsShort(r, h) && |r.items| == |t.items|
                else NodeOk(Crown(r), CrownHeight(r, h), LeastAtRoot(CrownHeight(r, h))))
  {
    var r := RemoveKey(t, key, h);
    RemoveKeyShape(t, key, h);
    if LeavesShort(t, key, h) {
      ShortIsFormed(r, h);
    } else {
      OkIsFormed(r, h);
    }
  }

  lemma {:induction false} CrownInorder<L>(r: Tree<L>, h: nat)
    requires Formed(r, h)
    ensures Inorder(Crown(r)) == Inorder(r)
  {
  }

  lemma {:induction false} RemoveContents<L>(t: Tree<L>, key: nat, h: nat)
    requires NodeOk(t, h, LeastAtRoot(h)) && Sorted(Inorder(t)) && NonZero(Inorder(t))
    ensures var r := RemoveKey(t, key, h);
            && Sorted(Inorder(r)) && NonZero(Inorder(r)) && Inorder(Crown(r)) == Inorder(r)
            && (if HasKey(Inorder(t), key)
                then Find(t, key).Present? && exists p :: Taken(Inorder(t), Inorder(r), p, key, Find(t, key).val)
                else Find(t, key).Absent? && r == t && Crown(r) == r)
  {
    var r := RemoveKey(t, key, h);
    OkIsFormed(t, h);
    FindAgrees(t, key, h);
    if Find(t, key).Present? {
      var p := RemovePresent(t, key, h);
      RemoveKeepsSorted(Inorder(t), p);
      RemovedFormed(t, key, h);
      CrownInorder(r, h);
    } else {
      RemoveAbsent(t, key, h);
    }
  }

  lemma {:induction false} RemovedFormed<L>(t: Tree<L>, key: nat, h: nat)
    requires NodeOk(t, h, 0) && (h > 0 ==> t.items != [])
    ensures Formed(RemoveKey(t, key, h), h)
  {
    RemoveKeyShape(t, key, h);
    if LeavesShort(t, key, h) { ShortIsFormed(RemoveKey(t, key, h), h); } else { OkIsFormed(RemoveKey(t, key, h), h); }
  }

  // ----- The way to the successor -----

  /** Down the first children, `n` times. */
  function Leftmost(n: nat): (path: seq<nat>)
    ensures |path| == n
  {
    seq(n, _ => 0)
  }

  lemma {:induction false} LeftmostIsPath<L>(t: Tree<L>, h: nat, n: nat)
    requires KidsOk(t, h) && n <= h
    ensures IsPath(t, Leftmost(n)) && KidsOk(Subtree(t, Leftmost(n)), h - n)
    ensures n > 0 ==> MIN <= |Subtree(t, Leftmost(n)).items| <= MAX
    decreases n
  {
    if n > 0 {
      assert Leftmost(n)[1..] == Leftmost(n - 1);
      LeftmostIsPath(t.kids[0], h - 1, n - 1);
    }
  }

  /** Taking the first item away changes only the parent of the leftmost leaf and what is below it. */
  lemma {:induction false} DropFirstIsReplace<L>(t: Tree<L>, h: nat)
    requires h > 0 && NodeOk(t, h, 1)
    ensures IsPath(t, Leftmost(h - 1)) && NodeOk(Subtree(t, Leftmost(h - 1)), 1, 1)
    ensures DropFirst(t, h) == Replace(t, Leftmost(h - 1), PopKid(Subtree(t, Leftmost(h - 1)), 0))
    ensures First(t, h) == Subtree(t, Leftmost(h - 1)).kids[0].items[0]
    decreases h
  {
    LeftmostIsPath(t, h, h - 1);
    if h > 1 {
      assert Leftmost(h - 1)[1..] == Leftmost(h - 2);
      DropFirstIsReplace(t.kids[0], h - 1);
    } else {
      assert Leftmost(0) == [];
    }
  }

  // ----- The smallest tree in which a removal leaves a node short -----

  /** Every node at its minimum, keys in steps of one from `b` on. */
  function MinLeaf(b: nat): Tree<()> {
    Tree((), [Item(b, 0), Item(b + 1, 0), Item(b + 2, 0)], [])
  }

  function MinInner(b: nat): Tree<()> {
    Tree((), [Item(b + 3, 0), Item(b + 7, 0), Item(b + 11, 0)], [MinLeaf(b), MinLeaf(b + 4), MinLeaf(b + 8), MinLeaf(b + 12)])
  }

  function MinTree(b: nat): Tree<()> {
    Tree((), [Item(b + 15, 0)], [MinInner(b), MinInner(b + 16)])
  }

  function Keys(b: nat, n: nat): (r: seq<Item>)
    ensures |r| == n && forall k :: 0 <= k < n ==> r[k] == Item(b + k, 0)
  {
    seq(n, k requires 0 <= k => Item(b + k, 0))
  }

  lemma LeafKeys(b: nat)
    ensures Inorder(MinLeaf(b)) == Keys(b, 3)
  {
  }

  lemma Glue(b: nat, m: nat, n: nat)
    ensures Keys(b, m) + [Item(b + m, 0)] + Keys(b + m + 1, n) == Keys(b, m + 1 + n)
  {
  }

  lemma {:induction false} MinInnerInorder(b: nat)
    ensures Inorder(MinInner(b)) == Keys(b, 15)
  {
    var i, c := MinInner(b).items, MinInner(b).kids;
    LeafKeys(b);
    LeafKeys(b + 4);
    LeafKeys(b + 8);
    LeafKeys(b + 12);
    PutFirst([], [c[3]], i[2], c[2]);
    Glue(b + 8, 3, 3);
    PutFirst([i[2]], [c[2], c[3]], i[1], c[1]);
    Glue(b + 4, 3, 7);
    PutFirst([i[1], i[2]], [c[1], c[2], c[3]], i[0], c[0]);
    Glue(b, 3, 11);
    assert [i[2]] + [] == [i[2]] && [c[2]] + [c[3]] == [c[2], c[3]];
    assert [i[1]] + [i[2]] == [i[1], i[2]] && [c[1]] + [c[2], c[3]] == [c[1], c[2], c[3]];
    assert [i[0]] + [i[1], i[2]] == i && [c[0]] + [c[1], c[2], c[3]] == c;
  }

  lemma {:induction false} MinTreeInorder(b: nat)
    ensures Inorder(MinTree(b)) == Keys(b, 31)
  {
    var t := MinTree(b);
    MinInnerInorder(b);
    MinInnerInorder(b + 16);
    PutFirst([], [t.kids[1]], t.items[0], t.kids[0]);
    Glue(b, 15, 15);
    assert [t.items[0]] + [] == t.items && [t.kids[0]] + [t.kids[1]] == t.kids;
  }

  lemma {:induction false} MinInnerOk(b: nat)
    ensures NodeOk(MinInner(b), 1, MIN) && RunsShort(MinInner(b), 1)
  {
  }

  /** Removing the root's key from a valid tree with every node at its minimum leaves a node below it. */
  lemma {:induction false} MinTreeRunsShort(b: nat)
    ensures NodeOk(MinTree(b), 2, LeastAtRoot(2)) && Inorder(MinTree(b)) == Keys(b, 31)
    ensures LeavesShort(MinTree(b), b + 15, 2) && !KidsOk(RemoveKey(MinTree(b), b + 15, 2), 2)
  {
    var t := MinTree(b);
    MinInnerOk(b);
    MinInnerOk(b + 16);
    MinTreeInorder(b);
    assert LowerIdx(t.items, b + 15) == 0;
    RemoveKeyShape(t, b + 15, 2);
    ShortIsNotOk(RemoveKey(t, b + 15, 2), 2);
  }
}

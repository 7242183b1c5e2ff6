/**
 Where things are in a tree: paths from the top, what lies left of a path's end, and where
 a key belongs among sorted items.
 */
module BTreePaths {
  import opened BTreeShape

  predicate IsPath<L>(t: Tree<L>, path: seq<nat>)
    decreases |path|
  {
    path == [] || (path[0] < |t.kids| == |t.items| + 1 && IsPath(t.kids[path[0]], path[1..]))
  }

  function Subtree<L>(t: Tree<L>, path: seq<nat>): Tree<L>
    requires IsPath(t, path)
    decreases |path|
  {
    if path == [] then t else Subtree(t.kids[path[0]], path[1..])
  }

  function Replace<L>(t: Tree<L>, path: seq<nat>, s: Tree<L>): Tree<L>
    requires IsPath(t, path)
    decreases |path|
  {
    if path == [] then s else WithKid(t, path[0], Replace(t.kids[path[0]], path[1..], s))
  }

  /** How many items lie left of the subtree. */
  function Offset<L>(t: Tree<L>, path: seq<nat>): nat
    requires IsPath(t, path)
    decreases |path|
  {
    if path == [] then 0
    else |Before(t.items, t.kids, path[0])| + Offset(t.kids[path[0]], path[1..])
  }

  /** `now` is `was` with the stretch `mid` at `o` replaced by `mid'`. */
  predicate Spliced(was: seq<Item>, o: nat, mid: seq<Item>, mid': seq<Item>, now: seq<Item>) {
    && o + |mid| <= |was| && was[o..o + |mid|] == mid
    && now == was[..o] + mid' + was[o + |mid|..]
  }

  lemma SpliceOut(b: seq<Item>, a: seq<Item>, was: seq<Item>, o: nat, mid: seq<Item>, mid': seq<Item>, now: seq<Item>)
    requires Spliced(was, o, mid, mid', now)
    ensures Spliced(b + was + a, |b| + o, mid, mid', b + now + a)
  {
    var big := b + was + a;
    assert big[|b| + o..|b| + o + |mid|] == was[o..o + |mid|];
    assert big[..|b| + o] == b + was[..o];
    assert big[|b| + o + |mid|..] == was[o + |mid|..] + a;
  }

  lemma {:induction false} SpliceAround(b: seq<Item>, a: seq<Item>, was: seq<Item>, o: nat, mid: seq<Item>, mid': seq<Item>, now: seq<Item>,
                                       whole: seq<Item>, whole': seq<Item>)
    requires Spliced(was, o, mid, mid', now) && whole == b + was + a && whole' == b + now + a
    ensures Spliced(whole, |b| + o, mid, mid', whole')
  {
    SpliceOut(b, a, was, o, mid, mid', now);
  }

  /** A change inside child `k` seen from the parent. */
  lemma {:induction false} SpliceInKid<L>(t: Tree<L>, k: nat, kid': Tree<L>, o: nat, mid: seq<Item>, mid': seq<Item>)
    requires k < |t.kids| == |t.items| + 1
    requires Spliced(Inorder(t.kids[k]), o, mid, mid', Inorder(kid'))
    ensures Spliced(Inorder(t), |Before(t.items, t.kids, k)| + o, mid, mid', Inorder(WithKid(t, k, kid')))
  {
    var b, a, whole, whole' := Before(t.items, t.kids, k), After(t.items, t.kids, k), Inorder(t), Inorder(WithKid(t, k, kid'));
    assert whole == b + Inorder(t.kids[k]) + a && whole' == b + Inorder(kid') + a by {
      InorderWithKid(t, k, kid');
    }
    SpliceAround(b, a, Inorder(t.kids[k]), o, mid, mid', Inorder(kid'), whole, whole');
  }

  lemma SpliceAll(was: seq<Item>, now: seq<Item>)
    ensures Spliced(was, 0, was, now, now)
  {
    assert was[..0] == [] && was[0..|was|] == was && was[|was|..] == [];
  }

  /** Replacing a subtree replaces exactly its stretch of the contents. */
  lemma {:induction false} ReplaceInorder<L>(t: Tree<L>, path: seq<nat>, s: Tree<L>)
    requires IsPath(t, path)
    ensures Spliced(Inorder(t), Offset(t, path), Inorder(Subtree(t, path)), Inorder(s), Inorder(Replace(t, path, s)))
    decreases |path|
  {
    if path == [] {
      SpliceAll(Inorder(t), Inorder(s));
    } else {
      var k, rest := path[0], path[1..];
      ReplaceInorder(t.kids[k], rest, s);
      SpliceInKid(t, k, Replace(t.kids[k], rest, s), Offset(t.kids[k], rest), Inorder(Subtree(t.kids[k], rest)), Inorder(s));
    }
  }

  lemma {:induction false} ReplaceOk<L>(t: Tree<L>, path: seq<nat>, s: Tree<L>, h: nat, least: nat, lo: nat)
    requires IsPath(t, path) && NodeIn(t, h, least, lo) && |path| <= h
    requires NodeIn(s, h - |path|, if path == [] then least else lo, lo)
    ensures NodeIn(Replace(t, path, s), h, least, lo)
    decreases |path|
  {
    if path != [] {
      ReplaceOk(t.kids[path[0]], path[1..], s, h - 1, lo, lo);
    }
  }

  lemma {:induction false} NonZeroSubtree<L>(t: Tree<L>, path: seq<nat>)
    requires IsPath(t, path) && NonZero(Inorder(t))
    ensures NonZero(Inorder(Subtree(t, path)))
  {
    var s, o := Subtree(t, path), Offset(t, path);
    ReplaceInorder(t, path, s);
    forall i | 0 <= i < |Inorder(s)|
      ensures Inorder(s)[i].key != 0
    {
      assert Inorder(t)[o..o + |Inorder(s)|][i] == Inorder(t)[o + i];
    }
  }

  // ----- Where a key belongs -----

  /** Everything before `p` is at most `key` and everything from `p` on at least. */
  predicate Slot(s: seq<Item>, p: nat, key: nat) {
    && p <= |s|
    && (forall j :: 0 <= j < p ==> s[j].key <= key)
    && (forall j :: p <= j < |s| ==> s[j].key >= key)
  }

  function InsertAt(s: seq<Item>, p: nat, x: Item): seq<Item>
    requires p <= |s|
  {
    s[..p] + [x] + s[p..]
  }

  function RemoveAt(s: seq<Item>, p: nat): seq<Item>
    requires p < |s|
  {
    s[..p] + s[p + 1..]
  }

  lemma InsertNonZeroIff(s: seq<Item>, p: nat, item: Item)
    requires p <= |s|
    ensures NonZero(InsertAt(s, p, item)) <==> NonZero(s) && item.key != 0
  {
    var r := InsertAt(s, p, item);
    assert r[p] == item && forall j :: 0 <= j < |s| ==> s[j] == r[if j < p then j else j + 1];
  }

  lemma InsertKeepsSorted(s: seq<Item>, p: nat, x: Item)
    requires Sorted(s) && Slot(s, p, x.key)
    ensures Sorted(InsertAt(s, p, x))
  {
  }

  lemma RemoveKeepsSorted(s: seq<Item>, p: nat)
    requires Sorted(s) && p < |s|
    ensures Sorted(RemoveAt(s, p))
  {
  }

  lemma InsertMultiset(s: seq<Item>, p: nat, x: Item)
    requires p <= |s|
    ensures multiset(InsertAt(s, p, x)) == multiset(s) + multiset{x}
  {
    assert s == s[..p] + s[p..];
  }

  lemma RemoveMultiset(s: seq<Item>, p: nat)
    requires p < |s|
    ensures multiset(RemoveAt(s, p)) == multiset(s) - multiset{s[p]}
  {
    assert s == s[..p] + [s[p]] + s[p + 1..];
  }

  /** The separators send `key` to child `k`. */
  predicate Route(items: seq<Item>, k: nat, key: nat) {
    && k <= |items|
    && (forall j :: 0 <= j < k ==> items[j].key <= key)
    && (k < |items| ==> items[k].key >= key)
  }

  /** A child of a sorted tree is sorted, and its surroundings are on the right sides. */
  lemma {:induction false} SortedKid<L>(t: Tree<L>, k: nat)
    requires |t.kids| == |t.items| + 1 && k < |t.kids| && Sorted(Inorder(t))
    ensures Sorted(Inorder(t.kids[k]))
    ensures k > 0 ==> forall j :: 0 <= j < |Before(t.items, t.kids, k)| ==> Before(t.items, t.kids, k)[j].key <= t.items[k - 1].key
    ensures k < |t.items| ==> forall j :: 0 <= j < |After(t.items, t.kids, k)| ==> t.items[k].key <= After(t.items, t.kids, k)[j].key
  {
    FlatAtKid(t.items, t.kids, k);
    var b, a := Before(t.items, t.kids, k), After(t.items, t.kids, k);
    SortedPieces(b, Inorder(t.kids[k]), a);
    assert k > 0 ==> b[|b| - 1] == t.items[k - 1];
    assert k < |t.items| ==> a[0] == t.items[k];
  }

  lemma SortedPieces(b: seq<Item>, m: seq<Item>, a: seq<Item>)
    requires Sorted(b + m + a)
    ensures Sorted(b) && Sorted(m) && Sorted(a)
  {
    var s := b + m + a;
    assert forall i :: 0 <= i < |b| ==> b[i] == s[i];
    assert forall i :: 0 <= i < |m| ==> m[i] == s[|b| + i];
    assert forall i :: 0 <= i < |a| ==> a[i] == s[|b| + |m| + i];
  }

  lemma SlotAround(b: seq<Item>, m: seq<Item>, a: seq<Item>, p: nat, key: nat)
    requires Slot(m, p, key)
    requires forall j :: 0 <= j < |b| ==> b[j].key <= key
    requires forall j :: 0 <= j < |a| ==> a[j].key >= key
    ensures Slot(b + m + a, |b| + p, key)
  {
  }

  /** The right place in the right child is the right place in the whole. */
  lemma {:induction false} SlotInKid<L>(t: Tree<L>, k: nat, p: nat, key: nat)
    requires |t.kids| == |t.items| + 1 && k < |t.kids| && Sorted(Inorder(t))
    requires Route(t.items, k, key) && Slot(Inorder(t.kids[k]), p, key)
    ensures Slot(Inorder(t), |Before(t.items, t.kids, k)| + p, key)
  {
    SortedKid(t, k);
    FlatAtKid(t.items, t.kids, k);
    SlotAround(Before(t.items, t.kids, k), Inorder(t.kids[k]), After(t.items, t.kids, k), p, key);
  }

  /** The separators of a sorted tree are sorted. */
  lemma {:induction false} SortedItems<L>(t: Tree<L>)
    requires (t.IsLeaf() || |t.kids| == |t.items| + 1) && Sorted(Inorder(t))
    ensures Sorted(t.items)
  {
    if !t.IsLeaf() {
      forall i, j | 0 <= i < j < |t.items|
        ensures t.items[i].key <= t.items[j].key
      {
        SortedKid(t, i);
        FlatAtItem(t.items[i + 1..], t.kids[i + 1..], j - i - 1);
        var a := After(t.items, t.kids, i);
        assert t.items[i + 1..][j - i - 1] == t.items[j];
        assert t.items[j] in a;
      }
    }
  }

  /** Every item is in the contents, and so is every item of every child. */
  lemma {:induction false} ItemsInInorder<L>(t: Tree<L>)
    requires t.IsLeaf() || |t.kids| == |t.items| + 1
    ensures forall i :: 0 <= i < |t.items| ==> t.items[i] in Inorder(t)
    ensures forall k, x :: 0 <= k < |t.kids| && x in Inorder(t.kids[k]) ==> x in Inorder(t)
  {
    if !t.IsLeaf() {
      forall i | 0 <= i < |t.items|
        ensures t.items[i] in Inorder(t)
      {
        FlatAtItem(t.items, t.kids, i);
      }
      forall k, x | 0 <= k < |t.kids| && x in Inorder(t.kids[k])
        ensures x in Inorder(t)
      {
        FlatAtKid(t.items, t.kids, k);
      }
    }
  }

  lemma {:induction false} NonZeroParts<L>(t: Tree<L>)
    requires (t.IsLeaf() || |t.kids| == |t.items| + 1) && NonZero(Inorder(t))
    ensures NonZero(t.items) && forall k :: 0 <= k < |t.kids| ==> NonZero(Inorder(t.kids[k]))
  {
    ItemsInInorder(t);
    forall k | 0 <= k < |t.kids|
      ensures NonZero(Inorder(t.kids[k]))
    {
      var s := Inorder(t.kids[k]);
      forall i | 0 <= i < |s|
        ensures s[i].key != 0
      {
        assert s[i] in s && s[i] in Inorder(t);
      }
    }
    forall i | 0 <= i < |t.items|
      ensures t.items[i].key != 0
    {
      assert t.items[i] in Inorder(t);
    }
  }
}

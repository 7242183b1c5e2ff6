/**
 B-tree nodes in memory: a count, an array of seven items and one of eight child pointers.
 Slots beyond the count hold whatever was left there, and the code tells an
 unused slot by a zero key only where that does not matter.
 */
module BTreeNode {
  import opened BTreeShape
  import opened BTreePaths

  const NO_ITEM := Item(0, 0)

  /** memmove inside an array; memcpy when the stretches do not meet. */
  function MemMove<T>(a: seq<T>, dst: nat, src: nat, n: nat): (r: seq<T>)
    requires dst + n <= |a| && src + n <= |a|
    ensures |r| == |a|
    ensures forall i :: 0 <= i < |a| ==> r[i] == if dst <= i < dst + n then a[src + (i - dst)] else a[i]
  {
    a[..dst] + a[src..src + n] + a[dst + n..]
  }

  class Node {
    var count: nat
    var items: seq<Item>
    var children: seq<Node?>

    /** A zeroed allocation. */
    constructor ()
      ensures count == 0 && items == seq(MAX, _ => NO_ITEM) && children == seq(ORDER, _ => null)
    {
      count := 0;
      items := seq(MAX, _ => NO_ITEM);
      children := seq(ORDER, _ => null);
    }

    ghost predicate Sized()
      reads this
    {
      count <= MAX && |items| == MAX && |children| == ORDER
    }

    /** The live part of the node is these items and these children; a leaf has no child pointer at all. */
    ghost predicate Holds(its: seq<Item>, kids: seq<Node>)
      reads this
    {
      && Sized() && count == |its| && items[..count] == its
      && (if kids == [] then forall i :: 0 <= i < ORDER ==> children[i] == null
          else |kids| == |its| + 1 && forall i :: 0 <= i <= count ==> children[i] == kids[i])
    }

    method SetItem(pos: nat, item: Item)
      requires Sized() && pos < MAX && count < MAX
      modifies `items, `count
      ensures items == old(items)[pos := item] && count == old(count) + 1
    {
      items := items[pos := item];
      count := count + 1;
    }

    method ClearSlot(pos: nat)
      requires Sized() && pos < MAX
      modifies `items
      ensures items == old(items)[pos := NO_ITEM]
    {
      items := items[pos := NO_ITEM];
    }

    /**
     Inserts an item into a node that is not full. The shift is skipped when the slot looks unused,
     which must only be the case behind the last item.
     */
    method InsertItem(pos: nat, item: Item)
      requires Sized() && pos <= count < MAX && LiveAt(items[..count], pos)
      modifies `items, `count
      ensures Sized() && count == old(count) + 1
      ensures items[..count] == InsertAt(old(items[..count]), pos, item)
    {
      ItemShifted(items, count, pos, item, items[pos].key != 0);
      if items[pos].key != 0 {
        items := MemMove(items, pos + 1, pos, ORDER - 2 - pos);
      }
      SetItem(pos, item);
    }

    /**
     Removes an item of a leaf. The move is one slot longer than needed; on a full node its last
     read is past the array and brings in something arbitrary, behind the last item.
     */
    method RemoveFromLeaf(pos: nat)
      requires Sized() && pos < count
      modifies `items, `count
      ensures Sized() && count == old(count) - 1
      ensures items[..count] == RemoveAt(old(items[..count]), pos)
      ensures old(count) == 1 || pos == ORDER - 2 ==> items == old(items)[pos := NO_ITEM]
    {
      ghost var was := items[..count];
      if count == 1 || pos == ORDER - 2 {
        assert RemoveAt(was, pos) == was[..pos];
        ClearSlot(pos);
        assert items[..pos] == was[..pos];
      } else if count != 1 {
        var pastEnd: Item := *;
        var padded := items + [pastEnd];
        ItemsClosed(items, count, pos, pastEnd);
        items := MemMove(padded, pos, pos + 1, count - pos)[..MAX];
      }
      count := count - 1;
    }

    /** Inserts an item and puts two children in the place of one, in a node that is not full. */
    method InsertNode(pos: nat, item: Item, left: Node, right: Node)
      requires Sized() && pos <= count < MAX && LiveAt(items[..count], pos)
      modifies this
      ensures Sized() && count == old(count) + 1
      ensures items[..count] == InsertAt(old(items[..count]), pos, item)
      ensures children[..count + 1] == old(children[..count + 1][..pos]) + [left, right] + old(children[..count + 1][pos + 1..])
    {
      var shift := items[pos].key != 0;
      ItemShifted(items, count, pos, item, shift);
      KidsShifted(children, count, pos, left, right, shift);
      if shift {
        items := MemMove(items, pos + 1, pos, ORDER - 2 - pos);
        children := MemMove(children, pos + 1, pos, ORDER - 1 - pos);
      }
      children := children[pos := left];
      children := children[pos + 1 := right];
      SetItem(pos, item);
    }
  }

  /** What the move down makes of the items in use. */
  lemma ItemsClosed(s: seq<Item>, n: nat, pos: nat, pastEnd: Item)
    requires |s| == MAX && pos < n <= MAX
    ensures MemMove(s + [pastEnd], pos, pos + 1, n - pos)[..MAX][..n - 1] == RemoveAt(s[..n], pos)
  {
    var s', r := MemMove(s + [pastEnd], pos, pos + 1, n - pos)[..MAX], RemoveAt(s[..n], pos);
    forall i | 0 <= i < n - 1
      ensures s'[i] == r[i]
    {
      if i >= pos {
        assert (s + [pastEnd])[pos + 1 + (i - pos)] == s[i + 1];
        assert r[i] == s[..n][pos + 1..][i - pos] == s[i + 1];
      }
    }
  }

  /** What the shift and the store make of the items in use. */
  lemma ItemShifted(s: seq<Item>, n: nat, pos: nat, x: Item, shift: bool)
    requires |s| == MAX && pos <= n < MAX && (!shift ==> pos == n)
    ensures (if shift then MemMove(s, pos + 1, pos, ORDER - 2 - pos) else s)[pos := x][..n + 1] == InsertAt(s[..n], pos, x)
  {
  }

  /** The same for the children: two take the place of one. */
  lemma KidsShifted(s: seq<Node?>, n: nat, pos: nat, left: Node?, right: Node?, shift: bool)
    requires |s| == ORDER && pos <= n < MAX && (!shift ==> pos == n)
    ensures (if shift then MemMove(s, pos + 1, pos, ORDER - 1 - pos) else s)[pos := left][pos + 1 := right][..n + 2]
            == s[..n + 1][..pos] + [left, right] + s[..n + 1][pos + 1..]
  {
    var s' := (if shift then MemMove(s, pos + 1, pos, ORDER - 1 - pos) else s)[pos := left][pos + 1 := right];
    var kids' := s[..n + 1][..pos] + [left, right] + s[..n + 1][pos + 1..];
    assert forall i :: 0 <= i < n + 2 ==> s'[i] == kids'[i];
  }

  type NTree = Tree<Node>

  // ----- A tree in memory -----

  ghost function Nodes(t: NTree): set<Node>
    decreases t
  {
    {t.tag} + set k, n | 0 <= k < |t.kids| && n in Nodes(t.kids[k]) :: n
  }

  ghost function Tags(kids: seq<NTree>): (r: seq<Node>)
    ensures |r| == |kids| && forall k :: 0 <= k < |kids| ==> r[k] == kids[k].tag
  {
    seq(|kids|, k requires 0 <= k < |kids| => kids[k].tag)
  }

  /** No node occurs twice. */
  ghost predicate Apart(t: NTree)
    decreases t
  {
    && (forall k :: 0 <= k < |t.kids| ==> t.tag !in Nodes(t.kids[k]) && Apart(t.kids[k]))
    && (forall j, k :: 0 <= j < k < |t.kids| ==> Nodes(t.kids[j]) !! Nodes(t.kids[k]))
  }

  /** Memory holds the tree. */
  ghost predicate InMemory(t: NTree)
    reads Nodes(t)
    decreases t
  {
    && t.tag.Holds(t.items, Tags(t.kids))
    && forall k :: 0 <= k < |t.kids| ==> InMemory(t.kids[k])
  }

  ghost predicate Rep(t: NTree)
    reads Nodes(t)
  {
    Apart(t) && InMemory(t)
  }

  /** Every node of a tree that is at hand exists; naming the set lets the verifier see it. */
  lemma Existing(s: set<Node>) returns (ns: set<Node>)
    ensures ns == s
  {
    ns := s;
  }

  /** A tree in memory stays there while its nodes do not change. */
  twostate lemma RepStays(new t: NTree, new ns: set<Node>)
    requires old(allocated(t)) && old(allocated(ns)) && Nodes(t) <= ns && old(Rep(t)) && unchanged(ns)
    ensures Rep(t)
  {
  }
}

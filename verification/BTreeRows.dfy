/**
 Rows of neighbouring subtrees in memory: what nodes they use, and cutting and joining rows.
 */
module BTreeRows {
  import opened BTreeShape
  import opened BTreePaths
  import opened BTreeNode

  ghost function RowNodes(kids: seq<NTree>): set<Node> {
    set k, n | 0 <= k < |kids| && n in Nodes(kids[k]) :: n
  }

  /** The trees of the row share no node, and none uses one twice. */
  ghost predicate RowApart(kids: seq<NTree>) {
    && (forall k :: 0 <= k < |kids| ==> Apart(kids[k]))
    && (forall j, k :: 0 <= j < k < |kids| ==> Nodes(kids[j]) !! Nodes(kids[k]))
  }

  ghost predicate RowInMemory(kids: seq<NTree>)
    reads RowNodes(kids)
  {
    forall k :: 0 <= k < |kids| ==> InMemory(kids[k])
  }

  /** A tree is its own node and a row. */
  lemma {:induction false} TreeAsRow(t: NTree)
    ensures Nodes(t) == {t.tag} + RowNodes(t.kids)
    ensures Apart(t) <==> RowApart(t.kids) && t.tag !in RowNodes(t.kids)
    ensures InMemory(t) <==> t.tag.Holds(t.items, Tags(t.kids)) && RowInMemory(t.kids)
  {
  }

  lemma {:induction false} OneInRow(t: NTree)
    ensures RowNodes([t]) == Nodes(t) && (RowApart([t]) <==> Apart(t)) && (RowInMemory([t]) <==> InMemory(t))
  {
    var row := [t];
    assert row[0] == t;
  }

  lemma {:induction false} InRow(kids: seq<NTree>, k: nat)
    requires k < |kids|
    ensures Nodes(kids[k]) <= RowNodes(kids)
  {
  }

  lemma {:induction false} JoinNodes(a: seq<NTree>, b: seq<NTree>)
    ensures RowNodes(a + b) == RowNodes(a) + RowNodes(b)
  {
    var row := a + b;
    forall n | n in RowNodes(row)
      ensures n in RowNodes(a) + RowNodes(b)
    {
      var k :| 0 <= k < |row| && n in Nodes(row[k]);
      if k < |a| { assert n in Nodes(a[k]); } else { assert n in Nodes(b[k - |a|]); }
    }
    forall n | n in RowNodes(a)
      ensures n in RowNodes(row)
    {
      var k :| 0 <= k < |a| && n in Nodes(a[k]);
      assert n in Nodes(row[k]);
    }
    forall n | n in RowNodes(b)
      ensures n in RowNodes(row)
    {
      var k :| 0 <= k < |b| && n in Nodes(b[k]);
      assert n in Nodes(row[|a| + k]);
    }
  }

  /** Joined rows are apart exactly when both are and they share no node. */
  lemma {:induction false} JoinApart(a: seq<NTree>, b: seq<NTree>)
    ensures RowApart(a + b) <==> RowApart(a) && RowApart(b) && RowNodes(a) !! RowNodes(b)
  {
    var row := a + b;
    assert forall k :: 0 <= k < |a| ==> row[k] == a[k];
    assert forall k :: 0 <= k < |b| ==> row[|a| + k] == b[k];
    if RowApart(row) {
      forall n | n in RowNodes(a)
        ensures n !in RowNodes(b)
      {
        var j :| 0 <= j < |a| && n in Nodes(row[j]);
        forall k | 0 <= k < |b|
          ensures n !in Nodes(b[k])
        {
          assert Nodes(row[j]) !! Nodes(row[|a| + k]);
        }
      }
      forall j, k | 0 <= j < k < |b|
        ensures Nodes(b[j]) !! Nodes(b[k])
      {
        assert Nodes(row[|a| + j]) !! Nodes(row[|a| + k]);
      }
    }
    if RowApart(a) && RowApart(b) && RowNodes(a) !! RowNodes(b) {
      forall j, k | 0 <= j < k < |row|
        ensures Nodes(row[j]) !! Nodes(row[k])
      {
        if j < |a| <= k {
          InRow(a, j);
          InRow(b, k - |a|);
        }
      }
    }
  }

  lemma {:induction false} JoinInMemory(a: seq<NTree>, b: seq<NTree>)
    ensures RowInMemory(a + b) <==> RowInMemory(a) && RowInMemory(b)
  {
    var row := a + b;
    assert forall k :: 0 <= k < |a| ==> row[k] == a[k];
    assert forall k :: 0 <= k < |b| ==> row[|a| + k] == b[k];
    if RowInMemory(row) {
      forall k | 0 <= k < |b|
        ensures InMemory(b[k])
      {
        assert InMemory(row[|a| + k]);
      }
    }
  }

  /** A row that is in memory and apart. */
  ghost predicate RowRep(kids: seq<NTree>)
    reads RowNodes(kids)
  {
    RowApart(kids) && RowInMemory(kids)
  }

  lemma {:induction false} JoinRep(a: seq<NTree>, b: seq<NTree>)
    ensures RowNodes(a + b) == RowNodes(a) + RowNodes(b)
    ensures RowRep(a + b) <==> RowRep(a) && RowRep(b) && RowNodes(a) !! RowNodes(b)
  {
    JoinNodes(a, b);
    JoinApart(a, b);
    JoinInMemory(a, b);
  }

  lemma {:induction false} CutRep(kids: seq<NTree>, k: nat)
    requires k <= |kids|
    ensures RowNodes(kids) == RowNodes(kids[..k]) + RowNodes(kids[k..])
    ensures RowRep(kids) <==> RowRep(kids[..k]) && RowRep(kids[k..]) && RowNodes(kids[..k]) !! RowNodes(kids[k..])
  {
    assert kids[..k] + kids[k..] == kids;
    JoinRep(kids[..k], kids[k..]);
  }

  /** Rep in terms of the node and its row of children. */
  lemma {:induction false} RepAsRow(t: NTree)
    ensures Nodes(t) == {t.tag} + RowNodes(t.kids)
    ensures Rep(t) <==> t.tag.Holds(t.items, Tags(t.kids)) && RowRep(t.kids) && t.tag !in RowNodes(t.kids)
  {
    TreeAsRow(t);
  }

  lemma {:induction false} OneRep(t: NTree)
    ensures RowNodes([t]) == Nodes(t) && (RowRep([t]) <==> Rep(t))
  {
    OneInRow(t);
  }

  lemma {:induction false} EmptyRow()
    ensures RowNodes([]) == {} && RowRep([])
  {
  }

  /** The first tree of a row and the others. */
  lemma {:induction false} RowHead(row: seq<NTree>)
    requires row != [] && RowRep(row)
    ensures RowNodes(row) == Nodes(row[0]) + RowNodes(row[1..]) && Nodes(row[0]) !! RowNodes(row[1..])
    ensures Rep(row[0]) && RowRep(row[1..])
  {
    CutRep(row, 1);
    assert row[..1] == [row[0]];
    OneRep(row[0]);
  }

  /** A row around one of its trees. */
  lemma {:induction false} RowAround(kids: seq<NTree>, k: nat)
    requires k < |kids| && RowRep(kids)
    ensures RowNodes(kids) == RowNodes(kids[..k]) + Nodes(kids[k]) + RowNodes(kids[k + 1..])
    ensures RowRep(kids[..k]) && Rep(kids[k]) && RowRep(kids[k + 1..])
    ensures RowNodes(kids[..k]) !! Nodes(kids[k]) && RowNodes(kids[..k]) !! RowNodes(kids[k + 1..])
    ensures Nodes(kids[k]) !! RowNodes(kids[k + 1..])
  {
    CutRep(kids, k);
    RowHead(kids[k..]);
    assert kids[k..][1..] == kids[k + 1..];
  }

  /** A row around two neighbours. */
  lemma {:induction false} RowAroundPair(kids: seq<NTree>, k: nat)
    requires k + 1 < |kids| && RowRep(kids)
    ensures RowNodes(kids) == RowNodes(kids[..k]) + Nodes(kids[k]) + Nodes(kids[k + 1]) + RowNodes(kids[k + 2..])
    ensures RowRep(kids[..k]) && Rep(kids[k]) && Rep(kids[k + 1]) && RowRep(kids[k + 2..])
    ensures Nodes(kids[k]) !! Nodes(kids[k + 1]) && RowNodes(kids[..k]) !! RowNodes(kids[k + 2..])
    ensures (Nodes(kids[k]) + Nodes(kids[k + 1])) !! (RowNodes(kids[..k]) + RowNodes(kids[k + 2..]))
  {
    RowAround(kids, k);
    RowHead(kids[k + 1..]);
    assert kids[k + 1..][1..] == kids[k + 2..];
  }

  /** A child of a tree in memory. */
  lemma {:induction false} KidRep(t: NTree, k: nat)
    requires Rep(t) && k < |t.kids|
    ensures Rep(t.kids[k]) && Nodes(t.kids[k]) <= Nodes(t) && t.tag !in Nodes(t.kids[k])
    ensures t.tag.Holds(t.items, Tags(t.kids))
  {
    RepAsRow(t);
    RowAround(t.kids, k);
  }

  /** Two trees between two rows. */
  lemma {:induction false} PairRow(a: seq<NTree>, l: NTree, r: NTree, b: seq<NTree>)
    requires RowRep(a) && Rep(l) && Rep(r) && RowRep(b)
    requires RowNodes(a) !! RowNodes(b) && Nodes(l) !! Nodes(r) && (Nodes(l) + Nodes(r)) !! (RowNodes(a) + RowNodes(b))
    ensures RowRep(a + [l, r] + b) && RowNodes(a + [l, r] + b) == RowNodes(a) + Nodes(l) + Nodes(r) + RowNodes(b)
  {
    assert [l, r] == [l] + [r];
    OneRep(l);
    OneRep(r);
    JoinRep([l], [r]);
    JoinRep(a, [l, r]);
    JoinRep(a + [l, r], b);
  }

  ghost predicate PairBetween(a: seq<NTree>, l: NTree, r: NTree, b: seq<NTree>)
    reads RowNodes(a), Nodes(l), Nodes(r), RowNodes(b)
  {
    RowRep(a) && Rep(l) && Rep(r) && RowRep(b)
  }

  twostate lemma PairStays(new a: seq<NTree>, new l: NTree, new r: NTree, new b: seq<NTree>, new ns: set<Node>)
    requires old(allocated(a)) && old(allocated(l)) && old(allocated(r)) && old(allocated(b)) && old(allocated(ns))
    requires ns == Nodes(l) + Nodes(r) + RowNodes(a) + RowNodes(b) && old(PairBetween(a, l, r, b)) && unchanged(ns)
    ensures PairBetween(a, l, r, b)
  {
  }

  /** One tree between two rows. */
  lemma {:induction false} SingleRow(a: seq<NTree>, l: NTree, b: seq<NTree>)
    requires RowRep(a) && Rep(l) && RowRep(b)
    requires RowNodes(a) !! RowNodes(b) && Nodes(l) !! (RowNodes(a) + RowNodes(b))
    ensures RowRep(a + [l] + b) && RowNodes(a + [l] + b) == RowNodes(a) + Nodes(l) + RowNodes(b)
  {
    OneRep(l);
    JoinRep(a, [l]);
    JoinRep(a + [l], b);
  }

  lemma {:induction false} TagsJoin(a: seq<NTree>, b: seq<NTree>)
    ensures Tags(a + b) == Tags(a) + Tags(b)
  {
  }

  lemma {:induction false} TagsCut(kids: seq<NTree>, k: nat)
    requires k <= |kids|
    ensures Tags(kids[..k]) == Tags(kids)[..k] && Tags(kids[k..]) == Tags(kids)[k..]
  {
  }

  lemma {:induction false} ApartAround(kids: seq<NTree>, k: nat)
    requires k < |kids| && RowApart(kids)
    ensures RowNodes(kids) == RowNodes(kids[..k]) + Nodes(kids[k]) + RowNodes(kids[k + 1..])
    ensures RowNodes(kids[..k]) !! Nodes(kids[k]) && RowNodes(kids[..k]) !! RowNodes(kids[k + 1..])
    ensures Nodes(kids[k]) !! RowNodes(kids[k + 1..]) && Apart(kids[k])
  {
    var rest := kids[k..];
    assert kids == kids[..k] + rest && rest == [kids[k]] + kids[k + 1..];
    JoinApart(kids[..k], rest);
    JoinNodes(kids[..k], rest);
    JoinApart([kids[k]], kids[k + 1..]);
    JoinNodes([kids[k]], kids[k + 1..]);
    OneInRow(kids[k]);
  }

  /** Child `q` is exchanged for a tree whose other nodes are new: the parts share no node. */
  lemma {:induction false} KidParts(t: NTree, q: nat, s: NTree)
    requires q < |t.kids| && Apart(t) && Nodes(s) * Nodes(t) <= Nodes(t.kids[q])
    ensures var a, b := t.kids[..q], t.kids[q + 1..];
            && RowNodes(a) !! RowNodes(b) && Nodes(s) !! (RowNodes(a) + RowNodes(b))
            && t.tag !in RowNodes(a) + Nodes(s) + RowNodes(b)
            && {t.tag} + RowNodes(a) + Nodes(s) + RowNodes(b) == Nodes(t) - Nodes(t.kids[q]) + Nodes(s)
  {
    TreeAsRow(t);
    ApartAround(t.kids, q);
    Exchange(t.tag, RowNodes(t.kids[..q]), Nodes(t.kids[q]), RowNodes(t.kids[q + 1..]), Nodes(s), Nodes(t));
  }

  lemma Exchange(x: Node, a: set<Node>, k: set<Node>, b: set<Node>, s: set<Node>, all: set<Node>)
    requires all == {x} + (a + k + b) && a !! k && k !! b && x !in a + k + b && s * all <= k
    ensures s !! (a + b) && x !in a + s + b && {x} + a + s + b == all - k + s
  {
  }

  lemma {:induction false} SameTags(kids: seq<NTree>, q: nat, s: NTree)
    requires q < |kids| && s.tag == kids[q].tag
    ensures kids[q := s] == kids[..q] + [s] + kids[q + 1..] && Tags(kids[..q] + [s] + kids[q + 1..]) == Tags(kids)
  {
    var kids' := kids[q := s];
    assert kids' == kids[..q] + [s] + kids[q + 1..];
    assert Tags(kids') == Tags(kids);
  }

  /** Memory after a change inside child `q` only. */
  lemma {:induction false} RepAroundKid(t: NTree, q: nat, s: NTree)
    requires q < |t.kids| && Apart(t) && t.tag.Holds(t.items, Tags(t.kids))
    requires RowRep(t.kids[..q]) && RowRep(t.kids[q + 1..])
    requires Rep(s) && s.tag == t.kids[q].tag && Nodes(s) * Nodes(t) <= Nodes(t.kids[q])
    ensures Rep(WithKid(t, q, s)) && Nodes(WithKid(t, q, s)) == Nodes(t) - Nodes(t.kids[q]) + Nodes(s)
  {
    KidParts(t, q, s);
    SingleRow(t.kids[..q], s, t.kids[q + 1..]);
    SameTags(t.kids, q, s);
    RepAsRow(WithKid(t, q, s));
  }

  // ----- A change far down -----

  /** Memory holds the tree outside the subtree at the end of the path; `ns` has the nodes there. */
  ghost predicate AllBut(t: NTree, path: seq<nat>, ns: set<Node>)
    requires IsPath(t, path) && Apart(t) && Nodes(t) - Nodes(Subtree(t, path)) <= ns
    reads ns
    decreases |path|
  {
    path == [] ||
    (var q, rest := path[0], path[1..];
     OutsidePath(t, path);
     t.tag.Holds(t.items, Tags(t.kids)) && RowRep(t.kids[..q]) && RowRep(t.kids[q + 1..]) && AllBut(t.kids[q], rest, ns))
  }

  lemma {:induction false} SubtreeNodes(t: NTree, path: seq<nat>)
    requires IsPath(t, path) && Apart(t)
    ensures Nodes(Subtree(t, path)) <= Nodes(t) && Apart(Subtree(t, path)) && Subtree(t, path).tag in Nodes(t)
    decreases |path|
  {
    if path != [] {
      TreeAsRow(t);
      InRow(t.kids, path[0]);
      SubtreeNodes(t.kids[path[0]], path[1..]);
    }
  }

  /** What lies beside the path is outside the subtree at its end. */
  lemma {:induction false} OutsidePath(t: NTree, path: seq<nat>)
    requires IsPath(t, path) && Apart(t) && path != []
    ensures Apart(t.kids[path[0]])
    ensures var q, s := path[0], Subtree(t, path);
            && t.tag in Nodes(t) - Nodes(s)
            && RowNodes(t.kids[..q]) <= Nodes(t) - Nodes(s) && RowNodes(t.kids[q + 1..]) <= Nodes(t) - Nodes(s)
            && Nodes(t.kids[q]) <= Nodes(t)
  {
    TreeAsRow(t);
    ApartAround(t.kids, path[0]);
    SubtreeNodes(t.kids[path[0]], path[1..]);
  }

  lemma {:induction false} AllButHolds(t: NTree, path: seq<nat>, ns: set<Node>)
    requires IsPath(t, path) && Rep(t) && Nodes(t) - Nodes(Subtree(t, path)) <= ns
    ensures AllBut(t, path, ns) && Rep(Subtree(t, path))
    decreases |path|
  {
    if path != [] {
      OutsidePath(t, path);
      RepAsRow(t);
      RowAround(t.kids, path[0]);
      AllButHolds(t.kids[path[0]], path[1..], ns);
    }
  }

  /** After a change confined to the subtree at the end of the path, memory holds the tree with it replaced. */
  lemma {:induction false} ReplaceRep(t: NTree, path: seq<nat>, s: NTree, ns: set<Node>)
    requires IsPath(t, path) && Apart(t) && Nodes(t) - Nodes(Subtree(t, path)) <= ns && AllBut(t, path, ns)
    requires Rep(s) && s.tag == Subtree(t, path).tag && Nodes(s) <= Nodes(Subtree(t, path))
    ensures Rep(Replace(t, path, s)) && Nodes(Replace(t, path, s)) <= Nodes(t) && Replace(t, path, s).tag == t.tag
    decreases |path|
  {
    if path != [] {
      var q, rest := path[0], path[1..];
      OutsidePath(t, path);
      ReplaceRep(t.kids[q], rest, s, ns);
      RepAroundKid(t, q, Replace(t.kids[q], rest, s));
    }
  }
}

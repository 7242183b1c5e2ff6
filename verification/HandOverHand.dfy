/**
 Hand-over-hand locking: any number of threads walk a list of any length from its dummy head,
 each locking the next node before it lets go of the one it holds, and add one to the data of every
 node they enter. The interleaving is free; reading and writing a node's data are two steps.
 */
module HandOverHand {

  datatype Lock = Free | Held(owner: nat)

  /** Where a thread is in its loop. Nodes are numbered from the head, which is 0. */
  datatype Pc =
    | Begin                         // before LOCK(head)
    | At(p: nat)                    // holds p and is about to look at p->next
    | Both(p: nat)                  // holds p and p + 1
    | Entered(n: nat)               // holds n only
    | Loaded(n: nat, v: int)        // holds n and has read its data
    | Done
  {
    predicate Holds(k: int) {
      match this
      case Begin => false
      case At(p) => k == p
      case Both(p) => k == p || k == p + 1
      case Entered(n) => k == n
      case Loaded(n, _) => k == n
      case Done => false
    }

    /** The thread has added its one to node `k`. */
    predicate Passed(k: int) {
      k >= 1 &&
      match this
      case Begin => false
      case At(p) => k <= p
      case Both(p) => k <= p
      case Entered(n) => k < n
      case Loaded(n, _) => k < n
      case Done => true
    }

    predicate InList(len: nat) {
      match this
      case Begin => true
      case At(p) => p < len
      case Both(p) => p + 1 < len
      case Entered(n) => 1 <= n < len
      case Loaded(n, _) => 1 <= n < len
      case Done => true
    }

    function Lowest(): int
      requires !Begin? && !Done?
    {
      match this
      case At(p) => p
      case Both(p) => p
      case Entered(n) => n
      case Loaded(n, _) => n
    }

    function Highest(): int
      requires !Begin? && !Done?
    {
      if Both? then p + 1 else Lowest()
    }
  }

  /** `order` lists the threads in the order they took the head's lock. */
  datatype State = State(locks: seq<Lock>, data: seq<int>, pcs: seq<Pc>, order: seq<nat>)

  predicate WellFormed(s: State) {
    |s.locks| == |s.data| >= 1 && forall t :: 0 <= t < |s.pcs| ==> s.pcs[t].InList(|s.locks|)
  }

  predicate Init(s: State) {
    && WellFormed(s) && s.order == []
    && (forall k :: 0 <= k < |s.locks| ==> s.locks[k] == Free)
    && (forall t :: 0 <= t < |s.pcs| ==> s.pcs[t] == Begin)
  }

  predicate Enabled(s: State, t: nat)
    requires WellFormed(s)
  {
    t < |s.pcs| &&
    match s.pcs[t]
    case Begin => s.locks[0] == Free
    case At(p) => p + 1 < |s.locks| ==> s.locks[p + 1] == Free
    case Done => false
    case _ => true
  }

  /** One step of thread `t`. */
  function Next(s: State, t: nat): State
    requires WellFormed(s) && Enabled(s, t)
  {
    match s.pcs[t]
    case Begin => s.(locks := s.locks[0 := Held(t)], pcs := s.pcs[t := At(0)], order := s.order + [t])
    case At(p) =>
      if p + 1 < |s.locks| then s.(locks := s.locks[p + 1 := Held(t)], pcs := s.pcs[t := Both(p)])
      else s.(locks := s.locks[p := Free], pcs := s.pcs[t := Done])
    case Both(p) => s.(locks := s.locks[p := Free], pcs := s.pcs[t := Entered(p + 1)])
    case Entered(n) => s.(pcs := s.pcs[t := Loaded(n, s.data[n])])
    case Loaded(n, v) => s.(data := s.data[n := v + 1], pcs := s.pcs[t := At(n)])
  }

  // ----- The invariant -----

  /** The lock table says who holds what, so a lock has one holder at most. */
  ghost predicate LocksOk(s: State) {
    forall k, t :: 0 <= k < |s.locks| && 0 <= t < |s.pcs| ==> (s.locks[k] == Held(t) <==> s.pcs[t].Holds(k))
  }

  ghost predicate HoldersExist(s: State) {
    forall k :: 0 <= k < |s.locks| && s.locks[k].Held? ==> s.locks[k].owner < |s.pcs|
  }

  /** `order` has every thread that has started, once. */
  ghost predicate OrderOk(s: State) {
    && (forall i :: 0 <= i < |s.order| ==> s.order[i] < |s.pcs| && !s.pcs[s.order[i]].Begin?)
    && (forall t :: 0 <= t < |s.pcs| && !s.pcs[t].Begin? ==> t in s.order)
    && (forall i, j :: 0 <= i < j < |s.order| ==> s.order[i] != s.order[j])
  }

  /** `a` has finished, or is strictly further down the list than `b`. */
  predicate Ahead(a: Pc, b: Pc) {
    a.Done? || (!a.Begin? && !b.Begin? && !b.Done? && a.Lowest() > b.Highest())
  }

  ghost predicate NoOvertaking(s: State)
    requires forall i :: 0 <= i < |s.order| ==> s.order[i] < |s.pcs|
  {
    forall i, j :: 0 <= i < j < |s.order| ==> Ahead(s.pcs[s.order[i]], s.pcs[s.order[j]])
  }

  /** The threads that have passed node `k` are the first ones in the order, one per unit added to its data. */
  ghost predicate DataOk(s: State, init: seq<int>)
    requires |s.data| == |init| && forall i :: 0 <= i < |s.order| ==> s.order[i] < |s.pcs|
  {
    && (forall k :: 0 <= k < |init| ==> 0 <= s.data[k] - init[k] <= |s.order|)
    && (forall k, i :: 0 <= k < |init| && 0 <= i < |s.order| ==> (s.pcs[s.order[i]].Passed(k) <==> i < s.data[k] - init[k]))
    && (|init| > 0 ==> s.data[0] == init[0])
  }

  ghost predicate LoadsOk(s: State)
    requires WellFormed(s)
  {
    forall t :: 0 <= t < |s.pcs| && s.pcs[t].Loaded? ==> s.pcs[t].v == s.data[s.pcs[t].n]
  }

  ghost predicate Inv(s: State, init: seq<int>) {
    && WellFormed(s) && |s.data| == |init|
    && LocksOk(s) && HoldersExist(s) && OrderOk(s) && NoOvertaking(s) && DataOk(s, init) && LoadsOk(s)
  }

  lemma InitInv(s: State)
    requires Init(s)
    ensures Inv(s, s.data)
  {
  }

  /** Two threads never hold the same node. */
  lemma MutualExclusion(s: State, init: seq<int>, t: nat, u: nat, k: nat)
    requires Inv(s, init) && t < |s.pcs| && u < |s.pcs| && k < |s.locks|
    requires s.pcs[t].Holds(k) && s.pcs[u].Holds(k)
    ensures t == u
  {
    assert s.locks[k] == Held(t) && s.locks[k] == Held(u);
  }

  lemma StepLocks(s: State, init: seq<int>, t: nat)
    requires Inv(s, init) && Enabled(s, t)
    ensures var s' := Next(s, t); WellFormed(s') && LocksOk(s') && HoldersExist(s')
  {
    var s' := Next(s, t);
    forall k, u | 0 <= k < |s'.locks| && 0 <= u < |s'.pcs|
      ensures s'.locks[k] == Held(u) <==> s'.pcs[u].Holds(k)
    {
      assert s.locks[k] == Held(u) <==> s.pcs[u].Holds(k);
      assert s.locks[k] == Held(t) <==> s.pcs[t].Holds(k);
    }
  }

  lemma StepOrder(s: State, init: seq<int>, t: nat)
    requires Inv(s, init) && Enabled(s, t)
    ensures OrderOk(Next(s, t))
  {
    var s' := Next(s, t);
    forall u | 0 <= u < |s'.pcs| && !s'.pcs[u].Begin?
      ensures u in s'.order
    {
      if s.pcs[t].Begin? && u == t { assert s'.order[|s.order|] == t; }
    }
  }

  /** A thread ahead of `t` holds its lowest node, so it is not on a node `t` is about to lock. */
  lemma AheadOfFreeNode(s: State, init: seq<int>, u: nat, k: nat)
    requires Inv(s, init) && u < |s.pcs| && !s.pcs[u].Begin? && !s.pcs[u].Done?
    requires k < |s.locks| && s.locks[k] == Free
    ensures s.pcs[u].Lowest() != k
  {
    assert s.locks[k] == Held(u) <==> s.pcs[u].Holds(k);
  }

  lemma StepNoOvertaking(s: State, init: seq<int>, t: nat)
    requires Inv(s, init) && Enabled(s, t)
    ensures var s' := Next(s, t); OrderOk(s') && NoOvertaking(s')
  {
    StepOrder(s, init, t);
    var s' := Next(s, t);
    forall i, j | 0 <= i < j < |s'.order|
      ensures Ahead(s'.pcs[s'.order[i]], s'.pcs[s'.order[j]])
    {
      var a, b := s'.order[i], s'.order[j];
      assert a == s.order[i] && !s.pcs[a].Begin?;
      if j == |s.order| {
        if !s.pcs[a].Done? { AheadOfFreeNode(s, init, a, 0); }
      } else {
        assert Ahead(s.pcs[a], s.pcs[b]);
        if b == t && s.pcs[t].At? && !s.pcs[a].Done? && s.pcs[t].p + 1 < |s.locks| {
          AheadOfFreeNode(s, init, a, s.pcs[t].p + 1);
        }
      }
    }
  }

  lemma StartedAt(s: State, init: seq<int>, t: nat) returns (i: nat)
    requires Inv(s, init) && t < |s.pcs| && !s.pcs[t].Begin?
    ensures i < |s.order| && s.order[i] == t
  {
    i :| 0 <= i < |s.order| && s.order[i] == t;
  }

  /** The thread on a node finds it raised by exactly the number of threads that started before it. */
  lemma OnNodeCount(s: State, init: seq<int>, i: nat, n: nat)
    requires Inv(s, init) && i < |s.order| && 1 <= n < |s.data|
    requires var pc := s.pcs[s.order[i]]; pc == Entered(n) || (pc.Loaded? && pc.n == n)
    ensures s.data[n] == init[n] + i
  {
    var pc := s.pcs[s.order[i]];
    assert !pc.Passed(n);
    if i > 0 {
      assert Ahead(s.pcs[s.order[i - 1]], pc);
      assert s.pcs[s.order[i - 1]].Passed(n);
    }
  }

  lemma StepData(s: State, init: seq<int>, t: nat)
    requires Inv(s, init) && Enabled(s, t)
    ensures var s' := Next(s, t); OrderOk(s') && DataOk(s', init)
  {
    StepOrder(s, init, t);
    var s' := Next(s, t);
    if s.pcs[t].Loaded? {
      var n := s.pcs[t].n;
      var me := StartedAt(s, init, t);
      OnNodeCount(s, init, me, n);
      assert s'.data[n] == init[n] + me + 1;
    }
    forall k, i | 0 <= k < |init| && 0 <= i < |s'.order|
      ensures s'.pcs[s'.order[i]].Passed(k) <==> i < s'.data[k] - init[k]
    {
      if i < |s.order| {
        assert s.pcs[s.order[i]].Passed(k) <==> i < s.data[k] - init[k];
      }
    }
  }

  lemma StepLoads(s: State, init: seq<int>, t: nat)
    requires Inv(s, init) && Enabled(s, t)
    ensures var s' := Next(s, t); WellFormed(s') && LoadsOk(s')
  {
    var s' := Next(s, t);
    if s.pcs[t].Loaded? {
      forall u | 0 <= u < |s.pcs| && u != t && s.pcs[u].Loaded?
        ensures s.pcs[u].n != s.pcs[t].n
      {
        if s.pcs[u].n == s.pcs[t].n { MutualExclusion(s, init, t, u, s.pcs[t].n); }
      }
    }
  }

  lemma {:induction false} StepKeepsInv(s: State, init: seq<int>, t: nat)
    requires Inv(s, init) && Enabled(s, t)
    ensures Inv(Next(s, t), init)
  {
    StepLocks(s, init, t);
    StepNoOvertaking(s, init, t);
    StepData(s, init, t);
    StepLoads(s, init, t);
  }

  // ----- Runs -----

  /** A run: the states it goes through and the thread that makes each step. */
  datatype Run = Run(states: seq<State>, who: seq<nat>)

  ghost predicate StepsAt(r: Run, k: nat)
    requires k < |r.who| && |r.states| == |r.who| + 1
  {
    WellFormed(r.states[k]) && Enabled(r.states[k], r.who[k]) && r.states[k + 1] == Next(r.states[k], r.who[k])
  }

  ghost predicate IsRun(r: Run) {
    && |r.states| == |r.who| + 1
    && Init(r.states[0])
    && forall k :: 0 <= k < |r.who| ==> StepsAt(r, k)
  }

  lemma {:induction false} RunInv(r: Run, k: nat)
    requires IsRun(r) && k < |r.states|
    ensures Inv(r.states[k], r.states[0].data)
    ensures |r.states[k].pcs| == |r.states[0].pcs|
  {
    if k == 0 {
      InitInv(r.states[0]);
    } else {
      RunInv(r, k - 1);
      assert StepsAt(r, k - 1);
      StepKeepsInv(r.states[k - 1], r.states[0].data, r.who[k - 1]);
    }
  }

  /** What a thread holds: nothing, one node, or two adjacent nodes. */
  predicate HoldsAtMostTwoAdjacent(pc: Pc, len: nat) {
    || (forall k :: 0 <= k < len ==> !pc.Holds(k))
    || (exists a :: 0 <= a < len && pc.Holds(a) && forall k :: 0 <= k < len && pc.Holds(k) ==> k == a || k == a + 1)
  }

  /**
   Safety in every reachable state: one holder per lock and the lock table knows who;
   nothing, one node or two adjacent ones per thread; nobody overtakes.
   */
  lemma Safety(r: Run, k: nat)
    requires IsRun(r) && k < |r.states|
    ensures var s := r.states[k];
            && (forall n, t, u :: 0 <= n < |s.locks| && 0 <= t < |s.pcs| && 0 <= u < |s.pcs| && s.pcs[t].Holds(n) && s.pcs[u].Holds(n) ==> t == u)
            && (forall n :: 0 <= n < |s.locks| ==> (s.locks[n] == Free <==> forall t :: 0 <= t < |s.pcs| ==> !s.pcs[t].Holds(n)))
            && (forall t :: 0 <= t < |s.pcs| ==> HoldsAtMostTwoAdjacent(s.pcs[t], |s.locks|))
            && (forall i, j :: 0 <= i < j < |s.order| ==> s.order[i] < |s.pcs| && s.order[j] < |s.pcs| && Ahead(s.pcs[s.order[i]], s.pcs[s.order[j]]))
  {
    RunInv(r, k);
    var s, init := r.states[k], r.states[0].data;
    forall n, t, u | 0 <= n < |s.locks| && 0 <= t < |s.pcs| && 0 <= u < |s.pcs| && s.pcs[t].Holds(n) && s.pcs[u].Holds(n)
      ensures t == u
    {
      MutualExclusion(s, init, t, u, n);
    }
    forall n | 0 <= n < |s.locks|
      ensures s.locks[n] == Free <==> forall t :: 0 <= t < |s.pcs| ==> !s.pcs[t].Holds(n)
    {
      if s.locks[n].Held? { assert s.pcs[s.locks[n].owner].Holds(n); }
    }
    forall t | 0 <= t < |s.pcs|
      ensures HoldsAtMostTwoAdjacent(s.pcs[t], |s.locks|)
    {
      var pc := s.pcs[t];
      if !pc.Begin? && !pc.Done? { assert pc.Holds(pc.Lowest()); }
    }
  }

  lemma {:induction false} OrderOnlyGrows(r: Run, k: nat, l: nat)
    requires IsRun(r) && k <= l < |r.states|
    ensures r.states[k].order <= r.states[l].order
    decreases l
  {
    if k < l {
      OrderOnlyGrows(r, k, l - 1);
      assert StepsAt(r, l - 1);
    }
  }

  /**
   Convoy: the thread that is `i`th at the head reads, on every node it enters, the initial value plus `i`.
   So the interleaved traversals see what traversals one after the other would.
   */
  lemma EachReadsItsTurn(r: Run, k: nat, i: nat)
    requires IsRun(r) && k < |r.states| && i < |r.states[k].order|
    ensures r.states[k].order[i] < |r.states[k].pcs|
    ensures var pc := r.states[k].pcs[r.states[k].order[i]];
            pc.Loaded? ==> pc.n < |r.states[0].data| && pc.v == r.states[0].data[pc.n] + i
  {
    RunInv(r, k);
    var s := r.states[k];
    var pc := s.pcs[s.order[i]];
    if pc.Loaded? { OnNodeCount(s, r.states[0].data, i, pc.n); }
  }

  // ----- Progress -----

  ghost predicate AllDone(s: State) {
    forall t :: 0 <= t < |s.pcs| ==> s.pcs[t].Done?
  }

  /** The first thread in the order that has not finished. */
  lemma {:induction false} FrontRunner(s: State, init: seq<int>, i: nat) returns (j: nat)
    requires Inv(s, init) && i < |s.order| && !s.pcs[s.order[i]].Done?
    ensures j <= i && !s.pcs[s.order[j]].Done? && forall l :: 0 <= l < j ==> s.pcs[s.order[l]].Done?
  {
    if i > 0 && !s.pcs[s.order[i - 1]].Done? {
      j := FrontRunner(s, init, i - 1);
    } else {
      j := i;
      forall l | 0 <= l < j
        ensures s.pcs[s.order[l]].Done?
      {
        if l < i - 1 { assert Ahead(s.pcs[s.order[l]], s.pcs[s.order[i - 1]]); }
      }
    }
  }

  lemma NobodyThere(s: State, init: seq<int>, n: nat)
    requires Inv(s, init) && n < |s.locks|
    requires forall t :: 0 <= t < |s.pcs| ==> !s.pcs[t].Holds(n)
    ensures s.locks[n] == Free
  {
  }

  /** Nobody else is on the node after the front runner's, so it can go on. */
  lemma FrontRunnerMoves(s: State, init: seq<int>, j: nat)
    requires Inv(s, init) && j < |s.order| && !s.pcs[s.order[j]].Done?
    requires forall l :: 0 <= l < j ==> s.pcs[s.order[l]].Done?
    ensures Enabled(s, s.order[j])
  {
    var t := s.order[j];
    if s.pcs[t].At? && s.pcs[t].p + 1 < |s.locks| {
      var n := s.pcs[t].p + 1;
      forall u | 0 <= u < |s.pcs|
        ensures !s.pcs[u].Holds(n)
      {
        if !s.pcs[u].Begin? {
          var l := StartedAt(s, init, u);
          if l > j { assert Ahead(s.pcs[t], s.pcs[u]); }
        }
      }
      NobodyThere(s, init, n);
    }
  }

  /** No deadlock: as long as a thread is unfinished, some thread can step. */
  lemma NotStuck(s: State, init: seq<int>) returns (t: nat)
    requires Inv(s, init) && !AllDone(s)
    ensures Enabled(s, t)
  {
    var u :| 0 <= u < |s.pcs| && !s.pcs[u].Done?;
    if i :| 0 <= i < |s.order| && !s.pcs[s.order[i]].Done? {
      var j := FrontRunner(s, init, i);
      FrontRunnerMoves(s, init, j);
      t := s.order[j];
    } else {
      forall v | 0 <= v < |s.pcs|
        ensures !s.pcs[v].Holds(0)
      {
        if !s.pcs[v].Begin? { var i := StartedAt(s, init, v); }
      }
      if !s.pcs[u].Begin? { var i := StartedAt(s, init, u); }
      NobodyThere(s, init, 0);
      t := u;
    }
  }

  /** How many steps a thread has left. */
  function Left(pc: Pc, len: nat): nat
    requires pc.InList(len) && len >= 1
  {
    match pc
    case Begin => 4 * (len - 1) + 2
    case At(p) => 4 * (len - 1 - p) + 1
    case Both(p) => 4 * (len - 1 - p)
    case Entered(n) => 4 * (len - 1 - n) + 3
    case Loaded(n, _) => 4 * (len - 1 - n) + 2
    case Done => 0
  }

  function TotalLeft(pcs: seq<Pc>, len: nat): nat
    requires len >= 1 && forall t :: 0 <= t < |pcs| ==> pcs[t].InList(len)
  {
    if pcs == [] then 0 else Left(pcs[0], len) + TotalLeft(pcs[1..], len)
  }

  lemma {:induction false} TotalLeftUpdate(pcs: seq<Pc>, len: nat, t: nat, pc: Pc)
    requires len >= 1 && t < |pcs| && pc.InList(len) && forall t :: 0 <= t < |pcs| ==> pcs[t].InList(len)
    ensures TotalLeft(pcs[t := pc], len) == TotalLeft(pcs, len) - Left(pcs[t], len) + Left(pc, len)
  {
    var pcs' := pcs[t := pc];
    if t == 0 {
      assert pcs'[1..] == pcs[1..];
    } else {
      assert pcs'[1..] == pcs[1..][t - 1 := pc];
      TotalLeftUpdate(pcs[1..], len, t - 1, pc);
    }
  }

  lemma {:induction false} TotalLeftInitially(pcs: seq<Pc>, len: nat)
    requires len >= 1 && forall t :: 0 <= t < |pcs| ==> pcs[t] == Begin
    ensures TotalLeft(pcs, len) == |pcs| * (4 * (len - 1) + 2)
  {
    if pcs != [] {
      TotalLeftInitially(pcs[1..], len);
      Distribute(|pcs|, 4 * (len - 1) + 2);
    }
  }

  lemma Distribute(n: nat, c: nat)
    requires n > 0
    ensures n * c == c + (n - 1) * c
  {
  }

  lemma {:induction false} NothingLeftMeansDone(pcs: seq<Pc>, len: nat)
    requires len >= 1 && forall t :: 0 <= t < |pcs| ==> pcs[t].InList(len)
    ensures TotalLeft(pcs, len) == 0 <==> forall t :: 0 <= t < |pcs| ==> pcs[t].Done?
  {
    if pcs != [] {
      NothingLeftMeansDone(pcs[1..], len);
      assert forall t :: 0 <= t < |pcs[1..]| ==> pcs[1..][t] == pcs[t + 1];
      if forall t :: 0 <= t < |pcs[1..]| ==> pcs[1..][t].Done? {
        assert forall t :: 0 < t < |pcs| ==> pcs[t] == pcs[1..][t - 1];
      }
    }
  }

  lemma EveryStepCounts(s: State, init: seq<int>, t: nat)
    requires Inv(s, init) && Enabled(s, t)
    ensures WellFormed(Next(s, t))
    ensures TotalLeft(Next(s, t).pcs, |s.locks|) == TotalLeft(s.pcs, |s.locks|) - 1
    ensures |Next(s, t).locks| == |s.locks|
  {
    StepLocks(s, init, t);
    TotalLeftUpdate(s.pcs, |s.locks|, t, Next(s, t).pcs[t]);
  }

  lemma {:induction false} StepsLeft(r: Run, k: nat)
    requires IsRun(r) && k < |r.states|
    ensures |r.states[k].locks| == |r.states[0].locks| && WellFormed(r.states[k])
    ensures TotalLeft(r.states[k].pcs, |r.states[k].locks|) + k == |r.states[0].pcs| * (4 * (|r.states[0].locks| - 1) + 2)
  {
    RunInv(r, k);
    if k == 0 {
      TotalLeftInitially(r.states[0].pcs, |r.states[0].locks|);
    } else {
      StepsLeft(r, k - 1);
      RunInv(r, k - 1);
      assert StepsAt(r, k - 1);
      EveryStepCounts(r.states[k - 1], r.states[0].data, r.who[k - 1]);
    }
  }

  /**
   Progress: no run is longer than four steps per thread and node plus two per thread at the ends,
   and a run that cannot be continued has finished every thread, in exactly that many steps.
   */
  lemma RunsFinish(r: Run)
    requires IsRun(r)
    ensures var s0, s := r.states[0], r.states[|r.who|];
            var bound := |s0.pcs| * (4 * (|s0.locks| - 1) + 2);
            && WellFormed(s) && |r.who| <= bound
            && (AllDone(s) <==> |r.who| == bound)
            && ((forall t: nat :: !Enabled(s, t)) <==> AllDone(s))
  {
    var s := r.states[|r.who|];
    StepsLeft(r, |r.who|);
    RunInv(r, |r.who|);
    NothingLeftMeansDone(s.pcs, |s.locks|);
    if !AllDone(s) {
      var t := NotStuck(s, r.states[0].data);
    }
  }

  // ----- Conservation -----

  ghost function Members(order: seq<nat>): set<nat> {
    set t | t in order
  }

  lemma {:induction false} DistinctCount(order: seq<nat>)
    requires forall i, j :: 0 <= i < j < |order| ==> order[i] != order[j]
    ensures |Members(order)| == |order|
  {
    if order != [] {
      var front, last := order[..|order| - 1], order[|order| - 1];
      DistinctCount(front);
      assert Members(order) == Members(front) + {last};
    }
  }

  /** A set that has exactly the numbers below `n` has `n` elements. */
  lemma {:induction false} RangeCount(ts: set<nat>, n: nat)
    requires forall t: nat :: t in ts <==> t < n
    ensures |ts| == n
  {
    if n > 0 {
      RangeCount(ts - {n - 1}, n - 1);
    } else {
      assert ts == {};
    }
  }

  lemma AllStartedOnce(s: State, init: seq<int>)
    requires Inv(s, init) && AllDone(s)
    ensures |s.order| == |s.pcs|
  {
    DistinctCount(s.order);
    RangeCount(Members(s.order), |s.pcs|);
  }

  /** Every completed run of T threads has raised each node by exactly T, and left the head alone. */
  lemma Conservation(r: Run)
    requires IsRun(r) && AllDone(r.states[|r.who|])
    ensures var s0, s := r.states[0], r.states[|r.who|];
            && |s.data| == |s0.data|
            && s.data[0] == s0.data[0]
            && forall k :: 1 <= k < |s.data| ==> s.data[k] == s0.data[k] + |s0.pcs|
  {
    RunInv(r, |r.who|);
    var s, init := r.states[|r.who|], r.states[0].data;
    AllStartedOnce(s, init);
    forall k | 1 <= k < |s.data|
      ensures s.data[k] == init[k] + |s.pcs|
    {
      if s.order != [] { assert s.pcs[s.order[|s.order| - 1]].Passed(k); }
    }
  }
}

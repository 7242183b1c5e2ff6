/**
 Exactly what the log of an instrumented function holds after any run, told by the stores the
 program has executed: a byte is logged at the first store into the tracked range that starts
 less than eight bytes before it, with the value it has then.
 */
module InstrumentedLog {
  import opened Bytes
  import opened UndoLog
  import opened Instrumentation
  import opened InstrumentedRuns
  import opened InstrumentedUndo

  /** The store starts in the tracked range and less than eight bytes before `a`. */
  ghost predicate NearTo(env: Env, e: Event, a: nat) {
    env.Tracked(e.At()) && e.At() <= a < e.At() + 8
  }

  /** The first store near `a`, or the number of stores. */
  ghost function FirstNear(env: Env, stores: seq<Event>, a: nat): (k: nat)
    ensures k <= |stores|
    decreases |stores|
  {
    if stores == [] then 0
    else
      var n := |stores| - 1;
      var k := FirstNear(env, stores[..n], a);
      if k < n || NearTo(env, stores[n], a) then k else n + 1
  }

  /** Every byte from `from` to `to` has a near store among the first `j + 1`. */
  ghost predicate NearBy(env: Env, stores: seq<Event>, j: nat, from: nat, to: nat) {
    forall a: nat :: from <= a < to ==> FirstNear(env, stores, a) <= j
  }

  lemma {:induction false} FirstNearIs(env: Env, stores: seq<Event>, a: nat)
    ensures var k := FirstNear(env, stores, a);
            && (forall j :: 0 <= j < k ==> !NearTo(env, stores[j], a))
            && (k < |stores| ==> NearTo(env, stores[k], a))
    decreases |stores|
  {
    if stores != [] { FirstNearIs(env, stores[..|stores| - 1], a); }
  }

  lemma FirstNearSnoc(env: Env, stores: seq<Event>, e: Event, a: nat)
    ensures FirstNear(env, stores + [e], a) ==
            var k := FirstNear(env, stores, a); if k < |stores| || NearTo(env, e, a) then k else |stores| + 1
  {
    assert (stores + [e])[..|stores|] == stores;
  }

  /** The log, and the log as each executed store found it, hold byte `a` exactly from its first near store on, as it was then. */
  ghost predicate Exactly(env: Env, m: Machine, a: nat) {
    var k := FirstNear(env, m.stores, a);
    && (Covered(m.log, a) <==> k < |m.stores|)
    && (k < |m.stores| ==> Oldest(m.log, a) == m.stores[k].s.mem(a))
    && forall j :: 0 <= j < |m.stores| ==> (Covered(m.stores[j].log, a) <==> k <= j)
  }

  /** What checkMemory adds for byte `a`. */
  lemma {:induction false} CheckedHolds(env: Env, f: seq<Block>, m: Machine, ptr: nat, a: nat)
    requires env.On() && Inv(env, f, m)
    ensures var log := Checked(env, m, ptr).log;
            && (Covered(log, a) <==> Covered(m.log, a) || (env.Tracked(ptr) && ptr <= a < ptr + 8))
            && (Covered(log, a) ==> Oldest(log, a) == if Covered(m.log, a) then Oldest(m.log, a) else m.s.mem(a))
  {
    if env.Tracked(ptr) && m.last != Range(ptr, 8) {
      var e := Entry(ptr, Read(m.s.mem, ptr, 8));
      CoveredConcat(m.log, [e], a);
      assert Covered([e], a) <==> e.Has(a) by {
        if e.Has(a) { assert [e][0].Has(a); }
      }
      if Covered(m.log + [e], a) { OldestConcat(m.log, [e], a); }
    }
  }

  /** A store with the log as checkMemory has left it. */
  lemma {:induction false} StoreExactly(env: Env, i: Instr, m: Machine, m1: Machine, a: nat)
    requires i.Store? && Exactly(env, m, a) && m1.s == m.s && m1.stores == m.stores
    requires var near := NearTo(env, Event(i.ptr, i.bytes, m.s, m1.log), a);
             && (Covered(m1.log, a) <==> Covered(m.log, a) || near)
             && (Covered(m1.log, a) ==> Oldest(m1.log, a) == if Covered(m.log, a) then Oldest(m.log, a) else m.s.mem(a))
    ensures Exactly(env, Exec(env, i, m1), a)
  {
    var e := Event(i.ptr, i.bytes, m.s, m1.log);
    FirstNearSnoc(env, m.stores, e, a);
    assert NearTo(env, e, a) == NearTo(env, Event(i.ptr, i.bytes, m.s, m1.log), a);
  }

  lemma {:induction false} PassOneExactly(env: Env, alias: Alias, f: seq<Block>, i: Instr, stack: set<nat>, count: nat, m: Machine, a: nat)
    requires env.On() && Inv(env, f, m) && !Inserted(i) && Exactly(env, m, a)
    requires forall v :: v in stack ==> IsSlot(f, v)
    requires i.Store? ==> SoundStore(alias, f, Event(i.ptr, i.bytes, m.s, m.log))
    ensures Exactly(env, RunBlock(env, PassOne(alias, i, stack, count).block, m), a)
  {
    RunSingle(env, i, m);
    if i.Store? {
      var at := m.s.regs(i.ptr);
      if OnStack(alias, stack, i.ptr) {
        SkippedIsOutside(env, alias, f, stack, Event(i.ptr, i.bytes, m.s, m.log), m);
        StoreExactly(env, i, m, m, a);
      } else {
        var m0 := m.(casts := Set(m.casts, count, at));
        RunChecked(env, count, i, m);
        CheckedHolds(env, f, m0, at, a);
        StoreExactly(env, i, m, Checked(env, m0, at), a);
      }
    }
  }

  lemma {:induction false} PassExactly(env: Env, alias: Alias, f: seq<Block>, b: nat, k: nat, stack: set<nat>, count: nat,
                                       m: Machine, m0: Machine, a: nat)
    requires env.On() && StackOutside(env) && SingleAssignment(f) && AllPlain(f) && Inv(env, f, m) && Same(m, m0)
    requires b < |f| && k <= |f[b]| && (forall v :: v in stack ==> IsSlot(f, v)) && Exactly(env, m, a)
    requires AllSound(alias, f, RunBlock(env, f[b][k..], m0).stores)
    ensures Exactly(env, RunBlock(env, Pass(alias, f[b][k..], stack, count).block, m), a)
    decreases |f[b]| - k
  {
    if k < |f[b]| {
      var block := f[b][k..];
      var one := PassOne(alias, block[0], stack, count);
      assert block[1..] == f[b][k + 1..] && block[0] == f[b][k];
      if block[0].Store? { FirstStoreSound(env, alias, f, block, m0, m.log); }
      PassOneInv(env, alias, f, b, k, stack, count, m);
      PassOneSame(env, alias, block[0], stack, count, m, m0);
      PassOneExactly(env, alias, f, block[0], stack, count, m, a);
      RunConcat(env, one.block, Pass(alias, block[1..], one.stack, one.count).block, m);
      PassExactly(env, alias, f, b, k + 1, one.stack, one.count, RunBlock(env, one.block, m), Exec(env, block[0], m0), a);
    }
  }

  lemma {:induction false} BlockExactly(env: Env, alias: Alias, f: seq<Block>, b: nat, m: Machine, m0: Machine, a: nat)
    requires env.On() && StackOutside(env) && SingleAssignment(f) && AllPlain(f) && Inv(env, f, m) && Same(m, m0)
    requires b < |f| && AllSound(alias, f, RunBlock(env, f[b], m0).stores) && Exactly(env, m, a)
    ensures Exactly(env, RunBlock(env, Instrumented(alias, f)[b], m), a)
  {
    var stack, count := PassedBlock(alias, f, {}, 0, b);
    assert f[b][0..] == f[b];
    PassExactly(env, alias, f, b, 0, stack, count, m, m0, a);
  }

  /** The instrumented run and the plain one are in step, and the log is exact for byte `a`. */
  ghost predicate InStep(env: Env, alias: Alias, f: seq<Block>, b: nat, n: nat, m: Machine, m0: Machine, a: nat) {
    && env.On() && StackOutside(env) && SingleAssignment(f) && AllPlain(f) && Inv(env, f, m) && Same(m, m0)
    && AllSound(alias, f, RunFrom(env, f, b, n, m0).stores) && Exactly(env, m, a)
  }

  lemma {:induction false} FirstBlockExactly(env: Env, alias: Alias, f: seq<Block>, b: nat, n: nat, m: Machine, m0: Machine, a: nat)
    requires InStep(env, alias, f, b, n, m, m0, a) && n > 0 && b < |f|
    ensures var m' := RunBlock(env, Instrumented(alias, f)[b], m);
            InStep(env, alias, f, env.next(b, m'.s), n - 1, m', RunBlock(env, f[b], m0), a)
  {
    var m0' := RunBlock(env, f[b], m0);
    RunStoresGrow(env, f, env.next(b, m0'.s), n - 1, m0');
    PrefixSound(alias, f, m0'.stores, RunFrom(env, f, b, n, m0).stores);
    BlockKeepsInv(env, alias, f, b, m, m0);
    BlockExactly(env, alias, f, b, m, m0, a);
    RunOneBlock(env, f, b, n, m0);
  }

  lemma {:induction false} RunExactly(env: Env, alias: Alias, f: seq<Block>, b: nat, n: nat, m: Machine, m0: Machine, a: nat)
    requires InStep(env, alias, f, b, n, m, m0, a)
    ensures Exactly(env, RunFrom(env, Instrumented(alias, f), b, n, m), a)
    decreases n
  {
    if n > 0 && b < |f| {
      var m', m0' := RunBlock(env, Instrumented(alias, f)[b], m), RunBlock(env, f[b], m0);
      FirstBlockExactly(env, alias, f, b, n, m, m0, a);
      RunOneBlock(env, Instrumented(alias, f), b, n, m);
      RunExactly(env, alias, f, env.next(b, m'.s), n - 1, m', m0', a);
    }
  }

  lemma RunOneBlock(env: Env, f: seq<Block>, b: nat, n: nat, m: Machine)
    requires n > 0 && b < |f|
    ensures var m' := RunBlock(env, f[b], m); RunFrom(env, f, b, n, m) == RunFrom(env, f, env.next(b, m'.s), n - 1, m')
  {
  }

  lemma {:induction false} SameFirstNear(env: Env, a: nat, xs: seq<Event>, ys: seq<Event>)
    requires |xs| == |ys| && forall j :: 0 <= j < |xs| ==> xs[j].(log := []) == ys[j].(log := [])
    ensures FirstNear(env, xs, a) == FirstNear(env, ys, a)
    decreases |xs|
  {
    if xs != [] {
      var n := |xs| - 1;
      SameFirstNear(env, a, xs[..n], ys[..n]);
      assert xs[n].(log := []) == ys[n].(log := []);
    }
  }

  /**
   What undoing gives for any byte after any run, in terms of the uninstrumented program alone: the value
   the byte had at the first store that starts in the tracked range less than eight bytes before it, and if
   there was none, the value it has. So undoing is right exactly when that is the value at the call.
   */
  lemma {:induction false} UndoneIs(env: Env, alias: Alias, f: seq<Block>, b: nat, n: nat, m: Machine, a: nat)
    requires env.On() && StackOutside(env) && SingleAssignment(f) && AllPlain(f)
    requires m == Start(m.s.regs, m.s.mem, m.casts)
    requires AllSound(alias, f, RunFrom(env, f, b, n, m).stores)
    ensures var r := RunFrom(env, f, b, n, m);
            var k := FirstNear(env, r.stores, a);
            Undone(RunFrom(env, Instrumented(alias, f), b, n, m), a) == if k < |r.stores| then r.stores[k].s.mem(a) else r.s.mem(a)
  {
    var r0, r := RunFrom(env, f, b, n, m), RunFrom(env, Instrumented(alias, f), b, n, m);
    RunsTheSame(env, alias, f, b, n, m, m);
    RunExactly(env, alias, f, b, n, m, m, a);
    SameFirstNear(env, a, r.stores, r0.stores);
    var k := FirstNear(env, r.stores, a);
    if k < |r.stores| { assert r.stores[k].(log := []) == r0.stores[k].(log := []); }
  }

  /**
   When a store of any size into the tracked range finds all of its bytes logged, in every run: exactly
   when each byte past the first eight has a near store before it or in it.
   */
  lemma {:induction false} StoreLoggedIff(env: Env, alias: Alias, f: seq<Block>, b: nat, n: nat, m: Machine, j: nat)
    requires env.On() && StackOutside(env) && SingleAssignment(f) && AllPlain(f)
    requires m == Start(m.s.regs, m.s.mem, m.casts)
    requires AllSound(alias, f, RunFrom(env, f, b, n, m).stores)
    requires j < |RunFrom(env, Instrumented(alias, f), b, n, m).stores|
    requires env.Tracked(RunFrom(env, Instrumented(alias, f), b, n, m).stores[j].At())
    ensures var stores := RunFrom(env, Instrumented(alias, f), b, n, m).stores;
            var e := stores[j];
            CoveredOn(e.log, e.At(), e.bytes) <==> NearBy(env, stores, j, e.At() + 8, e.At() + e.bytes)
  {
    var stores := RunFrom(env, Instrumented(alias, f), b, n, m).stores;
    forall a: nat
      ensures Covered(stores[j].log, a) <==> FirstNear(env, stores, a) <= j
    {
      RunExactly(env, alias, f, b, n, m, m, a);
    }
    NearestCovered(env, stores, j);
  }

  lemma {:induction false} NearestCovered(env: Env, stores: seq<Event>, j: nat)
    requires j < |stores| && env.Tracked(stores[j].At())
    requires forall a: nat :: Covered(stores[j].log, a) <==> FirstNear(env, stores, a) <= j
    ensures var e := stores[j];
            CoveredOn(e.log, e.At(), e.bytes) <==> NearBy(env, stores, j, e.At() + 8, e.At() + e.bytes)
  {
    var e := stores[j];
    forall a: nat | e.At() <= a < e.At() + 8
      ensures Covered(e.log, a)
    {
      FirstNearIs(env, stores, a);
      assert NearTo(env, stores[j], a);
      assert FirstNear(env, stores, a) <= j;
    }
    if NearBy(env, stores, j, e.At() + 8, e.At() + e.bytes) {
      forall a | e.At() <= a < e.At() + e.bytes
        ensures Covered(e.log, a)
      {
        if a >= e.At() + 8 { assert FirstNear(env, stores, a) <= j; }
      }
    } else {
      var a: nat :| e.At() + 8 <= a < e.At() + e.bytes && FirstNear(env, stores, a) > j;
      assert !Covered(e.log, a);
    }
  }
}

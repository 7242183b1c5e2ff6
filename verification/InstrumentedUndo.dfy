/**
 What the log of an instrumented function is good for: undoing it gives every tracked byte
 the value it had when the function was called, as long as no store reaches past the eight
 bytes that are logged for it.
 */
module InstrumentedUndo {
  import opened Bytes
  import opened UndoLog
  import opened Instrumentation
  import opened InstrumentedRuns

  /** What replaying the log would leave at address `a`; see ReplayAt. */
  ghost function Undone(m: Machine, a: nat): Byte {
    if Covered(m.log, a) then Oldest(m.log, a) else m.s.mem(a)
  }

  /** If the store touches `a`, it starts in the tracked range and less than eight bytes before `a`. */
  ghost predicate Reaches(env: Env, e: Event, a: nat) {
    e.At() <= a < e.At() + e.bytes ==> env.Tracked(e.At()) && a < e.At() + 8
  }

  ghost predicate AllReach(env: Env, stores: seq<Event>, a: nat) {
    forall k :: 0 <= k < |stores| ==> Reaches(env, stores[k], a)
  }

  /** Nothing but stores changes tracked memory. */
  ghost predicate Quiet(env: Env) {
    forall op, s: State, a: nat :: env.Tracked(a) ==> env.effect(op, s)(a) == s.mem(a)
  }

  /** Logging what is there now does not change what undoing gives. */
  lemma {:induction false} CheckedUndone(env: Env, m: Machine, ptr: nat, a: nat)
    ensures Undone(Checked(env, m, ptr), a) == Undone(m, a)
  {
    if env.On() && env.Tracked(ptr) && m.last != Range(ptr, 8) {
      var e := Entry(ptr, Read(m.s.mem, ptr, 8));
      CoveredConcat(m.log, [e], a);
      assert Covered([e], a) <==> e.Has(a) by {
        if e.Has(a) { assert [e][0].Has(a); }
      }
      if Covered(m.log + [e], a) { OldestConcat(m.log, [e], a); }
    }
  }

  lemma {:induction false} StoreUndone(env: Env, i: Instr, m: Machine, a: nat)
    requires i.Store? && Reaches(env, Event(i.ptr, i.bytes, m.s, m.log), a)
    requires env.Tracked(m.s.regs(i.ptr)) ==> CoveredOn(m.log, m.s.regs(i.ptr), 8)
    ensures Undone(Exec(env, i, m), a) == Undone(m, a)
  {
  }

  lemma {:induction false} PassOneUndone(env: Env, alias: Alias, f: seq<Block>, i: Instr, stack: set<nat>, count: nat, m: Machine, a: nat)
    requires env.On() && Quiet(env) && Inv(env, f, m) && !Inserted(i) && env.Tracked(a)
    requires forall v :: v in stack ==> IsSlot(f, v)
    requires i.Store? ==> var e := Event(i.ptr, i.bytes, m.s, m.log); SoundStore(alias, f, e) && Reaches(env, e, a)
    ensures Undone(RunBlock(env, PassOne(alias, i, stack, count).block, m), a) == Undone(m, a)
  {
    RunSingle(env, i, m);
    if i.Store? {
      var at := m.s.regs(i.ptr);
      if OnStack(alias, stack, i.ptr) {
        SkippedIsOutside(env, alias, f, stack, Event(i.ptr, i.bytes, m.s, m.log), m);
        StoreUndone(env, i, m, a);
      } else {
        var m1 := m.(casts := Set(m.casts, count, at));
        RunChecked(env, count, i, m);
        CheckedCovers(env, f, m1, at);
        CheckedUndone(env, m1, at, a);
        StoreUndone(env, i, Checked(env, m1, at), a);
      }
    }
  }

  lemma {:induction false} FirstStoreReaches(env: Env, block: Block, m0: Machine, log: seq<Entry>, a: nat)
    requires block != [] && block[0].Store? && AllReach(env, RunBlock(env, block, m0).stores, a)
    ensures Reaches(env, Event(block[0].ptr, block[0].bytes, m0.s, log), a)
  {
    var m1 := Exec(env, block[0], m0);
    StoresGrow(env, block[1..], m1);
    var all, k := RunBlock(env, block, m0).stores, |m0.stores|;
    assert all[k] == m1.stores[k] && Reaches(env, all[k], a);
  }

  lemma {:induction false} PassUndone(env: Env, alias: Alias, f: seq<Block>, b: nat, k: nat, stack: set<nat>, count: nat,
                                      m: Machine, m0: Machine, a: nat)
    requires env.On() && StackOutside(env) && SingleAssignment(f) && AllPlain(f) && Inv(env, f, m) && Same(m, m0)
    requires b < |f| && k <= |f[b]| && (forall v :: v in stack ==> IsSlot(f, v)) && Quiet(env) && env.Tracked(a)
    requires AllSound(alias, f, RunBlock(env, f[b][k..], m0).stores) && AllReach(env, RunBlock(env, f[b][k..], m0).stores, a)
    ensures Undone(RunBlock(env, Pass(alias, f[b][k..], stack, count).block, m), a) == Undone(m, a)
    decreases |f[b]| - k
  {
    if k < |f[b]| {
      var block := f[b][k..];
      var one := PassOne(alias, block[0], stack, count);
      assert block[1..] == f[b][k + 1..] && block[0] == f[b][k];
      if block[0].Store? {
        FirstStoreSound(env, alias, f, block, m0, m.log);
        FirstStoreReaches(env, block, m0, m.log, a);
      }
      PassOneInv(env, alias, f, b, k, stack, count, m);
      PassOneSame(env, alias, block[0], stack, count, m, m0);
      PassOneUndone(env, alias, f, block[0], stack, count, m, a);
      RunConcat(env, one.block, Pass(alias, block[1..], one.stack, one.count).block, m);
      PassUndone(env, alias, f, b, k + 1, one.stack, one.count, RunBlock(env, one.block, m), Exec(env, block[0], m0), a);
    }
  }

  lemma {:induction false} BlockUndone(env: Env, alias: Alias, f: seq<Block>, b: nat, m: Machine, m0: Machine, a: nat)
    requires env.On() && StackOutside(env) && SingleAssignment(f) && AllPlain(f) && Inv(env, f, m) && Same(m, m0)
    requires b < |f| && AllSound(alias, f, RunBlock(env, f[b], m0).stores) && AllReach(env, RunBlock(env, f[b], m0).stores, a)
    requires Quiet(env) && env.Tracked(a)
    ensures Undone(RunBlock(env, Instrumented(alias, f)[b], m), a) == Undone(m, a)
  {
    var stack, count := PassedBlock(alias, f, {}, 0, b);
    assert f[b][0..] == f[b];
    PassUndone(env, alias, f, b, 0, stack, count, m, m0, a);
  }

  lemma PrefixReaches(env: Env, some: seq<Event>, all: seq<Event>, a: nat)
    requires some <= all && AllReach(env, all, a)
    ensures AllReach(env, some, a)
  {
    forall k | 0 <= k < |some|
      ensures Reaches(env, some[k], a)
    {
      assert Reaches(env, all[k], a);
    }
  }

  lemma {:induction false} RunUndone(env: Env, alias: Alias, f: seq<Block>, b: nat, n: nat, m: Machine, m0: Machine, a: nat)
    requires env.On() && StackOutside(env) && SingleAssignment(f) && AllPlain(f) && Inv(env, f, m) && Same(m, m0)
    requires AllSound(alias, f, RunFrom(env, f, b, n, m0).stores) && AllReach(env, RunFrom(env, f, b, n, m0).stores, a)
    requires Quiet(env) && env.Tracked(a)
    ensures Undone(RunFrom(env, Instrumented(alias, f), b, n, m), a) == Undone(m, a)
    decreases n
  {
    if n > 0 && b < |f| {
      var m', m0' := RunBlock(env, Instrumented(alias, f)[b], m), RunBlock(env, f[b], m0);
      RunStoresGrow(env, f, env.next(b, m0'.s), n - 1, m0');
      PrefixSound(alias, f, m0'.stores, RunFrom(env, f, b, n, m0).stores);
      PrefixReaches(env, m0'.stores, RunFrom(env, f, b, n, m0).stores, a);
      BlockKeepsInv(env, alias, f, b, m, m0);
      BlockUndone(env, alias, f, b, m, m0, a);
      RunUndone(env, alias, f, env.next(b, m'.s), n - 1, m', m0', a);
    }
  }

  /** After any number of blocks, undoing gives a tracked byte the value it had at the call. */
  lemma {:induction false} LogUndoesRun(env: Env, alias: Alias, f: seq<Block>, b: nat, n: nat, m: Machine, a: nat)
    requires env.On() && StackOutside(env) && SingleAssignment(f) && AllPlain(f) && Quiet(env)
    requires m == Start(m.s.regs, m.s.mem, m.casts) && env.Tracked(a)
    requires var stores := RunFrom(env, f, b, n, m).stores; AllSound(alias, f, stores) && AllReach(env, stores, a)
    ensures Undone(RunFrom(env, Instrumented(alias, f), b, n, m), a) == m.s.mem(a)
  {
    RunUndone(env, alias, f, b, n, m, m, a);
  }

  /** Eight bytes are logged whatever the size of the store: with an empty log, that is enough exactly for small stores. */
  lemma {:induction false} WideStoreEscapes(env: Env, alias: Alias, i: Instr, m: Machine)
    requires env.On() && i.Store? && env.Tracked(m.s.regs(i.ptr)) && m == Start(m.s.regs, m.s.mem, m.casts)
    ensures var g := Instrumented(alias, [[i]]);
            var stores := RunFrom(env, g, 0, 1, m).stores;
            && |stores| == 1
            && var e := stores[0];
            && e.At() == m.s.regs(i.ptr) && e.bytes == i.bytes
            && (CoveredOn(e.log, e.At(), e.bytes) <==> i.bytes <= 8)
  {
    var g, at := Instrumented(alias, [[i]]), m.s.regs(i.ptr);
    var one := PassOne(alias, i, {}, 0);
    assert [i][1..] == [] && Pass(alias, [i], {}, 0).block == one.block + [];
    assert g[0] == Pass(alias, [i], {}, 0).block == [BitCast(0, i.ptr), CheckMemory(0), i];
    RunChecked(env, 0, i, m);
    var log := [Entry(at, Read(m.s.mem, at, 8))];
    var e := Event(i.ptr, i.bytes, m.s, log);
    var m' := RunBlock(env, g[0], m);
    assert m.log + [log[0]] == log;
    assert Checked(env, m.(casts := Set(m.casts, 0, at)), at).log == log;
    assert m'.stores == m.stores + [e] == [e];
    assert RunFrom(env, g, 0, 1, m) == RunFrom(env, g, env.next(0, m'.s), 0, m');
    if i.bytes <= 8 {
      CoveredByLast([], log[0]);
      assert [] + [log[0]] == log;
    } else {
      assert !Covered(log, at + 8);
    }
  }
}

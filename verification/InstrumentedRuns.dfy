/**
 What an instrumented function does when it runs: the same as before, except that every store
 into the tracked range finds its bytes in the undo log.
 */
module InstrumentedRuns {
  import opened Bytes
  import opened UndoLog
  import opened Instrumentation

  // ----- Erasing -----

  predicate Inserted(i: Instr) {
    i.BitCast? || i.CheckMemory?
  }

  /** What the front end produces: nothing of what the pass inserts. */
  ghost predicate Plain(block: Block) {
    forall k :: 0 <= k < |block| ==> !Inserted(block[k])
  }

  ghost predicate AllPlain(f: seq<Block>) {
    forall b :: 0 <= b < |f| ==> Plain(f[b])
  }

  function Erase(block: Block): Block {
    if block == [] then []
    else (if Inserted(block[0]) then [] else [block[0]]) + Erase(block[1..])
  }

  lemma {:induction false} EraseConcat(a: Block, b: Block)
    ensures Erase(a + b) == Erase(a) + Erase(b)
    decreases |a|
  {
    if a == [] {
      assert a + b == b;
    } else {
      assert (a + b)[1..] == a[1..] + b;
      EraseConcat(a[1..], b);
    }
  }

  lemma {:induction false} ErasePassOne(alias: Alias, i: Instr, stack: set<nat>, count: nat)
    requires !Inserted(i)
    ensures Erase(PassOne(alias, i, stack, count).block) == [i]
  {
    var b := PassOne(alias, i, stack, count).block;
    if |b| == 3 {
      assert b[1..] == [CheckMemory(count), i] && b[1..][1..] == [i];
      assert Erase([i]) == [i];
    }
  }

  lemma {:induction false} ErasePass(alias: Alias, block: Block, stack: set<nat>, count: nat)
    requires Plain(block)
    ensures Erase(Pass(alias, block, stack, count).block) == block
    decreases |block|
  {
    if block != [] {
      var one := PassOne(alias, block[0], stack, count);
      ErasePassOne(alias, block[0], stack, count);
      ErasePass(alias, block[1..], one.stack, one.count);
      EraseConcat(one.block, Pass(alias, block[1..], one.stack, one.count).block);
    }
  }

  /** Without what was inserted, the instrumented function is the function. */
  lemma {:induction false} ErasedIsOriginal(alias: Alias, f: seq<Block>, stack: set<nat>, count: nat, b: nat)
    requires AllPlain(f) && b < |f|
    ensures Erase(PassAll(alias, f, stack, count)[b]) == f[b]
    decreases |f|
  {
    var r := Pass(alias, f[0], stack, count);
    if b == 0 {
      ErasePass(alias, f[0], stack, count);
    } else {
      ErasedIsOriginal(alias, f[1..], r.stack, r.count, b - 1);
    }
  }

  // ----- Running -----

  /** The program's own state; `live` are the stack slots it has allocated. */
  datatype State = State(regs: nat -> nat, mem: nat -> Byte, live: set<nat>)

  /** A store that was executed, the state it was executed in and the undo log at that moment. */
  datatype Event = Event(ptr: nat, bytes: nat, s: State, log: seq<Entry>) {

    function At(): nat {
      s.regs(ptr)
    }
  }

  datatype Machine = Machine(s: State, casts: nat -> nat, log: seq<Entry>, last: Range, stores: seq<Event>)

  /**
   The tracked range, the two switches, and whatever else decides what the program does: the address
   of a new stack slot, results, side effects, stored bytes and the block that runs next.
   */
  datatype Env = Env(
    startAddr: nat, endAddr: nat, startTracking: bool, cxlMode: bool,
    slot: (nat, State) -> nat,
    value: (nat, State) -> nat,
    effect: (nat, State) -> (nat -> Byte),
    data: (nat, State, nat) -> Byte,
    next: (nat, State) -> nat)
  {
    predicate Tracked(a: int) {
      startAddr <= a < endAddr
    }

    /** Stores are logged. */
    predicate On() {
      startTracking && cxlMode
    }
  }

  function Set(regs: nat -> nat, dst: nat, x: nat): nat -> nat {
    r => if r == dst then x else regs(r)
  }

  function ByteAfter(env: Env, s: State, at: nat, op: nat, bytes: nat, a: nat): Byte {
    if at <= a < at + bytes then env.data(op, s, a - at) else s.mem(a)
  }

  function Written(env: Env, s: State, at: nat, op: nat, bytes: nat): nat -> Byte {
    a => ByteAfter(env, s, at, op, bytes, a)
  }

  function Read(mem: nat -> Byte, at: nat, n: nat): (r: seq<Byte>)
    ensures |r| == n && forall i :: 0 <= i < n ==> r[i] == mem(at + i)
  {
    seq(n, i requires 0 <= i < n => mem(at + i))
  }

  /** checkMemory: eight bytes are logged if the pointer is in the tracked range, unless they were just logged. */
  function Checked(env: Env, m: Machine, ptr: nat): Machine {
    if env.On() && env.Tracked(ptr) && m.last != Range(ptr, 8) then
      m.(log := m.log + [Entry(ptr, Read(m.s.mem, ptr, 8))], last := Range(ptr, 8))
    else m
  }

  function Exec(env: Env, i: Instr, m: Machine): Machine {
    var s := m.s;
    match i
    case Alloca(dst) => m.(s := State(Set(s.regs, dst, env.slot(dst, s)), s.mem, s.live + {dst}))
    case Store(ptr, op, bytes) =>
      m.(s := s.(mem := Written(env, s, s.regs(ptr), op, bytes)), stores := m.stores + [Event(ptr, bytes, s, m.log)])
    case Other(dst, op) => m.(s := State(Set(s.regs, dst, env.value(op, s)), env.effect(op, s), s.live))
    case BitCast(site, ptr) => m.(casts := Set(m.casts, site, s.regs(ptr)))
    case CheckMemory(site) => Checked(env, m, m.casts(site))
  }

  function RunBlock(env: Env, block: Block, m: Machine): Machine
    decreases |block|
  {
    if block == [] then m else RunBlock(env, block[1..], Exec(env, block[0], m))
  }

  /** The next `n` blocks of the run that is about to enter block `b`; a run ends outside the function. */
  function RunFrom(env: Env, f: seq<Block>, b: nat, n: nat, m: Machine): Machine
    decreases n
  {
    if n == 0 || b >= |f| then m
    else
      var m' := RunBlock(env, f[b], m);
      RunFrom(env, f, env.next(b, m'.s), n - 1, m')
  }

  lemma {:induction false} RunConcat(env: Env, a: Block, b: Block, m: Machine)
    ensures RunBlock(env, a + b, m) == RunBlock(env, b, RunBlock(env, a, m))
    decreases |a|
  {
    if a == [] {
      assert a + b == b;
    } else {
      assert (a + b)[1..] == a[1..] + b;
      RunConcat(env, a[1..], b, Exec(env, a[0], m));
    }
  }

  /** The slots that are live after a block are those from before and the ones it allocates. */
  lemma {:induction false} LiveAfterBlock(env: Env, block: Block, m: Machine, v: nat)
    ensures v in RunBlock(env, block, m).s.live <==> v in m.s.live || Alloca(v) in block
    decreases |block|
  {
    if block != [] {
      LiveAfterBlock(env, block[1..], Exec(env, block[0], m), v);
      assert block == [block[0]] + block[1..];
    }
  }

  /** What the pass makes of a store that is not plainly to the stack. */
  lemma RunChecked(env: Env, count: nat, i: Instr, m: Machine)
    requires i.Store?
    ensures RunBlock(env, [BitCast(count, i.ptr), CheckMemory(count), i], m)
            == Exec(env, i, Checked(env, m.(casts := Set(m.casts, count, m.s.regs(i.ptr))), m.s.regs(i.ptr)))
  {
    var b := [BitCast(count, i.ptr), CheckMemory(count), i];
    var m1 := Exec(env, b[0], m);
    assert b[1..] == [CheckMemory(count), i] && b[1..][1..] == [i];
    assert m1.casts(count) == m.s.regs(i.ptr);
    assert RunBlock(env, b[1..], m1) == RunBlock(env, [i], Exec(env, CheckMemory(count), m1));
    RunSingle(env, i, Exec(env, CheckMemory(count), m1));
  }

  lemma RunSingle(env: Env, i: Instr, m: Machine)
    ensures RunBlock(env, [i], m) == Exec(env, i, m)
  {
    assert [i][1..] == [];
  }

  // ----- The program is not disturbed -----

  /** Same program state, and the same stores were executed in the same states. */
  ghost predicate Same(a: Machine, b: Machine) {
    && a.s == b.s && |a.stores| == |b.stores|
    && forall k :: 0 <= k < |a.stores| ==> a.stores[k].(log := []) == b.stores[k].(log := [])
  }

  lemma {:induction false} PassOneSame(env: Env, alias: Alias, i: Instr, stack: set<nat>, count: nat, m: Machine, m0: Machine)
    requires !Inserted(i) && Same(m, m0)
    ensures Same(RunBlock(env, PassOne(alias, i, stack, count).block, m), Exec(env, i, m0))
  {
    RunSingle(env, i, m);
    if i.Store? { RunChecked(env, count, i, m); }
  }

  lemma {:induction false} PassSame(env: Env, alias: Alias, block: Block, stack: set<nat>, count: nat, m: Machine, m0: Machine)
    requires Plain(block) && Same(m, m0)
    ensures Same(RunBlock(env, Pass(alias, block, stack, count).block, m), RunBlock(env, block, m0))
    decreases |block|
  {
    if block != [] {
      var one := PassOne(alias, block[0], stack, count);
      PassOneSame(env, alias, block[0], stack, count, m, m0);
      RunConcat(env, one.block, Pass(alias, block[1..], one.stack, one.count).block, m);
      PassSame(env, alias, block[1..], one.stack, one.count, RunBlock(env, one.block, m), Exec(env, block[0], m0));
    }
  }

  /** Block `b` of an instrumented function is block `b` passed with what was seen before it. */
  lemma {:induction false} PassedBlock(alias: Alias, f: seq<Block>, stack: set<nat>, count: nat, b: nat)
    returns (stack': set<nat>, count': nat)
    requires b < |f|
    ensures PassAll(alias, f, stack, count)[b] == Pass(alias, f[b], stack', count').block
    ensures forall v :: v in stack' ==> v in stack || IsSlot(f, v)
    decreases |f|
  {
    var r := Pass(alias, f[0], stack, count);
    if b == 0 {
      stack', count' := stack, count;
    } else {
      stack', count' := PassedBlock(alias, f[1..], r.stack, r.count, b - 1);
      PassedStack(alias, f[0], stack, count);
      forall v | v in stack'
        ensures v in stack || IsSlot(f, v)
      {
        if IsSlot(f[1..], v) {
          var c :| 0 <= c < |f[1..]| && Alloca(v) in f[1..][c];
          assert Alloca(v) in f[c + 1];
        } else if v !in stack {
          assert Alloca(v) in f[0];
        }
      }
    }
  }

  ghost predicate IsSlot(f: seq<Block>, v: nat) {
    exists b :: 0 <= b < |f| && Alloca(v) in f[b]
  }

  lemma {:induction false} PassedStack(alias: Alias, block: Block, stack: set<nat>, count: nat)
    ensures forall v :: v in Pass(alias, block, stack, count).stack ==> v in stack || Alloca(v) in block
    decreases |block|
  {
    if block != [] {
      var one := PassOne(alias, block[0], stack, count);
      PassedStack(alias, block[1..], one.stack, one.count);
    }
  }

  /** At the end of any number of blocks the instrumented program is where the original is. */
  lemma {:induction false} RunsTheSame(env: Env, alias: Alias, f: seq<Block>, b: nat, n: nat, m: Machine, m0: Machine)
    requires AllPlain(f) && Same(m, m0)
    ensures Same(RunFrom(env, Instrumented(alias, f), b, n, m), RunFrom(env, f, b, n, m0))
    decreases n
  {
    if n > 0 && b < |f| {
      var g := Instrumented(alias, f);
      var stack, count := PassedBlock(alias, f, {}, 0, b);
      PassSame(env, alias, f[b], stack, count, m, m0);
      var m', m0' := RunBlock(env, g[b], m), RunBlock(env, f[b], m0);
      RunsTheSame(env, alias, f, env.next(b, m'.s), n - 1, m', m0');
    }
  }

  // ----- Every tracked store is logged first -----

  ghost predicate CoveredOn(log: seq<Entry>, at: nat, n: nat) {
    forall a :: at <= a < at + n ==> Covered(log, a)
  }

  /** If the store starts in the tracked range, the log covers its first eight bytes, or all if there are fewer. */
  ghost predicate LoggedFirst(env: Env, e: Event) {
    env.Tracked(e.At()) ==> CoveredOn(e.log, e.At(), if e.bytes < 8 then e.bytes else 8)
  }

  /**
   What the alias analysis and SSA form promise about an executed store: a slot it stores to, or must
   alias, has been allocated and is where it stores.
   */
  ghost predicate SoundStore(alias: Alias, f: seq<Block>, e: Event) {
    forall v :: IsSlot(f, v) && Matches(alias, v, e.ptr) ==> v in e.s.live && e.s.regs(v) == e.At()
  }

  ghost predicate AllSound(alias: Alias, f: seq<Block>, stores: seq<Event>) {
    forall k :: 0 <= k < |stores| ==> SoundStore(alias, f, stores[k])
  }

  /** Only its alloca gives a slot its address. */
  ghost predicate SingleAssignment(f: seq<Block>) {
    forall b, k :: 0 <= b < |f| && 0 <= k < |f[b]| && f[b][k].Other? ==> !IsSlot(f, f[b][k].dst)
  }

  /** The stack is outside the tracked range. */
  ghost predicate StackOutside(env: Env) {
    forall v, s :: !env.Tracked(env.slot(v, s))
  }

  ghost predicate Inv(env: Env, f: seq<Block>, m: Machine) {
    && CoveredOn(m.log, m.last.addr, m.last.bytes)
    && (forall v :: v in m.s.live ==> IsSlot(f, v) && !env.Tracked(m.s.regs(v)))
    && (forall k :: 0 <= k < |m.stores| ==> LoggedFirst(env, m.stores[k]))
  }

  lemma CoveredByLast(log: seq<Entry>, e: Entry)
    ensures CoveredOn(log + [e], e.addr, |e.content|)
  {
    forall a | e.addr <= a < e.addr + |e.content|
      ensures Covered(log + [e], a)
    {
      assert (log + [e])[|log|].Has(a);
    }
  }

  /** checkMemory keeps what is covered, and covers eight bytes at a tracked pointer. */
  lemma {:induction false} CheckedCovers(env: Env, f: seq<Block>, m: Machine, ptr: nat)
    requires Inv(env, f, m) && env.On()
    ensures Inv(env, f, Checked(env, m, ptr))
    ensures env.Tracked(ptr) ==> CoveredOn(Checked(env, m, ptr).log, ptr, 8)
  {
    if env.Tracked(ptr) && m.last != Range(ptr, 8) {
      CoveredByLast(m.log, Entry(ptr, Read(m.s.mem, ptr, 8)));
    }
  }

  /** A store that finds its bytes covered, or is outside. */
  lemma StoreKeepsInv(env: Env, f: seq<Block>, i: Instr, m: Machine)
    requires i.Store? && Inv(env, f, m)
    requires env.Tracked(m.s.regs(i.ptr)) ==> CoveredOn(m.log, m.s.regs(i.ptr), 8)
    ensures Inv(env, f, Exec(env, i, m))
  {
  }

  /** A store the pass leaves alone is outside the tracked range. */
  lemma SkippedIsOutside(env: Env, alias: Alias, f: seq<Block>, stack: set<nat>, e: Event, m: Machine)
    requires Inv(env, f, m) && OnStack(alias, stack, e.ptr) && (forall v :: v in stack ==> IsSlot(f, v))
    requires SoundStore(alias, f, e) && e.s == m.s
    ensures !env.Tracked(e.At())
  {
    var v :| v in stack && Matches(alias, v, e.ptr);
    assert IsSlot(f, v);
  }

  lemma {:induction false} PassOneInv(env: Env, alias: Alias, f: seq<Block>, b: nat, k: nat, stack: set<nat>, count: nat, m: Machine)
    requires env.On() && StackOutside(env) && SingleAssignment(f) && Inv(env, f, m)
    requires b < |f| && k < |f[b]| && !Inserted(f[b][k]) && (forall v :: v in stack ==> IsSlot(f, v))
    requires f[b][k].Store? ==> SoundStore(alias, f, Event(f[b][k].ptr, f[b][k].bytes, m.s, m.log))
    ensures Inv(env, f, RunBlock(env, PassOne(alias, f[b][k], stack, count).block, m))
    ensures forall v :: v in PassOne(alias, f[b][k], stack, count).stack ==> IsSlot(f, v)
  {
    var i := f[b][k];
    RunSingle(env, i, m);
    if i.Store? {
      var at := m.s.regs(i.ptr);
      if OnStack(alias, stack, i.ptr) {
        SkippedIsOutside(env, alias, f, stack, Event(i.ptr, i.bytes, m.s, m.log), m);
        StoreKeepsInv(env, f, i, m);
      } else {
        var m1 := m.(casts := Set(m.casts, count, at));
        RunChecked(env, count, i, m);
        CheckedCovers(env, f, m1, at);
        StoreKeepsInv(env, f, i, Checked(env, m1, at));
      }
    } else if i.Alloca? {
      assert IsSlot(f, i.dst);
    }
  }

  lemma {:induction false} StoresGrow(env: Env, block: Block, m: Machine)
    ensures m.stores <= RunBlock(env, block, m).stores
    decreases |block|
  {
    if block != [] { StoresGrow(env, block[1..], Exec(env, block[0], m)); }
  }

  lemma {:induction false} RunStoresGrow(env: Env, f: seq<Block>, b: nat, n: nat, m: Machine)
    ensures m.stores <= RunFrom(env, f, b, n, m).stores
    decreases n
  {
    if n > 0 && b < |f| {
      var m' := RunBlock(env, f[b], m);
      StoresGrow(env, f[b], m);
      RunStoresGrow(env, f, env.next(b, m'.s), n - 1, m');
    }
  }

  /** If all stores of a run are sound, so is the one it starts with. */
  lemma {:induction false} FirstStoreSound(env: Env, alias: Alias, f: seq<Block>, block: Block, m0: Machine, log: seq<Entry>)
    requires block != [] && block[0].Store? && AllSound(alias, f, RunBlock(env, block, m0).stores)
    ensures SoundStore(alias, f, Event(block[0].ptr, block[0].bytes, m0.s, log))
  {
    var m1 := Exec(env, block[0], m0);
    StoresGrow(env, block[1..], m1);
    var all := RunBlock(env, block, m0).stores;
    var k := |m0.stores|;
    assert all[k] == m1.stores[k] && SoundStore(alias, f, all[k]);
  }

  lemma {:induction false} PassInv(env: Env, alias: Alias, f: seq<Block>, b: nat, k: nat, stack: set<nat>, count: nat,
                                   m: Machine, m0: Machine)
    requires env.On() && StackOutside(env) && SingleAssignment(f) && AllPlain(f) && Inv(env, f, m) && Same(m, m0)
    requires b < |f| && k <= |f[b]| && (forall v :: v in stack ==> IsSlot(f, v))
    requires AllSound(alias, f, RunBlock(env, f[b][k..], m0).stores)
    ensures Inv(env, f, RunBlock(env, Pass(alias, f[b][k..], stack, count).block, m))
    decreases |f[b]| - k
  {
    if k < |f[b]| {
      var block := f[b][k..];
      var one := PassOne(alias, block[0], stack, count);
      assert block[1..] == f[b][k + 1..] && block[0] == f[b][k];
      if block[0].Store? { FirstStoreSound(env, alias, f, block, m0, m.log); }
      PassOneInv(env, alias, f, b, k, stack, count, m);
      PassOneSame(env, alias, block[0], stack, count, m, m0);
      RunConcat(env, one.block, Pass(alias, block[1..], one.stack, one.count).block, m);
      PassInv(env, alias, f, b, k + 1, one.stack, one.count, RunBlock(env, one.block, m), Exec(env, block[0], m0));
    }
  }

  lemma {:induction false} BlockKeepsInv(env: Env, alias: Alias, f: seq<Block>, b: nat, m: Machine, m0: Machine)
    requires env.On() && StackOutside(env) && SingleAssignment(f) && AllPlain(f) && Inv(env, f, m) && Same(m, m0)
    requires b < |f| && AllSound(alias, f, RunBlock(env, f[b], m0).stores)
    ensures var m' := RunBlock(env, Instrumented(alias, f)[b], m);
            Inv(env, f, m') && Same(m', RunBlock(env, f[b], m0))
  {
    var stack, count := PassedBlock(alias, f, {}, 0, b);
    assert f[b][0..] == f[b];
    PassSame(env, alias, f[b], stack, count, m, m0);
    PassInv(env, alias, f, b, 0, stack, count, m, m0);
  }

  lemma {:induction false} RunKeepsInv(env: Env, alias: Alias, f: seq<Block>, b: nat, n: nat, m: Machine, m0: Machine)
    requires env.On() && StackOutside(env) && SingleAssignment(f) && AllPlain(f) && Inv(env, f, m) && Same(m, m0)
    requires AllSound(alias, f, RunFrom(env, f, b, n, m0).stores)
    ensures Inv(env, f, RunFrom(env, Instrumented(alias, f), b, n, m))
    decreases n
  {
    if n > 0 && b < |f| {
      var m', m0' := RunBlock(env, Instrumented(alias, f)[b], m), RunBlock(env, f[b], m0);
      RunStoresGrow(env, f, env.next(b, m0'.s), n - 1, m0');
      PrefixSound(alias, f, m0'.stores, RunFrom(env, f, b, n, m0).stores);
      BlockKeepsInv(env, alias, f, b, m, m0);
      RunKeepsInv(env, alias, f, env.next(b, m'.s), n - 1, m', m0');
    }
  }

  lemma PrefixSound(alias: Alias, f: seq<Block>, a: seq<Event>, all: seq<Event>)
    requires a <= all && AllSound(alias, f, all)
    ensures AllSound(alias, f, a)
  {
    forall k | 0 <= k < |a|
      ensures SoundStore(alias, f, a[k])
    {
      assert SoundStore(alias, f, all[k]);
    }
  }

  /** A function is called just after a snapshot: no log yet, no slots yet. */
  function Start(regs: nat -> nat, mem: nat -> Byte, casts: nat -> nat): Machine {
    Machine(State(regs, mem, {}), casts, [], Range(0, 0), [])
  }

  /**
   The instrumented function does what the function does, and whenever it stores into the tracked
   range, the undo log already covers the first eight bytes.
   */
  lemma {:induction false} TrackedStoresAreLogged(env: Env, alias: Alias, f: seq<Block>, b: nat, n: nat, m: Machine)
    requires env.On() && StackOutside(env) && SingleAssignment(f) && AllPlain(f)
    requires m == Start(m.s.regs, m.s.mem, m.casts)
    requires AllSound(alias, f, RunFrom(env, f, b, n, m).stores)
    ensures var r := RunFrom(env, Instrumented(alias, f), b, n, m);
            && Same(r, RunFrom(env, f, b, n, m))
            && forall k :: 0 <= k < |r.stores| ==> LoggedFirst(env, r.stores[k])
  {
    RunsTheSame(env, alias, f, b, n, m, m);
    RunKeepsInv(env, alias, f, b, n, m, m);
  }
}

/**
 The compiler pass that puts a call of checkMemory before every store that is not plainly to
 the stack, and what the calls achieve when the instrumented function runs.

 Registers are SSA values. A cast that the pass inserts has a name of its own: the number of
 stores instrumented before it.
 */
module Instrumentation {
  datatype Instr =
    | Alloca(dst: nat)
    | Store(ptr: nat, op: nat, bytes: nat)
    | Other(dst: nat, op: nat)
    | BitCast(site: nat, ptr: nat)
    | CheckMemory(site: nat)

  type Block = seq<Instr>

  /** MustAlias, as the analysis answers it. */
  type Alias = (nat, nat) -> bool

  // ----- The pass -----

  /** The stored-to register is a stack slot seen so far or must alias one. */
  ghost predicate OnStack(alias: Alias, stack: set<nat>, ptr: nat) {
    exists v :: v in stack && Matches(alias, v, ptr)
  }

  predicate Matches(alias: Alias, v: nat, ptr: nat) {
    v == ptr || alias(v, ptr)
  }

  /** writesToStackLocation: the hash map is searched in whatever order it has. */
  method WritesToStackLocation(alias: Alias, ptr: nat, stackValues: map<nat, bool>) returns (result: bool)
    ensures result <==> exists v :: v in stackValues && stackValues[v] && Matches(alias, v, ptr)
  {
    var todo := stackValues.Keys;
    while todo != {}
      invariant todo <= stackValues.Keys
      invariant forall v :: v in stackValues && v !in todo && stackValues[v] ==> !Matches(alias, v, ptr)
      decreases |todo|
    {
      var v :| v in todo;
      if stackValues[v] {
        if v == ptr {
          assert Matches(alias, v, ptr);
          return true;
        } else if alias(v, ptr) {
          assert Matches(alias, v, ptr);
          return true;
        }
      }
      todo := todo - {v};
    }
    return false;
  }

  /** A block after the pass, the stack slots seen by then and the number of instrumented stores. */
  datatype Passed = Passed(block: Block, stack: set<nat>, count: nat)

  /** What becomes of one instruction. */
  ghost function PassOne(alias: Alias, i: Instr, stack: set<nat>, count: nat): Passed {
    match i
    case Store(ptr, _, _) =>
      if OnStack(alias, stack, ptr) then Passed([i], stack, count)
      else Passed([BitCast(count, ptr), CheckMemory(count), i], stack, count + 1)
    case Alloca(dst) => Passed([i], stack + {dst}, count)
    case _ => Passed([i], stack, count)
  }

  ghost function Pass(alias: Alias, block: Block, stack: set<nat>, count: nat): Passed
    decreases |block|
  {
    if block == [] then Passed([], stack, count)
    else
      var one := PassOne(alias, block[0], stack, count);
      var r := Pass(alias, block[1..], one.stack, one.count);
      r.(block := one.block + r.block)
  }

  /** The pass over the blocks in the order in which they are laid out. */
  ghost function PassAll(alias: Alias, f: seq<Block>, stack: set<nat>, count: nat): (g: seq<Block>)
    ensures |g| == |f|
    decreases |f|
  {
    if f == [] then []
    else
      var r := Pass(alias, f[0], stack, count);
      [r.block] + PassAll(alias, f[1..], r.stack, r.count)
  }

  ghost function Instrumented(alias: Alias, f: seq<Block>): (g: seq<Block>)
    ensures |g| == |f|
  {
    PassAll(alias, f, {}, 0)
  }

  // ----- Which stores are instrumented, and where everything goes -----

  predicate Earlier(b': nat, k': nat, b: nat, k: nat) {
    b' < b || (b' == b && k' < k)
  }

  /** An alloca of `v` is laid out before instruction `k` of block `b`. */
  ghost predicate SlotBefore(f: seq<Block>, b: nat, k: nat, v: nat) {
    exists b', k' :: 0 <= b' < |f| && 0 <= k' < |f[b']| && Earlier(b', k', b, k) && f[b'][k'] == Alloca(v)
  }

  /** A store whose pointer matches no alloca laid out before it. */
  ghost predicate Site(alias: Alias, f: seq<Block>, b: nat, k: nat)
    requires b < |f| && k < |f[b]|
  {
    f[b][k].Store? && forall v: nat :: SlotBefore(f, b, k, v) ==> !Matches(alias, v, f[b][k].ptr)
  }

  /** How many there are among the first `k` instructions of block `b`, and in the blocks before `b`. */
  ghost function SitesIn(alias: Alias, f: seq<Block>, b: nat, k: nat): nat
    requires b < |f| && k <= |f[b]|
  {
    if k == 0 then 0 else SitesIn(alias, f, b, k - 1) + if Site(alias, f, b, k - 1) then 1 else 0
  }

  ghost function SitesBefore(alias: Alias, f: seq<Block>, b: nat): nat
    requires b <= |f|
  {
    if b == 0 then 0 else SitesBefore(alias, f, b - 1) + SitesIn(alias, f, b - 1, |f[b - 1]|)
  }

  /**
   Instruction `k` of block `b` comes after those before it and what was put in front of them, and
   has the cast and the call in front of itself exactly if it is a site. `out` is the block from `shift` on.
   */
  ghost predicate InstrPlaced(alias: Alias, f: seq<Block>, b: nat, k: nat, out: Block, shift: nat)
    requires b < |f| && k < |f[b]|
  {
    var p, site := k + 2 * SitesIn(alias, f, b, k + 1) - shift, SitesBefore(alias, f, b) + SitesIn(alias, f, b, k);
    && 0 <= p < |out| && out[p] == f[b][k]
    && (Site(alias, f, b, k) ==> p >= 2 && out[p - 2] == BitCast(site, f[b][k].ptr) && out[p - 1] == CheckMemory(site))
  }

  ghost predicate BlockPlaced(alias: Alias, f: seq<Block>, b: nat, out: Block)
    requires b < |f|
  {
    |out| == |f[b]| + 2 * SitesIn(alias, f, b, |f[b]|) && RestPlaced(alias, f, b, 0, out, 0)
  }

  ghost predicate RestPlaced(alias: Alias, f: seq<Block>, b: nat, k: nat, out: Block, shift: nat)
    requires b < |f|
  {
    forall j :: k <= j < |f[b]| ==> InstrPlaced(alias, f, b, j, out, shift)
  }

  ghost predicate Placed(alias: Alias, f: seq<Block>, g: seq<Block>) {
    |g| == |f| && forall b :: 0 <= b < |f| ==> BlockPlaced(alias, f, b, g[b])
  }

  /** `stack` are the slots seen by instruction `k` of block `b`. */
  ghost predicate Knows(f: seq<Block>, b: nat, k: nat, stack: set<nat>) {
    forall v: nat :: v in stack <==> SlotBefore(f, b, k, v)
  }

  lemma {:induction false} SlotNext(f: seq<Block>, b: nat, k: nat, v: nat)
    requires b < |f| && k < |f[b]|
    ensures SlotBefore(f, b, k + 1, v) <==> SlotBefore(f, b, k, v) || f[b][k] == Alloca(v)
  {
    if SlotBefore(f, b, k + 1, v) {
      var b', k' :| 0 <= b' < |f| && 0 <= k' < |f[b']| && Earlier(b', k', b, k + 1) && f[b'][k'] == Alloca(v);
      assert Earlier(b', k', b, k) || (b' == b && k' == k);
    }
    if SlotBefore(f, b, k, v) {
      var b', k' :| 0 <= b' < |f| && 0 <= k' < |f[b']| && Earlier(b', k', b, k) && f[b'][k'] == Alloca(v);
      assert Earlier(b', k', b, k + 1);
    }
    if f[b][k] == Alloca(v) { assert Earlier(b, k, b, k + 1); }
  }

  lemma {:induction false} NextBlockKnows(f: seq<Block>, b: nat, stack: set<nat>)
    requires b < |f| && Knows(f, b, |f[b]|, stack)
    ensures Knows(f, b + 1, 0, stack)
  {
    forall v: nat
      ensures SlotBefore(f, b + 1, 0, v) <==> SlotBefore(f, b, |f[b]|, v)
    {
      if SlotBefore(f, b + 1, 0, v) {
        var b', k' :| 0 <= b' < |f| && 0 <= k' < |f[b']| && Earlier(b', k', b + 1, 0) && f[b'][k'] == Alloca(v);
        assert Earlier(b', k', b, |f[b]|);
      }
      if SlotBefore(f, b, |f[b]|, v) {
        var b', k' :| 0 <= b' < |f| && 0 <= k' < |f[b']| && Earlier(b', k', b, |f[b]|) && f[b'][k'] == Alloca(v);
        assert Earlier(b', k', b + 1, 0);
      }
    }
  }

  lemma {:induction false} NothingKnown(f: seq<Block>)
    ensures Knows(f, 0, 0, {})
  {
    forall v: nat
      ensures !SlotBefore(f, 0, 0, v)
    {
      if b', k' :| 0 <= b' < |f| && 0 <= k' < |f[b']| && Earlier(b', k', 0, 0) && f[b'][k'] == Alloca(v) { assert false; }
    }
  }

  /** One instruction, by what comes of it. */
  lemma {:induction false} PassOnePlaces(alias: Alias, f: seq<Block>, b: nat, k: nat, stack: set<nat>)
    requires b < |f| && k < |f[b]| && Knows(f, b, k, stack)
    ensures var i, c := f[b][k], SitesBefore(alias, f, b) + SitesIn(alias, f, b, k);
            var one := PassOne(alias, i, stack, c);
            && one.block == (if Site(alias, f, b, k) then [BitCast(c, i.ptr), CheckMemory(c), i] else [i])
            && one.count == SitesBefore(alias, f, b) + SitesIn(alias, f, b, k + 1) && Knows(f, b, k + 1, one.stack)
  {
    forall v: nat
      ensures SlotBefore(f, b, k + 1, v) <==> SlotBefore(f, b, k, v) || f[b][k] == Alloca(v)
    {
      SlotNext(f, b, k, v);
    }
    if f[b][k].Store? { SiteIff(alias, f, b, k, stack); }
  }

  lemma {:induction false} SiteIff(alias: Alias, f: seq<Block>, b: nat, k: nat, stack: set<nat>)
    requires b < |f| && k < |f[b]| && f[b][k].Store? && Knows(f, b, k, stack)
    ensures Site(alias, f, b, k) <==> !OnStack(alias, stack, f[b][k].ptr)
  {
    if OnStack(alias, stack, f[b][k].ptr) {
      var v :| v in stack && Matches(alias, v, f[b][k].ptr);
      assert SlotBefore(f, b, k, v);
    }
  }

  /** What is placed in the rest of a block is placed in the block. */
  lemma {:induction false} PlacedBehind(alias: Alias, f: seq<Block>, b: nat, k: nat, front: Block, out: Block, shift: nat)
    requires b < |f| && k < |f[b]| && InstrPlaced(alias, f, b, k, out, shift + |front|)
    ensures InstrPlaced(alias, f, b, k, front + out, shift)
  {
  }

  /** The rest of a block from instruction `k` on. */
  lemma {:induction false} PassPlaces(alias: Alias, f: seq<Block>, b: nat, k: nat, stack: set<nat>)
    requires b < |f| && k <= |f[b]| && Knows(f, b, k, stack)
    ensures var n, r := |f[b]|, Pass(alias, f[b][k..], stack, SitesBefore(alias, f, b) + SitesIn(alias, f, b, k));
            && Knows(f, b, n, r.stack) && r.count == SitesBefore(alias, f, b) + SitesIn(alias, f, b, n)
            && |r.block| == n - k + 2 * (SitesIn(alias, f, b, n) - SitesIn(alias, f, b, k))
            && RestPlaced(alias, f, b, k, r.block, k + 2 * SitesIn(alias, f, b, k))
    decreases |f[b]| - k
  {
    if k < |f[b]| {
      var one := PassOne(alias, f[b][k], stack, SitesBefore(alias, f, b) + SitesIn(alias, f, b, k));
      PassOnePlaces(alias, f, b, k, stack);
      PassPlaces(alias, f, b, k + 1, one.stack);
      assert f[b][k..][1..] == f[b][k + 1..];
      PlacedOnward(alias, f, b, k, one.block, Pass(alias, f[b][k + 1..], one.stack, one.count).block);
    }
  }

  lemma {:induction false} PlacedOnward(alias: Alias, f: seq<Block>, b: nat, k: nat, one: Block, rest: Block)
    requires b < |f| && k < |f[b]|
    requires var i, c := f[b][k], SitesBefore(alias, f, b) + SitesIn(alias, f, b, k);
             one == if Site(alias, f, b, k) then [BitCast(c, i.ptr), CheckMemory(c), i] else [i]
    requires RestPlaced(alias, f, b, k + 1, rest, k + 1 + 2 * SitesIn(alias, f, b, k + 1))
    ensures |one| == 1 + 2 * (SitesIn(alias, f, b, k + 1) - SitesIn(alias, f, b, k))
    ensures RestPlaced(alias, f, b, k, one + rest, k + 2 * SitesIn(alias, f, b, k))
  {
    FirstPlaced(alias, f, b, k, one, rest);
    var shift, out := k + 2 * SitesIn(alias, f, b, k), one + rest;
    assert shift + |one| == k + 1 + 2 * SitesIn(alias, f, b, k + 1);
    forall j | k <= j < |f[b]|
      ensures InstrPlaced(alias, f, b, j, out, shift)
    {
      if j > k {
        assert InstrPlaced(alias, f, b, j, rest, shift + |one|);
        PlacedBehind(alias, f, b, j, one, rest, shift);
      }
    }
  }

  lemma {:induction false} FirstPlaced(alias: Alias, f: seq<Block>, b: nat, k: nat, one: Block, rest: Block)
    requires b < |f| && k < |f[b]|
    requires var i, c := f[b][k], SitesBefore(alias, f, b) + SitesIn(alias, f, b, k);
             one == if Site(alias, f, b, k) then [BitCast(c, i.ptr), CheckMemory(c), i] else [i]
    ensures InstrPlaced(alias, f, b, k, one + rest, k + 2 * SitesIn(alias, f, b, k))
    ensures |one| == 1 + 2 * (SitesIn(alias, f, b, k + 1) - SitesIn(alias, f, b, k))
  {
  }

  class Function {
    var blocks: seq<Block>

    constructor (f: seq<Block>)
      ensures blocks == f
    {
      blocks := f;
    }
  }

  /** The map holds `true` for exactly the slots in `stack`. */
  ghost predicate Marks(stackValues: map<nat, bool>, stack: set<nat>) {
    stackValues.Keys == stack && forall v :: v in stackValues ==> stackValues[v]
  }

  lemma MarksAnswer(alias: Alias, stackValues: map<nat, bool>, stack: set<nat>, ptr: nat)
    requires Marks(stackValues, stack)
    ensures OnStack(alias, stack, ptr) <==> exists v :: v in stackValues && stackValues[v] && Matches(alias, v, ptr)
  {
    if OnStack(alias, stack, ptr) {
      var v :| v in stack && Matches(alias, v, ptr);
      assert v in stackValues && stackValues[v] && Matches(alias, v, ptr);
    }
  }

  /** analyseFunc: the function is rewritten in place, block by block. */
  method AnalyseFunc(alias: Alias, f: Function) returns (modCount: nat)
    modifies f
    ensures f.blocks == Instrumented(alias, old(f.blocks))
    ensures Placed(alias, old(f.blocks), f.blocks) && modCount == SitesBefore(alias, old(f.blocks), |old(f.blocks)|)
  {
    modCount := 0;
    var stackValues: map<nat, bool> := map[];
    ghost var done, was := [], f.blocks;
    var bi: nat := 0;
    NothingPassed(alias, was);
    assert stackValues.Keys == {};
    while bi < |f.blocks|
      invariant |done| == bi <= |was| && f.blocks == done + was[bi..] && Marks(stackValues, stackValues.Keys)
      invariant PassedUpTo(alias, was, done, stackValues.Keys, modCount)
    {
      PassedOn(alias, was, done, stackValues.Keys, modCount);
      ReplaceFirst(done, was[bi..], Pass(alias, was[bi], stackValues.Keys, modCount).block);
      var block;
      block, stackValues, modCount := AnalyseBlock(alias, f.blocks[bi], stackValues, modCount);
      f.blocks := f.blocks[bi := block];
      done := done + [block];
      bi := bi + 1;
    }
    AllPassed(alias, was, done, stackValues.Keys, modCount);
  }

  /** The blocks in `done` are finished, and `stack` and `count` are what was seen and instrumented in them. */
  ghost predicate PassedUpTo(alias: Alias, f: seq<Block>, done: seq<Block>, stack: set<nat>, count: nat) {
    && |done| <= |f| && Knows(f, |done|, 0, stack) && count == SitesBefore(alias, f, |done|)
    && (forall b :: 0 <= b < |done| ==> BlockPlaced(alias, f, b, done[b]))
    && done + PassAll(alias, f[|done|..], stack, count) == Instrumented(alias, f)
  }

  lemma {:induction false} NothingPassed(alias: Alias, f: seq<Block>)
    ensures PassedUpTo(alias, f, [], {}, 0)
  {
    NothingKnown(f);
    assert f[0..] == f && [] + PassAll(alias, f, {}, 0) == PassAll(alias, f, {}, 0);
  }

  lemma {:induction false} PassedOn(alias: Alias, f: seq<Block>, done: seq<Block>, stack: set<nat>, count: nat)
    requires PassedUpTo(alias, f, done, stack, count) && |done| < |f|
    ensures var r := Pass(alias, f[|done|], stack, count); PassedUpTo(alias, f, done + [r.block], r.stack, r.count)
  {
    var b, r := |done|, Pass(alias, f[|done|], stack, count);
    BlockByBlock(alias, f, b, stack);
    assert f[b..][1..] == f[b + 1..];
    RegroupBlocks(done, r.block, PassAll(alias, f[b + 1..], r.stack, r.count));
  }

  lemma {:induction false} AllPassed(alias: Alias, f: seq<Block>, done: seq<Block>, stack: set<nat>, count: nat)
    requires PassedUpTo(alias, f, done, stack, count) && |done| == |f|
    ensures done == Instrumented(alias, f) && Placed(alias, f, done) && count == SitesBefore(alias, f, |f|)
  {
    assert done + [] == done;
  }

  lemma {:induction false} PassedPrefix(alias: Alias, f: seq<Block>, n: nat) returns (stack: set<nat>, count: nat)
    requires n <= |f|
    ensures PassedUpTo(alias, f, Instrumented(alias, f)[..n], stack, count)
  {
    if n == 0 {
      stack, count := {}, 0;
      NothingPassed(alias, f);
      assert Instrumented(alias, f)[..0] == [];
    } else {
      stack, count := PassedPrefix(alias, f, n - 1);
      var done, r := Instrumented(alias, f)[..n - 1], Pass(alias, f[n - 1], stack, count);
      PassedOn(alias, f, done, stack, count);
      assert (done + [r.block])[n - 1] == Instrumented(alias, f)[n - 1];
      assert done + [r.block] == Instrumented(alias, f)[..n];
      stack, count := r.stack, r.count;
    }
  }

  /** In the instrumented function a store has the cast and the call in front exactly if no earlier alloca matches it, and all else is as it was. */
  lemma {:induction false} InstrumentedIsPlaced(alias: Alias, f: seq<Block>)
    ensures Placed(alias, f, Instrumented(alias, f))
  {
    var stack, count := PassedPrefix(alias, f, |f|);
    assert Instrumented(alias, f)[..|f|] == Instrumented(alias, f);
    AllPassed(alias, f, Instrumented(alias, f), stack, count);
  }

  /** A whole block. */
  lemma {:induction false} BlockByBlock(alias: Alias, f: seq<Block>, b: nat, stack: set<nat>)
    requires b < |f| && Knows(f, b, 0, stack)
    ensures var r := Pass(alias, f[b], stack, SitesBefore(alias, f, b));
            BlockPlaced(alias, f, b, r.block) && Knows(f, b + 1, 0, r.stack) && r.count == SitesBefore(alias, f, b + 1)
  {
    assert f[b][0..] == f[b];
    PassPlaces(alias, f, b, 0, stack);
    NextBlockKnows(f, b, Pass(alias, f[b], stack, SitesBefore(alias, f, b)).stack);
  }

  lemma ReplaceFirst(done: seq<Block>, rest: seq<Block>, block: Block)
    requires rest != []
    ensures (done + rest)[|done| := block] == (done + [block]) + rest[1..]
  {
  }

  lemma RegroupBlocks(a: seq<Block>, b: Block, c: seq<Block>)
    ensures a + ([b] + c) == (a + [b]) + c
  {
  }

  /** One block: what is inserted goes in before the instruction, and the iterator stays on the instruction. */
  method AnalyseBlock(alias: Alias, b: Block, seen: map<nat, bool>, count: nat)
    returns (block: Block, stackValues: map<nat, bool>, modCount: nat)
    requires Marks(seen, seen.Keys)
    ensures Passed(block, stackValues.Keys, modCount) == Pass(alias, b, seen.Keys, count)
    ensures Marks(stackValues, stackValues.Keys)
  {
    block, stackValues, modCount := b, seen, count;
    ghost var done, rest := [], b;
    var it: nat := 0;
    while it < |block|
      invariant block == done + rest && |done| == it && Marks(stackValues, stackValues.Keys)
      invariant Onward(alias, done, rest, stackValues.Keys, modCount) == Pass(alias, b, seen.Keys, count)
      decreases |rest|
    {
      PassStep(alias, done, rest, stackValues.Keys, modCount);
      assert block[it] == rest[0];
      var calls;
      calls, stackValues, modCount := AnalyseInstr(alias, block[it], stackValues, modCount);
      InsertBefore(done, rest, calls);
      block := block[..it] + calls + block[it..];
      it := it + |calls| + 1;
      done, rest := done + (calls + [rest[0]]), rest[1..];
    }
    assert rest == [] && done + [] == done;
  }

  /** What comes out when `done` is finished and `rest` is still to be passed. */
  ghost function Onward(alias: Alias, done: Block, rest: Block, stack: set<nat>, count: nat): Passed {
    var r := Pass(alias, rest, stack, count);
    r.(block := done + r.block)
  }

  lemma PassStep(alias: Alias, done: Block, rest: Block, stack: set<nat>, count: nat)
    requires rest != []
    ensures var one := PassOne(alias, rest[0], stack, count);
            Onward(alias, done, rest, stack, count) == Onward(alias, done + one.block, rest[1..], one.stack, one.count)
  {
    var one := PassOne(alias, rest[0], stack, count);
    var r := Pass(alias, rest[1..], one.stack, one.count).block;
    assert done + (one.block + r) == (done + one.block) + r;
  }

  lemma InsertBefore(done: Block, rest: Block, calls: Block)
    requires rest != []
    ensures var block := done + rest;
            block[..|done|] + calls + block[|done|..] == (done + (calls + [rest[0]])) + rest[1..]
  {
  }

  /** One instruction: what goes in before it. */
  method AnalyseInstr(alias: Alias, i: Instr, seen: map<nat, bool>, count: nat)
    returns (calls: Block, stackValues: map<nat, bool>, modCount: nat)
    requires Marks(seen, seen.Keys)
    ensures Passed(calls + [i], stackValues.Keys, modCount) == PassOne(alias, i, seen.Keys, count)
    ensures Marks(stackValues, stackValues.Keys) && stackValues.Keys == seen.Keys + if i.Alloca? then {i.dst} else {}
    ensures if i.Store? && forall v :: v in seen ==> !Matches(alias, v, i.ptr) then calls == [BitCast(count, i.ptr), CheckMemory(count)] && modCount == count + 1
            else calls == [] && modCount == count
  {
    calls, stackValues, modCount := [], seen, count;
    match i {
      case Store(ptr, _, _) =>
        MarksAnswer(alias, seen, seen.Keys, ptr);
        var onStack := WritesToStackLocation(alias, ptr, seen);
        if !onStack {
          calls := [BitCast(count, ptr), CheckMemory(count)];
          modCount := count + 1;
        }
      case Alloca(dst) =>
        stackValues := seen[dst := true];
      case _ =>
    }
  }
}

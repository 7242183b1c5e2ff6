/**
 One snapshot as a stretch of a run, finished or not: which bytes it has committed so far, and which
 values may still be loose on the medium, exactly and from what is known when it is called.
 */
module SnapshotRuns {
  import opened Bytes
  import opened UndoLog
  import opened CopyPlan
  import opened CrashProtocol
  import opened CrashRuns

  /** How many logs the snapshot under way has committed, and how many it has drained. */
  function DoneLogs(s: Sys): nat {
    match s.phase
    case Idle => |s.logs|
    case Before(j) => j
    case Copying(j, _) => j
    case Drained(j, _) => j
    case Dropped(j) => j + 1
  }

  function DrainedLogs(s: Sys): nat {
    if s.phase.Drained? then s.phase.j + 1 else DoneLogs(s)
  }

  predicate InSnapshot(step: Step) {
    step.Activate? || step.Copy? || step.Drain? || step.MarkEmpty? || step.Clear?
  }

  /** Steps `b..n` are one snapshot, possibly unfinished. */
  ghost predicate OneSnapshot(r: Run, b: nat, n: nat) {
    b < n < |r.states| == |r.steps| + 1 && r.steps[b].Begin? && forall k :: b < k < n ==> InSnapshot(r.steps[k])
  }

  ghost predicate ReachedBefore(m: Mapping, s: Sys, call: Range, count: nat, i: int)
    requires m.Ok()
  {
    exists t :: 0 <= t < count && t < |s.logs| && Reached(m, s.logs[t].entries, call, i)
  }

  lemma ReachedNext(m: Mapping, s: Sys, call: Range, j: nat, i: int)
    requires m.Ok() && j < |s.logs|
    ensures ReachedBefore(m, s, call, j + 1, i) <==> ReachedBefore(m, s, call, j, i) || Reached(m, s.logs[j].entries, call, i)
  {
  }

  /** The first snapshot of a process has begun to copy everything. */
  predicate BulkIssued(m: Mapping, s0: Sys, s: Sys) {
    CopiesAll(m, s0.start, s.call) && s.phase != Before(0)
  }

  /** What has become of byte `i` since the call, when `s0` was the state. */
  ghost predicate ByteProgress(m: Mapping, s0: Sys, g0: Image, s: Sys, g: Image, i: nat)
    requires m.Ok() && i < |s0.cache| == |s.loose| == |s0.loose| == |g0| == |g|
  {
    && g[i] == (if ReachedBefore(m, s0, s.call, DoneLogs(s), i) then s0.cache[i] else g0[i])
    && s.loose[i] == (if ReachedBefore(m, s0, s.call, DrainedLogs(s), i) then {}
                      else if BulkIssued(m, s0, s) then s0.loose[i] + {s0.cache[i]} else s0.loose[i])
  }

  /** From the call on the cache stands still and the logs still to come keep their ranges. */
  ghost predicate Progress(m: Mapping, s0: Sys, g0: Image, s: Sys, g: Image)
    requires WellFormed(m, s0) && WellFormed(m, s) && |g0| == |g| == m.size
  {
    && s.cache == s0.cache && |s.logs| == |s0.logs|
    && (s.phase == Before(0) ==> s.start == s0.start)
    && (s.phase != Before(0) ==> !s.start.Mapped?)
    && (forall t :: 0 <= t < |s.logs| && DoneLogs(s) <= t ==> s.logs[t].entries == s0.logs[t].entries)
    && forall i :: 0 <= i < m.size ==> ByteProgress(m, s0, g0, s, g, i)
  }

  lemma {:induction false} DrainProgress(m: Mapping, s0: Sys, g0: Image, s: Sys, g: Image, i: nat)
    requires WellFormed(m, s0) && Inv(m, s, g) && |g0| == m.size && Progress(m, s0, g0, s, g)
    requires Enabled(m, s, Drain) && i < m.size
    ensures ByteProgress(m, s0, g0, Next(m, s, Drain), g, i)
  {
    var j := s.phase.j;
    assert ByteProgress(m, s0, g0, s, g, i);
    assert Spans(s.pending) + s.phase.todo == Spans(s.pending);
    PlanReaches(m, s.logs[j].entries, s.call, Spans(s.pending), i);
    TouchedSpans(s.pending, i);
    ReachedNext(m, s0, s.call, j, i);
  }

  lemma {:induction false} CommitProgress(m: Mapping, s0: Sys, g0: Image, s: Sys, g: Image, i: nat)
    requires WellFormed(m, s0) && Inv(m, s, g) && |g0| == m.size && Progress(m, s0, g0, s, g)
    requires Enabled(m, s, MarkEmpty) && i < m.size
    ensures ByteProgress(m, s0, g0, Next(m, s, MarkEmpty), Commit(m, s, MarkEmpty, g), i)
  {
    var j := s.phase.j;
    assert ByteProgress(m, s0, g0, s, g, i);
    CopyRangesAt(g, s.cache, s.phase.copied, i);
    PlanReaches(m, s.logs[j].entries, s.call, s.phase.copied, i);
    ReachedNext(m, s0, s.call, j, i);
  }

  lemma {:induction false} ByteStep(m: Mapping, s0: Sys, g0: Image, s: Sys, g: Image, step: Step, i: nat)
    requires WellFormed(m, s0) && Inv(m, s, g) && |g0| == m.size && Progress(m, s0, g0, s, g)
    requires Enabled(m, s, step) && InSnapshot(step) && WellFormed(m, Next(m, s, step)) && i < m.size
    ensures ByteProgress(m, s0, g0, Next(m, s, step), Commit(m, s, step, g), i)
  {
    assert ByteProgress(m, s0, g0, s, g, i);
    match step
    case Drain => DrainProgress(m, s0, g0, s, g, i);
    case MarkEmpty => CommitProgress(m, s0, g0, s, g, i);
    case _ =>
  }

  lemma {:induction false} ProgressStep(m: Mapping, s0: Sys, g0: Image, s: Sys, g: Image, step: Step)
    requires WellFormed(m, s0) && Inv(m, s, g) && |g0| == m.size && Progress(m, s0, g0, s, g)
    requires Enabled(m, s, step) && InSnapshot(step) && WellFormed(m, Next(m, s, step))
    ensures Progress(m, s0, g0, Next(m, s, step), Commit(m, s, step, g))
  {
    forall i | 0 <= i < m.size
      ensures ByteProgress(m, s0, g0, Next(m, s, step), Commit(m, s, step, g), i)
    {
      ByteStep(m, s0, g0, s, g, step, i);
    }
  }

  lemma {:induction false} ProgressBegins(m: Mapping, r: Run, b: nat)
    requires IsRun(m, r) && OneSnapshot(r, b, b + 1)
    ensures WellFormed(m, r.states[b]) && WellFormed(m, r.states[b + 1]) && |r.committed[b]| == |r.committed[b + 1]| == m.size
    ensures r.states[b + 1].call == r.steps[b].call && Progress(m, r.states[b], r.committed[b], r.states[b + 1], r.committed[b + 1])
  {
    assert StepsAt(m, r, b);
    RunInv(m, r, b + 1);
  }

  lemma {:induction false} ProgressGoesOn(m: Mapping, r: Run, b: nat, n: nat)
    requires IsRun(m, r) && OneSnapshot(r, b, n) && b < n - 1
    requires WellFormed(m, r.states[b]) && WellFormed(m, r.states[n - 1]) && |r.committed[b]| == |r.committed[n - 1]| == m.size
    requires Progress(m, r.states[b], r.committed[b], r.states[n - 1], r.committed[n - 1])
    ensures WellFormed(m, r.states[n]) && |r.committed[n]| == m.size && r.states[n].call == r.states[n - 1].call
    ensures Progress(m, r.states[b], r.committed[b], r.states[n], r.committed[n])
  {
    RunInv(m, r, n - 1);
    RunInv(m, r, n);
    assert StepsAt(m, r, n - 1) && InSnapshot(r.steps[n - 1]);
    ProgressStep(m, r.states[b], r.committed[b], r.states[n - 1], r.committed[n - 1], r.steps[n - 1]);
  }

  /**
   At every moment of every snapshot: what is committed is the page cache on just the bytes that the logs
   marked EMPTY so far reach, and what is loose is what was loose at the call, with the whole page cache in
   a first snapshot, except on the bytes drained since.
   */
  lemma {:induction false} ProgressOverSnapshot(m: Mapping, r: Run, b: nat, n: nat)
    requires IsRun(m, r) && OneSnapshot(r, b, n)
    ensures WellFormed(m, r.states[b]) && WellFormed(m, r.states[n]) && |r.committed[b]| == |r.committed[n]| == m.size
    ensures r.states[n].call == r.steps[b].call && Progress(m, r.states[b], r.committed[b], r.states[n], r.committed[n])
    decreases n
  {
    if n == b + 1 {
      ProgressBegins(m, r, b);
    } else {
      ProgressOverSnapshot(m, r, b, n - 1);
      ProgressGoesOn(m, r, b, n);
    }
  }

  /** Only a drained log is committed. */
  lemma {:induction false} CommitsDrained(m: Mapping, s: Sys, step: Step, j: nat)
    requires WellFormed(m, s) && Enabled(m, s, step) && InSnapshot(step) && DoneLogs(s) <= j < DoneLogs(Next(m, s, step))
    ensures s.phase.Drained? && s.phase.j == j
  {
  }

  lemma {:induction false} DrainedAfterCopying(m: Mapping, r: Run, b: nat, n: nat)
    requires IsRun(m, r) && OneSnapshot(r, b, n) && r.states[n].phase.Drained?
    ensures b < n - 1 && r.states[n - 1].phase.Copying? && r.states[n - 1].phase.j == r.states[n].phase.j
  {
    assert StepsAt(m, r, n - 1);
  }

  lemma CallCommitsNothing(m: Mapping, r: Run, b: nat)
    requires IsRun(m, r) && OneSnapshot(r, b, b + 1)
    ensures DoneLogs(r.states[b + 1]) == 0
  {
    assert StepsAt(m, r, b);
  }

  /** In the snapshot that runs from `b` to `e`, log `j` is copied and drained at some moment before it is committed. */
  lemma {:induction false} DrainedOnTheWay(m: Mapping, r: Run, b: nat, e: nat, j: nat) returns (n: nat)
    requires IsRun(m, r) && OneSnapshot(r, b, e) && j < DoneLogs(r.states[e])
    ensures b < n < e && r.states[n].phase.Drained? && r.states[n].phase.j == j
    decreases e
  {
    if e == b + 1 { CallCommitsNothing(m, r, b); }
    if j < DoneLogs(r.states[e - 1]) {
      n := DrainedOnTheWay(m, r, b, e - 1, j);
    } else {
      n := e - 1;
      assert StepsAt(m, r, e - 1);
      CommitsDrained(m, r.states[e - 1], r.steps[e - 1], j);
    }
  }
}

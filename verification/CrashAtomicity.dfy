/**
 Crash atomicity of disciplined runs in which recovery finds the log it needs: it gives back the
 committed image exactly while no loose store is new. Outside a process's first snapshot only the first
 byte can be; inside it, the logs whose turn is still to come.
 */
module CrashAtomicity {
  import opened Bytes
  import opened UndoLog
  import opened CopyPlan
  import opened CrashProtocol
  import opened CrashRuns
  import opened SnapshotRuns
  import opened Discipline

  // ----- The runs -----

  ghost predicate Disciplined(m: Mapping, r: Run, n: nat) {
    && n <= |r.steps| && |r.states| == |r.committed| == |r.steps| + 1
    && forall k :: 0 <= k < n ==> StepsAt(m, r, k) && DisciplinedStep(m, r.states[k], r.steps[k])
  }

  lemma {:induction false} InitTidy(m: Mapping, s: Sys)
    requires Init(m, s)
    ensures WellFormed(m, s) && Tidy(m, s, s.medium)
  {
    InitInv(m, s);
    var listed :| s == Mount(m, s.medium, listed, []);
    MountTidy(m, s.medium, listed, []);
  }

  lemma {:induction false} RunTidy(m: Mapping, r: Run, n: nat)
    requires IsRun(m, r) && n < |r.states| && Disciplined(m, r, n)
    ensures Inv(m, r.states[n], r.committed[n]) && Tidy(m, r.states[n], r.committed[n])
  {
    RunInv(m, r, n);
    if n == 0 {
      InitTidy(m, r.states[0]);
    } else {
      RunTidy(m, r, n - 1);
      assert StepsAt(m, r, n - 1) && DisciplinedStep(m, r.states[n - 1], r.steps[n - 1]);
      StepKeepsTidy(m, r.states[n - 1], r.committed[n - 1], r.steps[n - 1]);
    }
  }

  /** The log in flight undoes byte `i`. */
  ghost predicate Undone(s: Sys, i: int) {
    IsInFlight(s) && s.phase.j < |s.logs| && Covered(s.logs[s.phase.j].undo, i)
  }

  /** Every loose value is the committed one or is undone by the log in flight. */
  ghost predicate Settled(s: Sys, g: Image) {
    |s.loose| == |g| && forall i, v :: 0 <= i < |g| && v in s.loose[i] && !Undone(s, i) ==> v == g[i]
  }

  /** Recovery will find the log in flight and all of its entries, and no older log before it. */
  ghost predicate FindsLog(s: Sys) {
    !Hidden(s) && (IsInFlight(s) && s.phase.j < |s.logs| ==> s.logs[s.phase.j].listed && s.logs[s.phase.j].durable == s.logs[s.phase.j].undo)
  }

  /**
   The step leaves recovery what it needs: the whole log is readable and listed, or power is lost while
   no log is in flight and what is loose is as committed.
   */
  ghost predicate CarefulStep(s: Sys, g: Image, step: Step) {
    && (step.Activate? && s.phase.Before? && s.phase.j < |s.logs| ==> s.logs[s.phase.j].listed && step.durable == s.logs[s.phase.j].undo)
    && (step.Crash? ==> !IsInFlight(s) && Settled(s, g))
  }

  ghost predicate Careful(r: Run, n: nat) {
    n <= |r.steps| && |r.states| == |r.committed| == |r.steps| + 1 && forall k :: 0 <= k < n ==> CarefulStep(r.states[k], r.committed[k], r.steps[k])
  }

  lemma {:induction false} CarefulFindsLog(m: Mapping, r: Run, n: nat)
    requires IsRun(m, r) && n < |r.states| && Careful(r, n)
    ensures FindsLog(r.states[n])
  {
    if n > 0 {
      CarefulFindsLog(m, r, n - 1);
      RunInv(m, r, n - 1);
      assert StepsAt(m, r, n - 1) && CarefulStep(r.states[n - 1], r.committed[n - 1], r.steps[n - 1]);
      HiddenStep(m, r.states[n - 1], r.committed[n - 1], r.steps[n - 1]);
    }
  }

  /** A byte that was copied for the log in flight and is new is undone. */
  lemma {:induction false} ExposedIsUndone(m: Mapping, s: Sys, g: Image, i: nat)
    requires Inv(m, s, g) && Tidy(m, s, g) && i < m.size && Exposed(s, i)
    ensures Undone(s, i) || s.cache[i] == g[i]
  {
    var j := s.phase.j;
    assert Consistent(m, s.logs[j]);
    if s.phase.Copying? {
      TouchedSpans(s.pending, i);
      var k :| 0 <= k < |Spans(s.pending)| && Spans(s.pending)[k].Has(i);
      assert (Spans(s.pending) + s.phase.todo)[k].Has(i);
      PlanIsHarmless(m, s, g, Spans(s.pending) + s.phase.todo, i);
    } else {
      PlanIsHarmless(m, s, g, s.phase.copied, i);
    }
  }

  /** With the log in flight before it, or none at all, recovery reads just what it needs. */
  lemma {:induction false} ReadsLogInFlight(m: Mapping, s: Sys, g: Image)
    requires Inv(m, s, g) && Tidy(m, s, g) && FindsLog(s)
    ensures forall i :: Covered(Reads(AllLogs(s)), i) <==> Undone(s, i)
    ensures forall i :: 0 <= i < m.size && Undone(s, i) ==> Oldest(Reads(AllLogs(s)), i) == g[i]
  {
    ReadsOwnLog(m, s, g);
    if IsInFlight(s) { assert Live(s, s.phase.j) && RestoresTo(s.logs[s.phase.j], g); }
  }

  lemma {:induction false} SettledIsRestored(m: Mapping, s: Sys, g: Image)
    requires Inv(m, s, g) && Tidy(m, s, g) && FindsLog(s)
    ensures Restored(s, g, Reads(AllLogs(s))) <==> Settled(s, g)
  {
    ReadsLogInFlight(m, s, g);
    forall i | 0 <= i < m.size && !Undone(s, i)
      ensures Unharmed(s, g, i) <==> forall v :: v in s.loose[i] ==> v == g[i]
    {
      if Exposed(s, i) { ExposedIsUndone(m, s, g, i); }
    }
  }

  /**
   Crash atomicity, exactly. In every disciplined run in which recovery finds the log it needs, after
   every step, whatever survives and however often recovery itself loses power, it gives back the
   committed image if and only if what is loose is as committed or undone.
   */
  lemma {:induction false} CrashAtomicIff(m: Mapping, r: Run, n: nat)
    requires IsRun(m, r) && n < |r.states| && Disciplined(m, r, n) && Careful(r, n)
    ensures SafeAt(r, n) <==> Settled(r.states[n], r.committed[n])
  {
    RunTidy(m, r, n);
    CarefulFindsLog(m, r, n);
    SafeIff(m, r, n);
    SettledIsRestored(m, r.states[n], r.committed[n]);
  }

  // ----- Outside the first snapshot: the first byte -----

  /** The 1 stored by mapping the file is settled, or undone, or right. */
  ghost predicate FirstByteOk(s: Sys, g: Image)
    requires |s.loose| == |g| > 0
  {
    1 in s.loose[0] && !Undone(s, 0) ==> g[0] == 1
  }

  /** Outside a process's first snapshot only the first byte of the file can be lost. */
  lemma {:induction false} CrashAtomic(m: Mapping, r: Run, n: nat)
    requires IsRun(m, r) && n < |r.states| && Disciplined(m, r, n) && Careful(r, n) && !r.states[n].start.Syncing?
    ensures |r.states[n].loose| == |r.committed[n]| == m.size > 0
    ensures SafeAt(r, n) <==> FirstByteOk(r.states[n], r.committed[n])
  {
    RunTidy(m, r, n);
    CrashAtomicIff(m, r, n);
  }

  /** Since the file was mapped a flushed copy of its first byte has been drained. */
  ghost predicate FirstByteFlushed(r: Run, n: nat) {
    exists k :: 0 <= k < n && FlushesFirst(r, k, n)
  }

  ghost predicate FlushesFirst(r: Run, k: nat, n: nat) {
    && k < n <= |r.steps| && k < |r.states| && r.steps[k].Drain? && Covered(r.states[k].pending, 0)
    && forall l :: k < l < n ==> !r.steps[l].Crash?
  }

  lemma {:induction false} FlushedStep(r: Run, n: nat)
    requires 0 < n <= |r.steps| < |r.states|
    ensures FirstByteFlushed(r, n) <==>
            !r.steps[n - 1].Crash? && (FirstByteFlushed(r, n - 1) || (r.steps[n - 1].Drain? && Covered(r.states[n - 1].pending, 0)))
  {
    if FirstByteFlushed(r, n) {
      var k :| 0 <= k < n && FlushesFirst(r, k, n);
      if k < n - 1 { assert FlushesFirst(r, k, n - 1); }
    }
    if FirstByteFlushed(r, n - 1) && !r.steps[n - 1].Crash? {
      var k :| 0 <= k < n - 1 && FlushesFirst(r, k, n - 1);
      assert FlushesFirst(r, k, n);
    }
    if r.steps[n - 1].Drain? && Covered(r.states[n - 1].pending, 0) { assert FlushesFirst(r, n - 1, n); }
  }

  /** What a step does to what is loose in the first byte. */
  lemma {:induction false} FirstByteStep(m: Mapping, s: Sys, g: Image, step: Step)
    requires Inv(m, s, g) && Enabled(m, s, step)
    ensures |Next(m, s, step).loose| == m.size
    ensures var loose, loose', start' := s.loose[0], Next(m, s, step).loose[0], Next(m, s, step).start;
            if step.Crash? then 1 in loose'
            else if step.Drain? && Covered(s.pending, 0) then loose' == {} && !start'.Mapped?
            else (1 in loose ==> 1 in loose') && (loose == {} && !s.start.Mapped? ==> loose' == {} && !start'.Mapped?)
  {
    StepKeepsInv(m, s, g, step);
  }

  /** In every run the 1 stays loose exactly until the first byte is flushed. */
  lemma {:induction false} FirstByteIff(m: Mapping, r: Run, n: nat)
    requires IsRun(m, r) && n < |r.states|
    ensures |r.states[n].loose| == m.size > 0
    ensures 1 in r.states[n].loose[0] <==> !FirstByteFlushed(r, n)
    ensures FirstByteFlushed(r, n) ==> r.states[n].loose[0] == {} && !r.states[n].start.Mapped?
  {
    RunInv(m, r, n);
    if n > 0 {
      FirstByteIff(m, r, n - 1);
      FlushedStep(r, n);
      RunInv(m, r, n - 1);
      assert StepsAt(m, r, n - 1);
      FirstByteStep(m, r.states[n - 1], r.committed[n - 1], r.steps[n - 1]);
    }
  }

  // ----- Inside the first snapshot: the logs still to come -----

  /** The first log whose copies have not been issued. */
  function NextLog(s: Sys): nat {
    match s.phase
    case Idle => |s.logs|
    case Before(j) => j
    case Copying(j, _) => j + 1
    case Drained(j, _) => j + 1
    case Dropped(j) => j + 1
  }

  /** The page cache has nothing new on the ranges of the logs from `j` on. */
  ghost predicate NothingNewFrom(m: Mapping, s: Sys, g: Image, j: nat)
    requires WellFormed(m, s) && |g| == m.size
  {
    forall t, i :: j <= t < |s.logs| && 0 <= i < m.size && Ranged(m, s.logs[t], i) ==> s.cache[i] == g[i]
  }

  /** What one log has in its ranges is not reached for another. */
  lemma {:induction false} OnlyItsOwn(m: Mapping, s: Sys, t: nat, u: nat, call: Range, i: nat)
    requires WellFormed(m, s) && AllApart(m, s) && t < |s.logs| && u < |s.logs| && t != u
    requires Consistent(m, s.logs[t]) && Ranged(m, s.logs[t], i)
    ensures !Reached(m, s.logs[u].entries, call, i)
  {
    if e :| e in s.logs[u].entries && m.Tracks(e) && m.Copied(e).Has(i) {
      var k :| 0 <= k < |s.logs[u].entries| && s.logs[u].entries[k] == e;
      WidenedMissesOthers(m, s, u, k, t, i);
    }
  }

  /** A range of a log still to come is not committed, and if the bulk copy is issued it is loose and not undone. */
  lemma {:induction false} StillToCome(m: Mapping, r: Run, b: nat, n: nat, t: nat, i: nat)
    requires IsRun(m, r) && OneSnapshot(r, b, n) && Disciplined(m, r, n) && i < m.size
    requires !r.states[n].phase.Idle? && NextLog(r.states[n]) <= t < |r.states[b].logs|
    ensures WellFormed(m, r.states[b]) && WellFormed(m, r.states[n]) && |r.committed[b]| == |r.committed[n]| == m.size
    ensures |r.states[n].logs| == |r.states[b].logs| && r.states[n].cache == r.states[b].cache
    ensures Ranged(m, r.states[n].logs[t], i) <==> Ranged(m, r.states[b].logs[t], i)
    ensures Ranged(m, r.states[b].logs[t], i) ==> r.committed[n][i] == r.committed[b][i] && !Undone(r.states[n], i)
    ensures Ranged(m, r.states[b].logs[t], i) && BulkIssued(m, r.states[b], r.states[n]) ==> r.states[b].cache[i] in r.states[n].loose[i]
  {
    RunTidy(m, r, b);
    RunTidy(m, r, n);
    ProgressOverSnapshot(m, r, b, n);
    var s0, s := r.states[b], r.states[n];
    assert ByteProgress(m, s0, r.committed[b], s, r.committed[n], i);
    if Ranged(m, s0.logs[t], i) {
      assert Consistent(m, s0.logs[t]);
      forall u: nat | u < t
        ensures !Reached(m, s0.logs[u].entries, s.call, i)
      {
        OnlyItsOwn(m, s0, t, u, s.call, i);
      }
      if Undone(s, i) { NotUndoneForAnother(m, s, s.phase.j, t, i); }
    }
  }

  lemma {:induction false} NotUndoneForAnother(m: Mapping, s: Sys, j: nat, t: nat, i: nat)
    requires WellFormed(m, s) && AllApart(m, s) && j < |s.logs| && t < |s.logs| && j != t
    requires Consistent(m, s.logs[j]) && Ranged(m, s.logs[t], i)
    ensures !Covered(s.logs[j].undo, i)
  {
    var k :| 0 <= k < |Exact(m, s.logs[t].entries)| && Exact(m, s.logs[t].entries)[k].Has(i);
    ApartLogsDisjoint(m, s, t, j, s.logs[t].entries[k], i);
  }

  lemma {:induction false} SettledHoldsNothingNew(m: Mapping, r: Run, b: nat, n: nat)
    requires IsRun(m, r) && OneSnapshot(r, b, n) && Disciplined(m, r, n) && !r.states[n].phase.Idle?
    requires BulkIssued(m, r.states[b], r.states[n]) && Settled(r.states[n], r.committed[n])
    ensures WellFormed(m, r.states[b]) && |r.committed[b]| == m.size && NothingNewFrom(m, r.states[b], r.committed[b], NextLog(r.states[n]))
  {
    RunInv(m, r, b);
    forall t, i | NextLog(r.states[n]) <= t < |r.states[b].logs| && 0 <= i < m.size && Ranged(m, r.states[b].logs[t], i)
      ensures r.states[b].cache[i] == r.committed[b][i]
    {
      StillToCome(m, r, b, n, t, i);
    }
  }

  /** A byte of the cache that is new belongs to the log in flight or to one still to come. */
  lemma {:induction false} NewIsToCome(m: Mapping, s: Sys, g: Image, i: nat) returns (t: nat)
    requires Inv(m, s, g) && Tidy(m, s, g) && i < m.size && !s.phase.Idle? && s.cache[i] != g[i] && !Undone(s, i)
    ensures NextLog(s) <= t < |s.logs| && Ranged(m, s.logs[t], i)
  {
    t :| Live(s, t) && Covered(s.logs[t].undo, i);
    assert Consistent(m, s.logs[t]);
  }

  lemma {:induction false} NothingNewIsSettled(m: Mapping, r: Run, b: nat, n: nat)
    requires IsRun(m, r) && OneSnapshot(r, b, n) && Disciplined(m, r, n) && r.states[n].start.Syncing?
    requires WellFormed(m, r.states[b]) && |r.committed[b]| == m.size && r.states[b].start.Mapped?
    requires BulkIssued(m, r.states[b], r.states[n]) ==> NothingNewFrom(m, r.states[b], r.committed[b], NextLog(r.states[n]))
    requires |r.states[n].loose| == |r.committed[n]| > 0 && FirstByteOk(r.states[n], r.committed[n])
    ensures Settled(r.states[n], r.committed[n])
  {
    RunTidy(m, r, b);
    RunTidy(m, r, n);
    ProgressOverSnapshot(m, r, b, n);
    var s0, s, g := r.states[b], r.states[n], r.committed[n];
    forall i, v | 0 <= i < |g| && v in s.loose[i] && !Undone(s, i)
      ensures v == g[i]
    {
      assert ByteProgress(m, s0, r.committed[b], s, g, i);
      if v != g[i] && !(i == 0 && v == 1) {
        var t := NewIsToCome(m, s, g, i);
        StillToCome(m, r, b, n, t, i);
      }
    }
  }

  /**
   The first snapshot of a process copies the whole page cache in the first log's turn. From then on, and
   until the last log's turn, power may be lost if and only if the first byte is safe and, seen from the
   call, the logs still to come have nothing new.
   */
  lemma {:induction false} FirstSnapshotIff(m: Mapping, r: Run, b: nat, n: nat)
    requires IsRun(m, r) && OneSnapshot(r, b, n) && Disciplined(m, r, n) && Careful(r, n)
    requires r.states[b].start.Mapped? && r.states[n].start.Syncing?
    ensures WellFormed(m, r.states[b]) && |r.committed[b]| == |r.states[n].loose| == |r.committed[n]| == m.size > 0
    ensures SafeAt(r, n) <==>
            && FirstByteOk(r.states[n], r.committed[n])
            && (CopiesAll(m, r.states[b].start, r.steps[b].call) ==> NothingNewFrom(m, r.states[b], r.committed[b], NextLog(r.states[n])))
  {
    RunInv(m, r, b);
    RunInv(m, r, n);
    ProgressOverSnapshot(m, r, b, n);
    CrashAtomicIff(m, r, n);
    var s := r.states[n];
    assert BulkIssued(m, r.states[b], s) <==> CopiesAll(m, r.states[b].start, r.steps[b].call);
    if Settled(s, r.committed[n]) {
      if BulkIssued(m, r.states[b], s) { SettledHoldsNothingNew(m, r, b, n); }
    } else if FirstByteOk(s, r.committed[n]) && (BulkIssued(m, r.states[b], s) ==> NothingNewFrom(m, r.states[b], r.committed[b], NextLog(s))) {
      NothingNewIsSettled(m, r, b, n);
    }
  }

  // ----- One log -----

  /** With one log the first snapshot is no exception. */
  lemma {:induction false} SingleLogAtomic(m: Mapping, r: Run, n: nat)
    requires IsRun(m, r) && n < |r.states| && Disciplined(m, r, n) && Careful(r, n) && |r.states[n].logs| == 1
    ensures |r.states[n].loose| == |r.committed[n]| == m.size > 0
    ensures SafeAt(r, n) <==> FirstByteOk(r.states[n], r.committed[n])
  {
    var s, g := r.states[n], r.committed[n];
    RunTidy(m, r, n);
    CrashAtomicIff(m, r, n);
    forall i | 0 <= i < m.size && !Undone(s, i) && s.start.Syncing? && s.phase != Before(0)
      ensures s.cache[i] == g[i]
    {
      if s.cache[i] != g[i] { var t := NewIsToCome(m, s, g, i); }
    }
    if s.start.Syncing? { FirstTurnOver(m, r, n); }
  }

  /** Once the first snapshot is under way its first log has been activated. */
  lemma {:induction false} FirstTurnOver(m: Mapping, r: Run, n: nat)
    requires IsRun(m, r) && n < |r.states| && r.states[n].start.Syncing?
    ensures r.states[n].phase != Before(0)
  {
    if n > 0 {
      RunInv(m, r, n - 1);
      assert StepsAt(m, r, n - 1);
      if r.states[n - 1].start.Syncing? { FirstTurnOver(m, r, n - 1); }
    }
  }

  /** What the page cache held when the last snapshot to finish marked its log EMPTY. */
  ghost function LastSnapshot(r: Run, n: nat): Image
    requires |r.states| == |r.steps| + 1 && n < |r.states|
  {
    if n == 0 then r.states[0].cache
    else if r.steps[n - 1].MarkEmpty? then r.states[n - 1].cache
    else LastSnapshot(r, n - 1)
  }

  lemma {:induction false} SingleLogCommitsCache(m: Mapping, s: Sys, g: Image)
    requires Inv(m, s, g) && Tidy(m, s, g) && Enabled(m, s, MarkEmpty) && |s.logs| == 1
    ensures Commit(m, s, MarkEmpty, g) == s.cache
  {
    forall i | 0 <= i < m.size
      ensures Commit(m, s, MarkEmpty, g)[i] == s.cache[i]
    {
      CommitsRanges(m, s, g, i);
      if s.cache[i] != g[i] {
        var t: nat :| Live(s, t) && Covered(s.logs[t].undo, i);
        assert Consistent(m, s.logs[0]) && Ranged(m, s.logs[0], i);
      }
    }
  }

  /** With one log the committed image is the page cache of the last finished snapshot, all of it. */
  lemma {:induction false} SingleLogIsAllOrNothing(m: Mapping, r: Run, n: nat)
    requires IsRun(m, r) && n < |r.states| && Disciplined(m, r, n) && Careful(r, n)
    requires forall k :: 0 <= k <= n ==> |r.states[k].logs| == 1
    ensures r.committed[n] == LastSnapshot(r, n)
  {
    if n > 0 {
      SingleLogIsAllOrNothing(m, r, n - 1);
      RunTidy(m, r, n - 1);
      assert StepsAt(m, r, n - 1);
      if r.steps[n - 1].MarkEmpty? {
        SingleLogCommitsCache(m, r.states[n - 1], r.committed[n - 1]);
      } else if r.steps[n - 1].Crash? {
        CrashAtomicIff(m, r, n - 1);
        assert CarefulStep(r.states[n - 1], r.committed[n - 1], r.steps[n - 1]);
      }
    } else {
      assert Init(m, r.states[0]);
    }
  }

  /** One thread, one log: recovery from any crash gives back the last finished snapshot, if the first byte is safe. */
  lemma {:induction false} CrashRestoresLastSnapshot(m: Mapping, r: Run, n: nat, attempts: seq<Image>)
    requires IsRun(m, r) && n < |r.states| && Disciplined(m, r, n) && Careful(r, n)
    requires forall k :: 0 <= k <= n ==> |r.states[k].logs| == 1
    requires |r.states[n].medium| == |r.states[n].loose| == |r.committed[n]| > 0
    requires Attempts(r.states[n], attempts) && FirstByteOk(r.states[n], r.committed[n])
    ensures Recover(Last(attempts), AllLogs(r.states[n])) == LastSnapshot(r, n)
  {
    SingleLogAtomic(m, r, n);
    SingleLogIsAllOrNothing(m, r, n);
  }

  // ----- Several logs: what a crash in the middle of a snapshot keeps -----

  ghost predicate RangedBefore(m: Mapping, s: Sys, count: nat, i: int)
    requires WellFormed(m, s)
  {
    exists t :: 0 <= t < count && t < |s.logs| && Ranged(m, s.logs[t], i)
  }

  /** Under the discipline the logs committed so far have changed just their ranges. */
  lemma {:induction false} ReachedOrEqual(m: Mapping, s: Sys, g: Image, call: Range, count: nat, i: nat)
    requires Inv(m, s, g) && Tidy(m, s, g) && i < m.size && WholeRegion(m, call.addr, call.bytes) && s.phase.Idle?
    ensures RangedBefore(m, s, count, i) ==> ReachedBefore(m, s, call, count, i)
    ensures ReachedBefore(m, s, call, count, i) ==> RangedBefore(m, s, count, i) || s.cache[i] == g[i]
  {
    if RangedBefore(m, s, count, i) {
      var t :| 0 <= t < count && t < |s.logs| && Ranged(m, s.logs[t], i);
      TouchedExact(m, s.logs[t].entries, i);
      var e :| e in s.logs[t].entries && m.Tracks(e) && m.Place(e).Has(i);
      WholeRegionSelects(m, e, call.addr, call.bytes);
      assert Reached(m, s.logs[t].entries, call, i);
    }
    if ReachedBefore(m, s, call, count, i) {
      var t :| 0 <= t < count && t < |s.logs| && Reached(m, s.logs[t].entries, call, i);
      var e :| e in s.logs[t].entries && m.Tracks(e) && m.Copied(e).Has(i);
      var k :| 0 <= k < |s.logs[t].entries| && s.logs[t].entries[k] == e;
      WidenedIsHarmless(m, s, g, t, k, i);
    }
  }

  /**
   Several threads: a crash inside a snapshot, if it is safe, keeps the image from before it, updated with
   the page cache on the ranges of exactly the logs that had been marked EMPTY by then.
   */
  lemma {:induction false} CrashKeepsCommittedLogs(m: Mapping, r: Run, b: nat, n: nat, attempts: seq<Image>, i: nat)
    requires IsRun(m, r) && OneSnapshot(r, b, n) && Disciplined(m, r, n) && Careful(r, n) && i < m.size
    requires |r.states[n].medium| == |r.states[n].loose| && Settled(r.states[n], r.committed[n]) && Attempts(r.states[n], attempts)
    ensures WellFormed(m, r.states[b]) && |Last(attempts)| == |r.committed[b]| == m.size
    ensures Recover(Last(attempts), AllLogs(r.states[n]))[i] ==
            if RangedBefore(m, r.states[b], DoneLogs(r.states[n]), i) then r.states[b].cache[i] else r.committed[b][i]
  {
    RunTidy(m, r, b);
    CrashAtomicIff(m, r, n);
    ProgressOverSnapshot(m, r, b, n);
    assert StepsAt(m, r, b) && DisciplinedStep(m, r.states[b], r.steps[b]);
    assert ByteProgress(m, r.states[b], r.committed[b], r.states[n], r.committed[n], i);
    ReachedOrEqual(m, r.states[b], r.committed[b], r.steps[b].call, DoneLogs(r.states[n]), i);
  }

  /** A finished snapshot has committed the whole page cache. */
  lemma {:induction false} FinishedSnapshotCommitsAll(m: Mapping, r: Run, b: nat, n: nat)
    requires IsRun(m, r) && OneSnapshot(r, b, n) && Disciplined(m, r, n) && r.states[n].phase.Idle?
    ensures r.committed[n] == r.states[b].cache == r.states[n].medium
  {
    RunTidy(m, r, b);
    RunInv(m, r, n);
    ProgressOverSnapshot(m, r, b, n);
    var s, g := r.states[b], r.committed[b];
    assert StepsAt(m, r, b) && DisciplinedStep(m, s, r.steps[b]);
    forall i | 0 <= i < m.size
      ensures r.committed[n][i] == s.cache[i]
    {
      assert ByteProgress(m, s, g, r.states[n], r.committed[n], i);
      ReachedOrEqual(m, s, g, r.steps[b].call, |s.logs|, i);
      if s.cache[i] != g[i] {
        var t: nat :| Live(s, t) && Covered(s.logs[t].undo, i);
        assert Consistent(m, s.logs[t]) && Ranged(m, s.logs[t], i);
      }
    }
  }
}

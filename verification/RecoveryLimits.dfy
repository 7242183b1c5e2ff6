/**
 Where the code leaves recovery less than it needs, and exactly when that does no harm: the file was only
 mapped so far, the recorded length is zeroed, the end of the log is not written back, a log is not named
 in the dependency file, or an older log is still marked ACTIVE.
 */
module RecoveryLimits {
  import opened Bytes
  import opened UndoLog
  import opened CopyPlan
  import opened CrashProtocol
  import opened CrashRuns
  import opened SnapshotRuns
  import opened Discipline
  import opened CrashAtomicity

  /** No crash can change a byte. */
  ghost predicate NothingNew(s: Sys, g: Image)
    requires |s.cache| == |s.loose| == |g|
  {
    forall i :: 0 <= i < |g| ==> Unharmed(s, g, i)
  }

  // ----- Before the first snapshot -----

  /** Until a process begins its first snapshot the file survives another power failure exactly if its first byte is 1. */
  lemma {:induction false} MappedSafeIff(m: Mapping, r: Run, n: nat)
    requires IsRun(m, r) && n < |r.states| && r.states[n].start.Mapped? && !Hidden(r.states[n])
    ensures |r.committed[n]| == m.size > 0
    ensures SafeAt(r, n) <==> r.committed[n][0] == 1
  {
    RunInv(m, r, n);
    SafeIff(m, r, n);
    ReadsOwnLog(m, r.states[n], r.committed[n]);
  }

  // ----- The zeroed length -----

  /** The run as snapshot() is written: the length is zeroed before the mark, so no entry can be read. */
  ghost predicate AsWritten(r: Run, n: nat) {
    n <= |r.steps| && forall k :: 0 <= k < n && r.steps[k].Activate? ==> r.steps[k].durable == []
  }

  lemma {:induction false} NothingReadable(m: Mapping, r: Run, n: nat)
    requires IsRun(m, r) && n < |r.states| && AsWritten(r, n)
    ensures forall t :: 0 <= t < |AllLogs(r.states[n])| ==> AllLogs(r.states[n])[t].durable == []
  {
    if n > 0 {
      NothingReadable(m, r, n - 1);
      assert StepsAt(m, r, n - 1);
      var s, s' := r.states[n - 1], r.states[n];
      forall t | 0 <= t < |AllLogs(s')|
        ensures AllLogs(s')[t].durable == []
      {
        if t < |AllLogs(s)| { assert AllLogs(s)[t].durable == []; }
      }
    }
  }

  /** As written, losing power is harmless exactly while nothing that is new may have reached the medium. */
  lemma {:induction false} ZeroedLengthWorksIff(m: Mapping, r: Run, n: nat)
    requires IsRun(m, r) && n < |r.states| && AsWritten(r, n)
    ensures |r.states[n].cache| == |r.states[n].loose| == |r.committed[n]| == m.size
    ensures SafeAt(r, n) <==> NothingNew(r.states[n], r.committed[n])
  {
    SafeIff(m, r, n);
    NothingReadable(m, r, n);
    assert Reads(AllLogs(r.states[n])) == [];
  }

  /**
   What a caller can compare before the call: on the bytes that no earlier log reaches, what is loose is as
   committed, and so is the page cache wherever this log reaches, or everywhere in a first snapshot.
   */
  ghost predicate TurnHasNothingNew(m: Mapping, s: Sys, g: Image, call: Range, j: nat)
    requires WellFormed(m, s) && |g| == m.size && j < |s.logs|
  {
    forall i :: 0 <= i < m.size && !ReachedBefore(m, s, call, j, i) ==>
      && s.loose[i] <= {g[i]}
      && (CopiesAll(m, s.start, call) || Reached(m, s.logs[j].entries, call, i) ==> s.cache[i] == g[i])
  }

  lemma {:induction false} ExposedIsReached(m: Mapping, s: Sys, g: Image, i: nat)
    requires Inv(m, s, g) && IsInFlight(s) && i < m.size
    ensures Exposed(s, i) ==> Reached(m, s.logs[s.phase.j].entries, s.call, i)
    ensures s.phase.Drained? && Reached(m, s.logs[s.phase.j].entries, s.call, i) ==> Exposed(s, i)
  {
    var entries := s.logs[s.phase.j].entries;
    if s.phase.Copying? {
      var plan := Spans(s.pending) + s.phase.todo;
      PlanReaches(m, entries, s.call, plan, i);
      TouchedSpans(s.pending, i);
      if Exposed(s, i) {
        var k :| 0 <= k < |Spans(s.pending)| && Spans(s.pending)[k].Has(i);
        assert plan[k].Has(i);
      }
    } else {
      PlanReaches(m, entries, s.call, s.phase.copied, i);
    }
  }

  lemma {:induction false} TurnHarmless(m: Mapping, r: Run, b: nat, n: nat, j: nat)
    requires IsRun(m, r) && OneSnapshot(r, b, n) && AsWritten(r, n) && InFlight(r.states[n], j)
    requires WellFormed(m, r.states[b]) && |r.committed[b]| == m.size && j < |r.states[b].logs|
    requires TurnHasNothingNew(m, r.states[b], r.committed[b], r.steps[b].call, j)
    ensures SafeAt(r, n)
  {
    RunInv(m, r, n);
    ProgressOverSnapshot(m, r, b, n);
    ZeroedLengthWorksIff(m, r, n);
    var s0, s, g := r.states[b], r.states[n], r.committed[n];
    forall i | 0 <= i < m.size
      ensures Unharmed(s, g, i)
    {
      assert ByteProgress(m, s0, r.committed[b], s, g, i);
      ExposedIsReached(m, s, g, i);
      ReachedNext(m, s0, s.call, j, i);
    }
  }

  lemma {:induction false} HarmlessTurnHasNothing(m: Mapping, r: Run, b: nat, n: nat, j: nat)
    requires IsRun(m, r) && OneSnapshot(r, b, n) && AsWritten(r, n) && r.states[n].phase.Drained? && r.states[n].phase.j == j
    requires WellFormed(m, r.states[b]) && |r.committed[b]| == m.size && j < |r.states[b].logs|
    requires n > 0 && SafeAt(r, n) && SafeAt(r, n - 1)
    ensures TurnHasNothingNew(m, r.states[b], r.committed[b], r.steps[b].call, j)
  {
    DrainedAfterCopying(m, r, b, n);
    RunInv(m, r, n);
    ProgressOverSnapshot(m, r, b, n);
    ProgressOverSnapshot(m, r, b, n - 1);
    ZeroedLengthWorksIff(m, r, n);
    ZeroedLengthWorksIff(m, r, n - 1);
    var s0, g0 := r.states[b], r.committed[b];
    forall i | 0 <= i < m.size && !ReachedBefore(m, s0, r.steps[b].call, j, i)
      ensures s0.loose[i] <= {g0[i]}
      ensures CopiesAll(m, s0.start, r.steps[b].call) || Reached(m, s0.logs[j].entries, r.steps[b].call, i) ==> s0.cache[i] == g0[i]
    {
      assert ByteProgress(m, s0, g0, r.states[n], r.committed[n], i) && Unharmed(r.states[n], r.committed[n], i);
      assert ByteProgress(m, s0, g0, r.states[n - 1], r.committed[n - 1], i) && Unharmed(r.states[n - 1], r.committed[n - 1], i);
      ExposedIsReached(m, r.states[n], r.committed[n], i);
    }
  }

  /**
   The zeroed length, seen from the call of snapshot(): no moment of log `j`'s turn is dangerous exactly
   when, at the call, nothing its turn can bring to the medium is new.
   */
  lemma {:induction false} TurnSafeIff(m: Mapping, r: Run, b: nat, e: nat, j: nat)
    requires IsRun(m, r) && OneSnapshot(r, b, e) && AsWritten(r, e) && j < |r.states[b].logs| && j < DoneLogs(r.states[e])
    ensures WellFormed(m, r.states[b]) && |r.committed[b]| == m.size
    ensures (forall n :: b < n <= e && InFlight(r.states[n], j) ==> SafeAt(r, n)) <==>
            TurnHasNothingNew(m, r.states[b], r.committed[b], r.steps[b].call, j)
  {
    RunInv(m, r, b);
    if TurnHasNothingNew(m, r.states[b], r.committed[b], r.steps[b].call, j) {
      forall n | b < n <= e && InFlight(r.states[n], j)
        ensures SafeAt(r, n)
      {
        TurnHarmless(m, r, b, n, j);
      }
    }
    if forall n :: b < n <= e && InFlight(r.states[n], j) ==> SafeAt(r, n) {
      var n := DrainedOnTheWay(m, r, b, e, j);
      DrainedAfterCopying(m, r, b, n);
      assert InFlight(r.states[n], j) && InFlight(r.states[n - 1], j);
      HarmlessTurnHasNothing(m, r, b, n, j);
    }
  }

  // ----- Part of the log -----

  lemma PrefixRestores(log: LogState, g: Image, k: nat)
    requires RestoresTo(log, g) && k <= |log.undo|
    ensures forall i :: 0 <= i < |g| && Covered(log.undo[..k], i) ==> Oldest(log.undo[..k], i) == g[i]
  {
    forall i | 0 <= i < |g| && Covered(log.undo[..k], i)
      ensures Oldest(log.undo[..k], i) == g[i]
    {
      assert log.undo == log.undo[..k] + log.undo[k..];
      CoveredConcat(log.undo[..k], log.undo[k..], i);
      OldestConcat(log.undo[..k], log.undo[k..], i);
    }
  }

  /** The log in flight is the one recovery will read. */
  ghost predicate OwnLog(s: Sys) {
    !Hidden(s) && IsInFlight(s) && s.phase.j < |s.logs| && s.logs[s.phase.j].listed
  }

  /**
   Recovery reads the first `k` entries of the log in flight and then something else, `rest`, out of bytes
   that were never written back. It is right exactly when, on the bytes those `k` entries do not cover,
   `rest` writes what was committed, and a byte it does not write is unharmed.
   */
  lemma {:induction false} TornLogWorksIff(m: Mapping, r: Run, n: nat, k: nat, rest: seq<Entry>)
    requires IsRun(m, r) && n < |r.states| && Disciplined(m, r, n) && OwnLog(r.states[n])
    requires var log := r.states[n].logs[r.states[n].phase.j]; k <= |log.undo| && log.durable == log.undo[..k] + rest
    ensures |r.states[n].cache| == |r.states[n].loose| == |r.committed[n]| == m.size
    ensures var s, g := r.states[n], r.committed[n];
            var seen := s.logs[s.phase.j].undo[..k];
            SafeAt(r, n) <==>
            forall i :: 0 <= i < m.size && !Covered(seen, i) ==>
              if Covered(rest, i) then Oldest(rest, i) == g[i] else Unharmed(s, g, i)
  {
    RunTidy(m, r, n);
    SafeIff(m, r, n);
    var s, g := r.states[n], r.committed[n];
    var log := s.logs[s.phase.j];
    var seen := log.undo[..k];
    ReadsOwnLog(m, s, g);
    assert Live(s, s.phase.j) && RestoresTo(log, g);
    PrefixRestores(log, g, k);
    forall i | 0 <= i < m.size
      ensures Covered(seen + rest, i) <==> Covered(seen, i) || Covered(rest, i)
      ensures Covered(seen + rest, i) ==> Oldest(seen + rest, i) == if Covered(seen, i) then g[i] else Oldest(rest, i)
    {
      CoveredConcat(seen, rest, i);
      if Covered(seen + rest, i) { OldestConcat(seen, rest, i); }
    }
  }

  /** For any recorded length: reading `k` entries is enough exactly when they cover all that may have been harmed. */
  lemma {:induction false} PrefixWorksIff(m: Mapping, r: Run, n: nat, k: nat)
    requires IsRun(m, r) && n < |r.states| && Disciplined(m, r, n) && OwnLog(r.states[n])
    requires var log := r.states[n].logs[r.states[n].phase.j]; k <= |log.undo| && log.durable == log.undo[..k]
    ensures |r.states[n].cache| == |r.states[n].loose| == |r.committed[n]| == m.size
    ensures var s, g := r.states[n], r.committed[n];
            SafeAt(r, n) <==>
            forall i :: 0 <= i < m.size && !Unharmed(s, g, i) ==> Covered(s.logs[s.phase.j].undo[..k], i)
  {
    var log := r.states[n].logs[r.states[n].phase.j];
    assert log.durable == log.undo[..k] + [];
    TornLogWorksIff(m, r, n, k, []);
  }

  /** A log the dependency file does not name is not replayed: harmless exactly while nothing that is new may have reached the medium. */
  lemma {:induction false} UnlistedWorksIff(m: Mapping, r: Run, n: nat)
    requires IsRun(m, r) && n < |r.states| && IsInFlight(r.states[n]) && r.states[n].phase.j < |r.states[n].logs|
    requires !Hidden(r.states[n]) && !r.states[n].logs[r.states[n].phase.j].listed
    ensures |r.states[n].cache| == |r.states[n].loose| == |r.committed[n]| == m.size
    ensures SafeAt(r, n) <==> NothingNew(r.states[n], r.committed[n])
  {
    RunInv(m, r, n);
    SafeIff(m, r, n);
    ReadsOwnLog(m, r.states[n], r.committed[n]);
  }

  // ----- An older ACTIVE log -----

  /** `k` is the first time power was lost with a listed log in flight. */
  ghost predicate FirstLoss(r: Run, k: nat) {
    LostInFlight(r, k) && forall l :: 0 <= l < k ==> !LostInFlight(r, l)
  }

  /** The logs of a process that lost power stay where they are in the dependency file. */
  lemma {:induction false} LostLogsStay(m: Mapping, r: Run, k: nat, n: nat)
    requires IsRun(m, r) && k < n < |r.states| && r.steps[k].Crash?
    ensures AllLogs(r.states[k]) <= r.states[n].stale
    decreases n
  {
    assert StepsAt(m, r, n - 1);
    if n > k + 1 { LostLogsStay(m, r, k, n - 1); }
  }

  lemma {:induction false} FirstFlagStays(s: Sys, all: seq<LogState>)
    requires FlagsOk(s) && OwnLog(s) && AllLogs(s) <= all
    ensures FirstActive(all) == |s.stale| + s.phase.j && Reads(all) == s.logs[s.phase.j].durable
  {
    var j := |s.stale| + s.phase.j;
    forall t | 0 <= t < j
      ensures !FlagUp(all[t])
    {
      assert all[t] == AllLogs(s)[t];
      if t >= |s.stale| { assert all[t] == s.logs[t - |s.stale|]; }
    }
    assert all[j] == AllLogs(s)[j] == s.logs[s.phase.j];
    FirstActiveIs(all, j);
  }

  /** From then on recovery reads that log and no other. */
  lemma {:induction false} ReadsFirstLost(m: Mapping, r: Run, k: nat, n: nat)
    requires IsRun(m, r) && FirstLoss(r, k) && k < n < |r.states|
    ensures Reads(AllLogs(r.states[n])) == r.states[k].logs[r.states[k].phase.j].durable
  {
    RunInv(m, r, k);
    HiddenIff(m, r, k);
    LostLogsStay(m, r, k, n);
    FirstFlagStays(r.states[k], AllLogs(r.states[n]));
  }

  /**
   Once power was lost with a listed log in flight, at step `k`, that log stays ACTIVE and every later
   recovery replays it and no other. That is right exactly when replaying it does nothing to the committed
   image, and the bytes it does not cover are unharmed.
   */
  lemma {:induction false} StaleLogWorksIff(m: Mapping, r: Run, k: nat, n: nat)
    requires IsRun(m, r) && FirstLoss(r, k) && k < n < |r.states|
    ensures |r.states[n].cache| == |r.states[n].loose| == |r.committed[n]| == m.size
    ensures var stale := r.states[k].logs[r.states[k].phase.j].durable;
            && Fits(stale, m.size)
            && (SafeAt(r, n) <==>
                && Replay(r.committed[n], stale) == r.committed[n]
                && forall i :: 0 <= i < m.size && !Covered(stale, i) ==> Unharmed(r.states[n], r.committed[n], i))
  {
    RunInv(m, r, k);
    ReadsFirstLost(m, r, k, n);
    SafeIff(m, r, n);
    ReplayHarmlessIff(r.committed[n], r.states[k].logs[r.states[k].phase.j].durable);
  }

  /** If the whole log could be read and the program was disciplined: its ranges must be committed as they were then. */
  lemma {:induction false} StaleWholeLogIff(m: Mapping, r: Run, k: nat, n: nat)
    requires IsRun(m, r) && FirstLoss(r, k) && k < n < |r.states| && Disciplined(m, r, k)
    requires var log := r.states[k].logs[r.states[k].phase.j]; log.durable == log.undo
    ensures WellFormed(m, r.states[k]) && |r.states[n].cache| == |r.states[n].loose| == |r.committed[k]| == |r.committed[n]| == m.size
    ensures var log, s, g := r.states[k].logs[r.states[k].phase.j], r.states[n], r.committed[n];
            SafeAt(r, n) <==>
            && (forall i :: 0 <= i < m.size && Ranged(m, log, i) ==> g[i] == r.committed[k][i])
            && (forall i :: 0 <= i < m.size && !Ranged(m, log, i) ==> Unharmed(s, g, i))
  {
    RunTidy(m, r, k);
    var s := r.states[k];
    var log := s.logs[s.phase.j];
    StaleLogWorksIff(m, r, k, n);
    ReplayHarmlessIff(r.committed[n], log.undo);
    assert Consistent(m, log) && Live(s, s.phase.j) && RestoresTo(log, r.committed[k]);
  }
}

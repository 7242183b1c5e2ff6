/**
 The discipline that undo logging asks of a program: it logs before it stores, keeps the ranges of its
 threads apart and takes snapshots of the whole region. What the logs then hold against the medium, kept
 by every step.
 */
module Discipline {
  import opened Bytes
  import opened UndoLog
  import opened CopyPlan
  import opened CrashProtocol
  import opened CrashRuns
  import opened SnapshotRuns

  // ----- Discipline -----

  predicate Disjoint(a: Range, b: Range) {
    a.bytes == 0 || b.bytes == 0 || a.addr + a.bytes <= b.addr || b.addr + b.bytes <= a.addr
  }

  /** Neither range's write, which may be widened, reaches into the other range. */
  ghost predicate Apart(m: Mapping, r: Range, q: Range)
    requires m.Ok() && m.Tracks(r) && m.Tracks(q)
  {
    Disjoint(m.Copied(r), m.Place(q)) && Disjoint(m.Place(r), m.Copied(q))
  }

  ghost predicate LoggedSomewhere(s: Sys, i: int) {
    exists t :: 0 <= t < |s.logs| && Covered(s.logs[t].undo, i)
  }

  ghost predicate DisciplinedStep(m: Mapping, s: Sys, step: Step)
    requires WellFormed(m, s) && Enabled(m, s, step)
  {
    match step
    case LogRange(t, r) =>
      forall u, k :: 0 <= u < |s.logs| && u != t && 0 <= k < |s.logs[u].entries| ==> Apart(m, r, s.logs[u].entries[k])
    case Store(at, data) => forall i :: at <= i < at + |data| ==> LoggedSomewhere(s, i)
    case Begin(call) => WholeRegion(m, call.addr, call.bytes)
    case _ => true
  }

  // ----- The invariant of disciplined runs -----

  ghost predicate Ranged(m: Mapping, log: LogState, i: int)
    requires AllTracked(m, log.entries)
  {
    Touched(Exact(m, log.entries), i)
  }

  /** List and undo entries cover the same bytes, although duplicates have no undo entry. */
  ghost predicate Consistent(m: Mapping, log: LogState) {
    && AllTracked(m, log.entries) && Fits(log.undo, m.size)
    && (forall i: nat :: Covered(log.undo, i) <==> Ranged(m, log, i))
    && (log.lastLog == Range(0, 0) || log.lastLog in log.entries)
  }

  /** The oldest undo entry of every covered byte holds the committed value. */
  ghost predicate RestoresTo(log: LogState, g: Image) {
    forall i :: 0 <= i < |g| && Covered(log.undo, i) ==> Oldest(log.undo, i) == g[i]
  }

  ghost predicate AllApart(m: Mapping, s: Sys)
    requires WellFormed(m, s)
  {
    forall t, u, k, l :: 0 <= t < |s.logs| && 0 <= u < |s.logs| && t != u && 0 <= k < |s.logs[t].entries| && 0 <= l < |s.logs[u].entries|
      ==> Apart(m, s.logs[t].entries[k], s.logs[u].entries[l])
  }

  /** Log `t` still holds uncommitted data: it is not the one just marked EMPTY. */
  predicate Live(s: Sys, t: nat) {
    t < |s.logs| && !(s.phase.Dropped? && s.phase.j == t)
  }

  ghost predicate LiveCovers(s: Sys, i: int) {
    exists t: nat :: Live(s, t) && Covered(s.logs[t].undo, i)
  }

  /** Copying byte `i` for log `j` cannot expose anything that is not log `j`'s to commit. */
  ghost predicate Harmless(m: Mapping, s: Sys, g: Image, j: nat, i: int)
    requires WellFormed(m, s) && |g| == m.size && j < |s.logs|
  {
    0 <= i < m.size && (Ranged(m, s.logs[j], i) || s.cache[i] == g[i])
  }

  ghost predicate LogsOk(m: Mapping, s: Sys, g: Image)
    requires WellFormed(m, s)
  {
    && AllApart(m, s)
    && (forall t :: 0 <= t < |s.logs| ==> Consistent(m, s.logs[t]))
    && (forall t :: 0 <= t < |s.logs| && Live(s, t) ==> RestoresTo(s.logs[t], g))
  }

  /** Parity: a byte of the page cache differs from the committed image only if a live log covers it. */
  ghost predicate CacheOk(s: Sys, g: Image)
    requires |s.cache| == |g|
  {
    forall i :: 0 <= i < |g| && s.cache[i] != g[i] ==> LiveCovers(s, i)
  }

  /** The logs whose turn is over are empty, and the call is for the whole region. */
  ghost predicate TurnsOk(m: Mapping, s: Sys) {
    !s.phase.Idle? ==> WholeRegion(m, s.call.addr, s.call.bytes) && forall t :: 0 <= t < |s.logs| && t < s.phase.j ==> s.logs[t].undo == []
  }

  /**
   A loose value is the committed one, apart from the 1 stored to the first byte by mapping the file and,
   during the first snapshot, what the page cache holds.
   */
  ghost predicate LooseOk(s: Sys, g: Image)
    requires |s.loose| == |s.cache| == |g|
  {
    forall i, v :: 0 <= i < |g| && v in s.loose[i] ==> v == g[i] || (i == 0 && v == 1) || (s.start.Syncing? && v == s.cache[i])
  }

  ghost predicate Tidy(m: Mapping, s: Sys, g: Image)
    requires WellFormed(m, s) && |g| == m.size
  {
    LogsOk(m, s, g) && CacheOk(s, g) && TurnsOk(m, s) && LooseOk(s, g)
  }

  // ----- Every disciplined step keeps it -----

  lemma ExactSnoc(m: Mapping, entries: seq<Range>, r: Range, i: int)
    requires AllTracked(m, entries) && m.Tracks(r)
    ensures AllTracked(m, entries + [r])
    ensures Touched(Exact(m, entries + [r]), i) <==> Touched(Exact(m, entries), i) || m.Place(r).Has(i)
  {
    var a, b := Exact(m, entries), Exact(m, entries + [r]);
    assert b == a + [m.Place(r)];
    if Touched(b, i) {
      var k :| 0 <= k < |b| && b[k].Has(i);
      if k < |a| { assert a[k].Has(i); }
    }
    if Touched(a, i) {
      var k :| 0 <= k < |a| && a[k].Has(i);
      assert b[k].Has(i);
    }
    if m.Place(r).Has(i) { assert b[|a|].Has(i); }
  }

  lemma CoveredSnoc(undo: seq<Entry>, e: Entry, i: int)
    ensures Covered(undo + [e], i) <==> Covered(undo, i) || e.Has(i)
  {
    CoveredConcat(undo, [e], i);
    if e.Has(i) { assert [e][0].Has(i); }
  }

  lemma InListIsRanged(m: Mapping, log: LogState, r: Range, i: int)
    requires AllTracked(m, log.entries) && r in log.entries && m.Tracks(r) && m.Place(r).Has(i)
    ensures Ranged(m, log, i)
  {
    var k :| 0 <= k < |log.entries| && log.entries[k] == r;
    assert Exact(m, log.entries)[k].Has(i);
  }

  /** log_range keeps list and undo entries in step, and the new undo entry holds the current bytes. */
  lemma LoggedConsistent(m: Mapping, log: LogState, cache: Image, r: Range)
    requires m.Ok() && 0 < m.startAddr && |cache| == m.size && m.Tracks(r) && Consistent(m, log)
    ensures Consistent(m, Logged(m, log, cache, r))
  {
    var log' := Logged(m, log, cache, r);
    forall i: nat
      ensures Covered(log'.undo, i) <==> Ranged(m, log', i)
    {
      ExactSnoc(m, log.entries, r, i);
      if log.lastLog == r {
        if m.Place(r).Has(i) { InListIsRanged(m, log, r, i); }
      } else {
        CoveredSnoc(log.undo, log'.undo[|log.undo|], i);
      }
    }
    assert Fits(log'.undo, m.size);
    assert AllTracked(m, log'.entries);
  }

  lemma LoggedRestores(m: Mapping, log: LogState, cache: Image, r: Range, g: Image)
    requires |cache| == |g| == m.size && m.Tracks(r) && RestoresTo(log, g)
    requires forall i :: m.Place(r).Has(i) && cache[i] != g[i] ==> Covered(log.undo, i)
    ensures RestoresTo(Logged(m, log, cache, r), g)
  {
    if log.lastLog != r {
      var e := Entry(m.Place(r).addr, cache[m.Place(r).addr..m.Place(r).addr + r.bytes]);
      forall i | 0 <= i < |g| && Covered(log.undo + [e], i)
        ensures Oldest(log.undo + [e], i) == g[i]
      {
        OldestConcat(log.undo, [e], i);
      }
    }
  }

  /** A byte of one log's range is not covered by another log. */
  lemma ApartLogsDisjoint(m: Mapping, s: Sys, t: nat, u: nat, r: Range, i: nat)
    requires WellFormed(m, s) && t < |s.logs| && u < |s.logs| && t != u
    requires m.Tracks(r) && m.Place(r).Has(i)
    requires forall k :: 0 <= k < |s.logs[u].entries| ==> Apart(m, r, s.logs[u].entries[k])
    requires Consistent(m, s.logs[u])
    ensures !Covered(s.logs[u].undo, i)
  {
    forall k | 0 <= k < |s.logs[u].entries|
      ensures !m.Place(s.logs[u].entries[k]).Has(i)
    {
      assert Apart(m, r, s.logs[u].entries[k]);
    }
    assert !Ranged(m, s.logs[u], i);
  }

  lemma LiveCoversMono(s: Sys, s': Sys, i: int)
    requires LiveCovers(s, i) && |s.logs| == |s'.logs|
    requires forall t: nat :: Live(s, t) ==> Live(s', t)
    requires forall t :: 0 <= t < |s.logs| && Covered(s.logs[t].undo, i) ==> Covered(s'.logs[t].undo, i)
    ensures LiveCovers(s', i)
  {
    var t: nat :| Live(s, t) && Covered(s.logs[t].undo, i);
    assert Live(s', t);
  }

  lemma {:induction false} LoggedApart(m: Mapping, s: Sys, t: nat, r: Range)
    requires WellFormed(m, s) && AllApart(m, s) && Enabled(m, s, LogRange(t, r)) && DisciplinedStep(m, s, LogRange(t, r))
    requires WellFormed(m, Next(m, s, LogRange(t, r)))
    ensures AllApart(m, Next(m, s, LogRange(t, r)))
  {
    var s', log := Next(m, s, LogRange(t, r)), s.logs[t];
    forall t', u', k, l | 0 <= t' < |s'.logs| && 0 <= u' < |s'.logs| && t' != u' && 0 <= k < |s'.logs[t'].entries| && 0 <= l < |s'.logs[u'].entries|
      ensures Apart(m, s'.logs[t'].entries[k], s'.logs[u'].entries[l])
    {
      if t' == t && k == |log.entries| {
        assert Apart(m, r, s.logs[u'].entries[l]);
      } else if u' == t && l == |log.entries| {
        assert Apart(m, r, s.logs[t'].entries[k]);
      } else {
        assert Apart(m, s.logs[t'].entries[k], s.logs[u'].entries[l]);
      }
    }
  }

  lemma {:induction false} LogRangeKeepsLogs(m: Mapping, s: Sys, g: Image, t: nat, r: Range)
    requires Inv(m, s, g) && Tidy(m, s, g) && Enabled(m, s, LogRange(t, r)) && DisciplinedStep(m, s, LogRange(t, r))
    ensures var s' := Next(m, s, LogRange(t, r)); WellFormed(m, s') && LogsOk(m, s', g)
  {
    var s' := Next(m, s, LogRange(t, r));
    var log := s.logs[t];
    LoggedConsistent(m, log, s.cache, r);
    forall i | m.Place(r).Has(i) && s.cache[i] != g[i]
      ensures Covered(log.undo, i)
    {
      var u: nat :| Live(s, u) && Covered(s.logs[u].undo, i);
      if u != t { ApartLogsDisjoint(m, s, t, u, r, i); }
    }
    LoggedRestores(m, log, s.cache, r, g);
    LoggedApart(m, s, t, r);
  }

  lemma {:induction false} LogRangeStep(m: Mapping, s: Sys, g: Image, t: nat, r: Range)
    requires Inv(m, s, g) && Tidy(m, s, g) && Enabled(m, s, LogRange(t, r)) && DisciplinedStep(m, s, LogRange(t, r))
    ensures WellFormed(m, Next(m, s, LogRange(t, r))) && Tidy(m, Next(m, s, LogRange(t, r)), g)
  {
    var s' := Next(m, s, LogRange(t, r));
    LogRangeKeepsLogs(m, s, g, t, r);
    forall i | 0 <= i < |g| && s'.cache[i] != g[i]
      ensures LiveCovers(s', i)
    {
      CoveredSnoc(s.logs[t].undo, Entry(m.Place(r).addr, s.cache[m.Place(r).addr..m.Place(r).addr + r.bytes]), i);
      LiveCoversMono(s, s', i);
    }
  }

  lemma StoreStep(m: Mapping, s: Sys, g: Image, at: nat, data: seq<Byte>)
    requires Inv(m, s, g) && Tidy(m, s, g) && Enabled(m, s, Store(at, data)) && DisciplinedStep(m, s, Store(at, data))
    ensures Tidy(m, Next(m, s, Store(at, data)), g)
  {
    var s' := Next(m, s, Store(at, data));
    forall i | 0 <= i < |g| && s'.cache[i] != g[i]
      ensures LiveCovers(s', i)
    {
      if at <= i < at + |data| {
        assert LoggedSomewhere(s, i);
        var t :| 0 <= t < |s.logs| && Covered(s.logs[t].undo, i);
        assert Live(s', t);
      } else {
        LiveCoversMono(s, s', i);
      }
    }
  }

  /** The widened write of one log's range misses the ranges of the other logs. */
  lemma WidenedMissesOthers(m: Mapping, s: Sys, j: nat, k: nat, u: nat, i: nat)
    requires WellFormed(m, s) && AllApart(m, s)
    requires j < |s.logs| && u < |s.logs| && j != u && Consistent(m, s.logs[u])
    requires k < |s.logs[j].entries| && m.Copied(s.logs[j].entries[k]).Has(i)
    ensures !Covered(s.logs[u].undo, i)
  {
    forall l | 0 <= l < |s.logs[u].entries|
      ensures !m.Place(s.logs[u].entries[l]).Has(i)
    {
      assert Apart(m, s.logs[j].entries[k], s.logs[u].entries[l]);
    }
    assert !Ranged(m, s.logs[u], i);
  }

  /** A byte that a widened write of log `j` reaches is log `j`'s, or equal in cache and committed image. */
  lemma WidenedIsHarmless(m: Mapping, s: Sys, g: Image, j: nat, k: nat, i: nat)
    requires WellFormed(m, s) && |g| == m.size && LogsOk(m, s, g) && CacheOk(s, g)
    requires j < |s.logs| && k < |s.logs[j].entries| && m.Copied(s.logs[j].entries[k]).Has(i)
    ensures Harmless(m, s, g, j, i)
  {
    forall u: nat | u < |s.logs| && u != j
      ensures !Covered(s.logs[u].undo, i)
    {
      WidenedMissesOthers(m, s, j, k, u, i);
    }
    if s.cache[i] != g[i] {
      var u: nat :| Live(s, u) && Covered(s.logs[u].undo, i);
      assert u == j && Consistent(m, s.logs[j]);
    }
  }

  /** All that the copies of log `j` touch is harmless, and they touch all of its ranges. */
  lemma {:induction false} PlanIsHarmless(m: Mapping, s: Sys, g: Image, plan: seq<Range>, i: nat)
    requires WellFormed(m, s) && |g| == m.size && Tidy(m, s, g) && !s.phase.Idle? && IsPlan(m, s, plan) && i < m.size
    ensures Touched(plan, i) ==> Harmless(m, s, g, s.phase.j, i)
    ensures Ranged(m, s.logs[s.phase.j], i) ==> Touched(plan, i)
  {
    var entries := s.logs[s.phase.j].entries;
    PlanReaches(m, entries, s.call, plan, i);
    if Touched(plan, i) {
      var e :| e in entries && m.Tracks(e) && Selected(e, s.call.addr, s.call.bytes) && m.Copied(e).Has(i);
      var k :| 0 <= k < |entries| && entries[k] == e;
      WidenedIsHarmless(m, s, g, s.phase.j, k, i);
    }
    if Ranged(m, s.logs[s.phase.j], i) {
      TouchedExact(m, entries, i);
      var e :| e in entries && m.Tracks(e) && m.Place(e).Has(i);
      WholeRegionSelects(m, e, s.call.addr, s.call.bytes);
    }
  }

  /** Ranges that stay, or go, keep apart. */
  lemma {:induction false} FewerApart(m: Mapping, s: Sys, s': Sys)
    requires WellFormed(m, s) && WellFormed(m, s') && AllApart(m, s) && |s'.logs| == |s.logs|
    requires forall t :: 0 <= t < |s.logs| ==> s'.logs[t].entries == s.logs[t].entries || s'.logs[t].entries == []
    ensures AllApart(m, s')
  {
    forall t, u, k, l | 0 <= t < |s'.logs| && 0 <= u < |s'.logs| && t != u && 0 <= k < |s'.logs[t].entries| && 0 <= l < |s'.logs[u].entries|
      ensures Apart(m, s'.logs[t].entries[k], s'.logs[u].entries[l])
    {
      assert Apart(m, s.logs[t].entries[k], s.logs[u].entries[l]);
    }
  }

  /** Only marks change: ranges, undo entries and liveness stay. */
  lemma SameLogsOk(m: Mapping, s: Sys, s': Sys, g: Image)
    requires WellFormed(m, s) && WellFormed(m, s') && |g| == m.size && LogsOk(m, s, g) && CacheOk(s, g)
    requires s'.cache == s.cache && |s'.logs| == |s.logs|
    requires forall t: nat :: Live(s, t) <==> Live(s', t)
    requires forall t :: 0 <= t < |s.logs| ==> s'.logs[t] == s.logs[t].(flag := s'.logs[t].flag, durable := s'.logs[t].durable)
    ensures LogsOk(m, s', g) && CacheOk(s', g)
  {
    forall t | 0 <= t < |s'.logs|
      ensures Consistent(m, s'.logs[t]) && (Live(s', t) ==> RestoresTo(s'.logs[t], g))
    {
      assert Consistent(m, s.logs[t]);
      assert forall i: nat :: Ranged(m, s'.logs[t], i) == Ranged(m, s.logs[t], i);
    }
    forall i | 0 <= i < |g| && s'.cache[i] != g[i]
      ensures LiveCovers(s', i)
    {
      LiveCoversMono(s, s', i);
    }
    FewerApart(m, s, s');
  }

  lemma {:induction false} ActivateTidy(m: Mapping, s: Sys, g: Image, plan: seq<Range>, durable: seq<Entry>)
    requires Inv(m, s, g) && Tidy(m, s, g) && Enabled(m, s, Activate(plan, durable))
    ensures WellFormed(m, Next(m, s, Activate(plan, durable))) && Tidy(m, Next(m, s, Activate(plan, durable)), g)
  {
    SameLogsOk(m, s, Next(m, s, Activate(plan, durable)), g);
  }

  lemma {:induction false} DrainTidy(m: Mapping, s: Sys, g: Image)
    requires Inv(m, s, g) && Tidy(m, s, g) && Enabled(m, s, Drain)
    ensures WellFormed(m, Next(m, s, Drain)) && Tidy(m, Next(m, s, Drain), g)
  {
    DrainStep(m, s, g);
    SameLogsOk(m, s, Next(m, s, Drain), g);
  }

  /** Committing log `j` does not touch what another log restores. */
  lemma {:induction false} OthersStillRestore(m: Mapping, s: Sys, g: Image, t: nat)
    requires Inv(m, s, g) && Tidy(m, s, g) && Enabled(m, s, MarkEmpty) && t < |s.logs| && t != s.phase.j
    ensures RestoresTo(s.logs[t], Commit(m, s, MarkEmpty, g))
  {
    var j, g' := s.phase.j, Commit(m, s, MarkEmpty, g);
    assert Consistent(m, s.logs[t]) && Live(s, t);
    forall i | 0 <= i < |g'| && Covered(s.logs[t].undo, i)
      ensures Oldest(s.logs[t].undo, i) == g'[i]
    {
      CopyRangesAt(g, s.cache, s.phase.copied, i);
      PlanReaches(m, s.logs[j].entries, s.call, s.phase.copied, i);
      if e :| e in s.logs[j].entries && m.Tracks(e) && m.Copied(e).Has(i) {
        var k :| 0 <= k < |s.logs[j].entries| && s.logs[j].entries[k] == e;
        WidenedMissesOthers(m, s, j, k, t, i);
      }
    }
  }

  /** Marking the log EMPTY commits just its ranges: the other bytes copied were equal already. */
  lemma {:induction false} CommitsRanges(m: Mapping, s: Sys, g: Image, i: nat)
    requires Inv(m, s, g) && Tidy(m, s, g) && Enabled(m, s, MarkEmpty) && i < m.size
    ensures Commit(m, s, MarkEmpty, g)[i] == if Ranged(m, s.logs[s.phase.j], i) then s.cache[i] else g[i]
  {
    CopyRangesAt(g, s.cache, s.phase.copied, i);
    PlanIsHarmless(m, s, g, s.phase.copied, i);
  }

  lemma {:induction false} CommittedCache(m: Mapping, s: Sys, g: Image)
    requires Inv(m, s, g) && Tidy(m, s, g) && Enabled(m, s, MarkEmpty)
    ensures CacheOk(Next(m, s, MarkEmpty), Commit(m, s, MarkEmpty, g))
  {
    var s', g', j := Next(m, s, MarkEmpty), Commit(m, s, MarkEmpty, g), s.phase.j;
    forall i | 0 <= i < |g'| && s'.cache[i] != g'[i]
      ensures LiveCovers(s', i)
    {
      CommitsRanges(m, s, g, i);
      var t: nat :| Live(s, t) && Covered(s.logs[t].undo, i);
      assert Consistent(m, s.logs[t]) && Ranged(m, s.logs[t], i);
      assert Live(s', t) && Covered(s'.logs[t].undo, i);
    }
  }

  /** What is loose was not copied for this log, so it is as committed as before. */
  lemma {:induction false} CommittedLoose(m: Mapping, s: Sys, g: Image)
    requires Inv(m, s, g) && Tidy(m, s, g) && Enabled(m, s, MarkEmpty)
    ensures LooseOk(Next(m, s, MarkEmpty), Commit(m, s, MarkEmpty, g))
  {
    var g' := Commit(m, s, MarkEmpty, g);
    forall i | 0 <= i < m.size && s.loose[i] != {}
      ensures g'[i] == g[i]
    {
      CopyRangesAt(g, s.cache, s.phase.copied, i);
    }
  }

  lemma {:induction false} MarkEmptyStep(m: Mapping, s: Sys, g: Image)
    requires Inv(m, s, g) && Tidy(m, s, g) && Enabled(m, s, MarkEmpty)
    ensures WellFormed(m, Next(m, s, MarkEmpty)) && Tidy(m, Next(m, s, MarkEmpty), Commit(m, s, MarkEmpty, g))
  {
    var s', g', j := Next(m, s, MarkEmpty), Commit(m, s, MarkEmpty, g), s.phase.j;
    forall t | 0 <= t < |s'.logs|
      ensures Consistent(m, s'.logs[t]) && (Live(s', t) ==> RestoresTo(s'.logs[t], g'))
    {
      assert Consistent(m, s.logs[t]);
      assert forall i: nat :: Ranged(m, s'.logs[t], i) == Ranged(m, s.logs[t], i);
      if t != j { OthersStillRestore(m, s, g, t); }
    }
    FewerApart(m, s, s');
    CommittedCache(m, s, g);
    CommittedLoose(m, s, g);
  }

  lemma FreshConsistent(m: Mapping, listed: bool)
    ensures Consistent(m, Fresh(listed)) && forall g: Image :: RestoresTo(Fresh(listed), g)
  {
    assert forall i: nat :: !Ranged(m, Fresh(listed), i);
  }

  /** When the last log has been committed the cache has nothing new. */
  lemma {:induction false} NothingLeft(m: Mapping, s: Sys, g: Image)
    requires Inv(m, s, g) && Tidy(m, s, g) && s.phase.Dropped? && s.phase.j + 1 == |s.logs|
    ensures s.cache == g
  {
    assert forall t: nat :: Live(s, t) ==> s.logs[t].undo == [];
    assert forall i :: 0 <= i < m.size ==> !LiveCovers(s, i);
  }

  lemma {:induction false} ClearStep(m: Mapping, s: Sys, g: Image)
    requires Inv(m, s, g) && Tidy(m, s, g) && Enabled(m, s, Clear)
    ensures WellFormed(m, Next(m, s, Clear)) && Tidy(m, Next(m, s, Clear), g)
  {
    var s', j := Next(m, s, Clear), s.phase.j;
    FreshConsistent(m, s.logs[j].listed);
    forall t | 0 <= t < |s'.logs| && t != j
      ensures Consistent(m, s'.logs[t]) && RestoresTo(s'.logs[t], g)
    {
      assert Live(s, t) && Consistent(m, s.logs[t]);
    }
    FewerApart(m, s, s');
    forall i | 0 <= i < |g| && s'.cache[i] != g[i]
      ensures LiveCovers(s', i)
    {
      var t: nat :| Live(s, t) && Covered(s.logs[t].undo, i);
      assert Live(s', t) && Covered(s'.logs[t].undo, i);
    }
    if j + 1 == |s.logs| { NothingLeft(m, s, g); }
  }

  lemma {:induction false} MountTidy(m: Mapping, img: Image, listed: seq<bool>, stale: seq<LogState>)
    requires |img| == m.size && WellFormed(m, Mount(m, img, listed, stale))
    ensures Tidy(m, Mount(m, img, listed, stale), img)
  {
    FreshConsistent(m, true);
    FreshConsistent(m, false);
  }

  lemma {:induction false} BeginStep(m: Mapping, s: Sys, g: Image, call: Range)
    requires Inv(m, s, g) && Tidy(m, s, g) && Enabled(m, s, Begin(call)) && DisciplinedStep(m, s, Begin(call))
    ensures WellFormed(m, Next(m, s, Begin(call))) && Tidy(m, Next(m, s, Begin(call)), g)
  {
    SameLogsOk(m, s, Next(m, s, Begin(call)), g);
  }

  lemma {:induction false} StepKeepsTidy(m: Mapping, s: Sys, g: Image, step: Step)
    requires Inv(m, s, g) && Tidy(m, s, g) && Enabled(m, s, step) && DisciplinedStep(m, s, step)
    ensures WellFormed(m, Next(m, s, step)) && Tidy(m, Next(m, s, step), Commit(m, s, step, g))
  {
    StepKeepsInv(m, s, g, step);
    match step
    case LogRange(t, r) => LogRangeStep(m, s, g, t, r);
    case Store(at, data) => StoreStep(m, s, g, at, data);
    case Begin(call) => BeginStep(m, s, g, call);
    case Activate(plan, durable) => ActivateTidy(m, s, g, plan, durable);
    case Copy => SameLogsOk(m, s, Next(m, s, Copy), g);
    case Drain => DrainTidy(m, s, g);
    case MarkEmpty => MarkEmptyStep(m, s, g);
    case Clear => ClearStep(m, s, g);
    case Crash(attempts, listed) => MountTidy(m, Commit(m, s, step, g), listed, AllLogs(s));
  }
}

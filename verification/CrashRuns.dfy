/**
 Runs of the protocol under any program: stores logged or not, threads whose ranges overlap, snapshots
 of any range, any number of power failures. What the medium can hold at every moment, when exactly
 recovery gives back the committed image, and what one snapshot does step by step.
 */
module CrashRuns {
  import opened Bytes
  import opened UndoLog
  import opened CopyPlan
  import opened CrashProtocol

  // ----- The invariant -----

  predicate InFlight(s: Sys, t: nat) {
    (s.phase.Copying? || s.phase.Drained?) && s.phase.j == t
  }

  predicate IsInFlight(s: Sys) {
    s.phase.Copying? || s.phase.Drained?
  }

  ghost predicate FlagsOk(s: Sys) {
    forall t :: 0 <= t < |s.logs| ==> (s.logs[t].flag == ACTIVE <==> InFlight(s, t))
  }

  ghost predicate IsPlan(m: Mapping, s: Sys, plan: seq<Range>)
    requires WellFormed(m, s) && !s.phase.Idle?
  {
    IsCopyPlan(m, s.logs[s.phase.j].entries, s.call.addr, s.call.bytes, plan)
  }

  /** The cache stands still during a snapshot, so pending copies hold what it holds. */
  ghost predicate CarriesCache(s: Sys) {
    forall k, i :: 0 <= k < |s.pending| && s.pending[k].Has(i) && i < |s.cache| ==>
      s.pending[k].content[i - s.pending[k].addr] == s.cache[i]
  }

  ghost predicate PhaseOk(m: Mapping, s: Sys, g: Image)
    requires WellFormed(m, s) && |g| == m.size
  {
    match s.phase
    case Copying(j, todo) => s.medium == g && CarriesCache(s) && IsPlan(m, s, Spans(s.pending) + todo)
    case Drained(j, copied) =>
      && s.pending == [] && s.medium == CopyRanges(g, s.cache, copied) && IsPlan(m, s, copied)
      && forall i :: 0 <= i < m.size && Touched(copied, i) ==> s.loose[i] == {}
    case _ => s.pending == [] && s.medium == g
  }

  ghost predicate StartOk(m: Mapping, s: Sys) {
    && (s.start.Mapped? ==> s.loose == MapStore(m.size) && (s.phase.Idle? || s.phase == Before(0)))
    && (s.start.Syncing? ==> !s.phase.Idle?)
  }

  ghost predicate Inv(m: Mapping, s: Sys, g: Image) {
    WellFormed(m, s) && |g| == m.size && FlagsOk(s) && PhaseOk(m, s, g) && StartOk(m, s)
  }

  // ----- Every step keeps it -----

  lemma TouchedSpans(pending: seq<Entry>, i: int)
    ensures Touched(Spans(pending), i) <==> Covered(pending, i)
  {
    if Touched(Spans(pending), i) {
      var k :| 0 <= k < |Spans(pending)| && Spans(pending)[k].Has(i);
      assert pending[k].Has(i);
    }
    if Covered(pending, i) {
      var k :| 0 <= k < |pending| && pending[k].Has(i);
      assert Spans(pending)[k].Has(i);
    }
  }

  lemma {:induction false} CopyStep(m: Mapping, s: Sys, g: Image)
    requires Inv(m, s, g) && Enabled(m, s, Copy)
    ensures Inv(m, Next(m, s, Copy), g)
  {
    var s', w := Next(m, s, Copy), s.phase.todo[0];
    assert Spans(s'.pending) + s'.phase.todo == Spans(s.pending) + s.phase.todo;
    assert AllWithin(s'.phase.todo, m.size);
    forall k, i | 0 <= k < |s'.pending| && s'.pending[k].Has(i) && i < |s'.cache|
      ensures s'.pending[k].content[i - s'.pending[k].addr] == s'.cache[i]
    {
      if k < |s.pending| { assert s.pending[k].Has(i); }
    }
  }

  /** Draining copies that all carry the cache's bytes makes the copied bytes equal to the cache. */
  lemma {:induction false} AppliedAt(img: Image, patches: seq<Entry>, cache: Image, i: nat)
    requires Fits(patches, |img|) && |cache| == |img| && i < |img|
    requires forall k :: 0 <= k < |patches| && patches[k].Has(i) ==> patches[k].content[i - patches[k].addr] == cache[i]
    ensures Applied(img, patches)[i] == if Covered(patches, i) then cache[i] else img[i]
    decreases |patches|
  {
    if patches != [] {
      TailCovered(patches, i);
      AppliedAt(Blit(img, patches[0].addr, patches[0].content), patches[1..], cache, i);
    }
  }

  lemma {:induction false} DrainStep(m: Mapping, s: Sys, g: Image)
    requires Inv(m, s, g) && Enabled(m, s, Drain)
    ensures Inv(m, Next(m, s, Drain), g)
  {
    var s', copied := Next(m, s, Drain), Spans(s.pending);
    assert copied + s.phase.todo == copied;
    assert AllWithin(copied, m.size);
    forall i | 0 <= i < m.size
      ensures s'.medium[i] == CopyRanges(g, s.cache, copied)[i]
      ensures Touched(copied, i) ==> s'.loose[i] == {}
    {
      AppliedAt(s.medium, s.pending, s.cache, i);
      CopyRangesAt(g, s.cache, copied, i);
      TouchedSpans(s.pending, i);
    }
  }

  /** Whatever recovery makes of the image, the next process starts from it; only the first byte is not on par. */
  lemma {:induction false} CrashStep(m: Mapping, s: Sys, g: Image, attempts: seq<Image>, listed: seq<bool>)
    requires Inv(m, s, g) && Enabled(m, s, Crash(attempts, listed))
    ensures var img := Commit(m, s, Crash(attempts, listed), g);
            Next(m, s, Crash(attempts, listed)) == Mount(m, img, listed, AllLogs(s)) && Inv(m, Mount(m, img, listed, AllLogs(s)), img)
    ensures Commit(m, s, Crash(attempts, listed), g) == Recover(attempts[0], AllLogs(s))
  {
    InterruptedReplay(attempts, Reads(AllLogs(s)));
    var s' := Next(m, s, Crash(attempts, listed));
    forall t | 0 <= t < |s'.stale|
      ensures Fits(s'.stale[t].durable, m.size)
    {
      if t >= |s.stale| { assert s'.stale[t] == s.logs[t - |s.stale|]; }
    }
  }

  /** The program's own steps, and the call of snapshot(). */
  lemma {:induction false} ProgramStep(m: Mapping, s: Sys, g: Image, step: Step)
    requires Inv(m, s, g) && Enabled(m, s, step) && (step.LogRange? || step.Store? || step.Begin?)
    ensures Inv(m, Next(m, s, step), g)
  {
  }

  lemma {:induction false} ActivateStep(m: Mapping, s: Sys, g: Image, plan: seq<Range>, durable: seq<Entry>)
    requires Inv(m, s, g) && Enabled(m, s, Activate(plan, durable))
    ensures Inv(m, Next(m, s, Activate(plan, durable)), g)
  {
    assert Spans(s.pending) + plan == plan;
  }

  lemma {:induction false} CloseStep(m: Mapping, s: Sys, g: Image, step: Step)
    requires Inv(m, s, g) && Enabled(m, s, step) && (step.MarkEmpty? || step.Clear?)
    ensures Inv(m, Next(m, s, step), Commit(m, s, step, g))
  {
  }

  lemma {:induction false} StepKeepsInv(m: Mapping, s: Sys, g: Image, step: Step)
    requires Inv(m, s, g) && Enabled(m, s, step)
    ensures Inv(m, Next(m, s, step), Commit(m, s, step, g))
  {
    match step
    case LogRange(_, _) => ProgramStep(m, s, g, step);
    case Store(_, _) => ProgramStep(m, s, g, step);
    case Begin(_) => ProgramStep(m, s, g, step);
    case Activate(plan, durable) => ActivateStep(m, s, g, plan, durable);
    case Copy => CopyStep(m, s, g);
    case Drain => DrainStep(m, s, g);
    case MarkEmpty => CloseStep(m, s, g, step);
    case Clear => CloseStep(m, s, g, step);
    case Crash(attempts, listed) => CrashStep(m, s, g, attempts, listed);
  }

  // ----- Runs -----

  /** A process that has just mapped the file for the first time. */
  ghost predicate Init(m: Mapping, s: Sys) {
    && m.Ok() && 0 < m.startAddr && 0 < m.size && |s.medium| == m.size
    && exists listed: seq<bool> :: s == Mount(m, s.medium, listed, [])
  }

  /** A run, with the committed image after every step kept beside it. */
  datatype Run = Run(states: seq<Sys>, steps: seq<Step>, committed: seq<Image>)

  ghost predicate Steps(m: Mapping, s: Sys, g: Image, step: Step, s': Sys, g': Image) {
    WellFormed(m, s) && Enabled(m, s, step) && s' == Next(m, s, step) && |g| == m.size && g' == Commit(m, s, step, g)
  }

  ghost predicate StepsAt(m: Mapping, r: Run, k: nat)
    requires k < |r.steps| && |r.states| == |r.committed| == |r.steps| + 1
  {
    Steps(m, r.states[k], r.committed[k], r.steps[k], r.states[k + 1], r.committed[k + 1])
  }

  ghost predicate IsRun(m: Mapping, r: Run) {
    && |r.states| == |r.committed| == |r.steps| + 1
    && Init(m, r.states[0]) && r.committed[0] == r.states[0].medium
    && forall k :: 0 <= k < |r.steps| ==> StepsAt(m, r, k)
  }

  lemma {:induction false} InitInv(m: Mapping, s: Sys)
    requires Init(m, s)
    ensures Inv(m, s, s.medium)
  {
    var listed :| s == Mount(m, s.medium, listed, []);
  }

  lemma {:induction false} StepInv(m: Mapping, s: Sys, g: Image, step: Step, s': Sys, g': Image)
    requires Steps(m, s, g, step, s', g') && Inv(m, s, g)
    ensures Inv(m, s', g')
  {
    StepKeepsInv(m, s, g, step);
  }

  lemma {:induction false} RunInv(m: Mapping, r: Run, n: nat)
    requires IsRun(m, r) && n < |r.states|
    ensures Inv(m, r.states[n], r.committed[n])
  {
    if n == 0 {
      InitInv(m, r.states[0]);
    } else {
      RunInv(m, r, n - 1);
      assert StepsAt(m, r, n - 1);
      StepInv(m, r.states[n - 1], r.committed[n - 1], r.steps[n - 1], r.states[n], r.committed[n]);
    }
  }

  // ----- What a crash can do to a byte -----

  /** A copy of byte `i` is issued or drained, but not committed. */
  ghost predicate Exposed(s: Sys, i: int) {
    match s.phase
    case Copying(_, _) => Covered(s.pending, i)
    case Drained(_, copied) => Touched(copied, i)
    case _ => false
  }

  /** No store to byte `i` that may have reached the medium makes a difference. */
  ghost predicate Unharmed(s: Sys, g: Image, i: nat)
    requires i < |s.cache| == |s.loose| == |g|
  {
    (Exposed(s, i) ==> s.cache[i] == g[i]) && s.loose[i] <= {g[i]}
  }

  /** A byte can come out of a crash changed exactly if an uncommitted copy or a loose store of it is new. */
  lemma {:induction false} CrashByte(m: Mapping, s: Sys, g: Image, i: nat)
    requires Inv(m, s, g) && i < m.size
    ensures (forall v: Byte :: MayBeAt(s, i, v) ==> v == g[i]) <==> Unharmed(s, g, i)
  {
    if forall v: Byte :: MayBeAt(s, i, v) ==> v == g[i] {
      forall v | v in s.loose[i]
        ensures v == g[i]
      {
        assert MayBeAt(s, i, v);
      }
    }
    match s.phase
    case Copying(_, _) =>
      if Covered(s.pending, i) {
        var k :| 0 <= k < |s.pending| && s.pending[k].Has(i);
        assert MayBeAt(s, i, s.cache[i]);
      }
    case Drained(_, copied) =>
      CopyRangesAt(g, s.cache, copied, i);
      assert MayBeAt(s, i, s.medium[i]);
    case _ =>
  }

  // ----- When recovery is right -----

  /** On every byte, either the entries seen restore the committed value or no crash can have changed it. */
  ghost predicate SuffersNoLoss(s: Sys, g: Image, seen: seq<Entry>)
    requires |s.medium| == |s.loose| == |g|
  {
    forall i :: 0 <= i < |g| ==>
      if Covered(seen, i) then Oldest(seen, i) == g[i] else forall v: Byte :: MayBeAt(s, i, v) ==> v == g[i]
  }

  lemma SeenSuffices(s: Sys, g: Image, seen: seq<Entry>, c: Image)
    requires |s.medium| == |s.loose| == |g| && Fits(seen, |g|) && SuffersNoLoss(s, g, seen) && CrashImage(s, c)
    ensures Replay(c, seen) == g
  {
    forall i | 0 <= i < |g|
      ensures Replay(c, seen)[i] == g[i]
    {
      ReplayAt(c, seen, i);
      assert MayBeAt(s, i, c[i]);
    }
  }

  /** The crash image in which byte `i` has the value `v` and every other byte is as last drained. */
  lemma OneByteSurvives(s: Sys, i: nat, v: Byte)
    requires i < |s.medium| == |s.loose| && MayBeAt(s, i, v)
    ensures CrashImage(s, s.medium[i := v])
  {
  }

  /**
   Whatever entries recovery reads from the ACTIVE log (a prefix of it, nothing, or damaged ones),
   it restores the committed image from every crash image exactly when those entries lose no byte.
   */
  lemma RecoveryWorksIff(s: Sys, g: Image, seen: seq<Entry>)
    requires |s.medium| == |s.loose| == |g| && Fits(seen, |g|)
    ensures (forall c: Image :: CrashImage(s, c) ==> Replay(c, seen) == g) <==> SuffersNoLoss(s, g, seen)
  {
    if SuffersNoLoss(s, g, seen) {
      forall c: Image | CrashImage(s, c)
        ensures Replay(c, seen) == g
      {
        SeenSuffices(s, g, seen, c);
      }
    }
    if forall c: Image :: CrashImage(s, c) ==> Replay(c, seen) == g {
      forall i | 0 <= i < |g|
        ensures if Covered(seen, i) then Oldest(seen, i) == g[i] else forall v: Byte :: MayBeAt(s, i, v) ==> v == g[i]
      {
        forall v: Byte | MayBeAt(s, i, v)
          ensures if Covered(seen, i) then Oldest(seen, i) == g[i] else v == g[i]
        {
          OneByteSurvives(s, i, v);
          ReplayAt(s.medium[i := v], seen, i);
        }
        assert MayBeAt(s, i, s.medium[i]);
      }
    }
  }

  /** Recovery gives back `g`, whatever survives and however often recovery itself loses power. */
  ghost predicate Safe(s: Sys, g: Image) {
    && |s.medium| == |s.loose| && Fits(Reads(AllLogs(s)), |s.medium|)
    && forall attempts :: Attempts(s, attempts) ==> Recover(Last(attempts), AllLogs(s)) == g
  }

  /** Attempts that were cut short make no difference. */
  lemma {:induction false} SafeFromImages(s: Sys, g: Image)
    requires |s.medium| == |s.loose| && Fits(Reads(AllLogs(s)), |s.medium|)
    ensures Safe(s, g) <==> forall c: Image :: CrashImage(s, c) ==> Recover(c, AllLogs(s)) == g
  {
    if Safe(s, g) {
      forall c: Image | CrashImage(s, c)
        ensures Recover(c, AllLogs(s)) == g
      {
        assert Attempts(s, [c]) && Last([c]) == c;
      }
    }
    forall attempts | Attempts(s, attempts)
      ensures Recover(Last(attempts), AllLogs(s)) == Recover(attempts[0], AllLogs(s))
    {
      InterruptedReplay(attempts, Reads(AllLogs(s)));
    }
  }

  /** What is read restores the committed value, or nothing is read and a crash cannot have changed the byte. */
  ghost predicate Restored(s: Sys, g: Image, seen: seq<Entry>)
    requires |s.cache| == |s.loose| == |g|
  {
    forall i :: 0 <= i < |g| ==> if Covered(seen, i) then Oldest(seen, i) == g[i] else Unharmed(s, g, i)
  }

  /**
   Whichever log recovery comes upon, and whatever it reads there: it gives back the committed image from
   every crash image exactly when no byte it writes is wrong and every byte it does not write is unharmed.
   */
  lemma {:induction false} RecoveryRightIff(m: Mapping, s: Sys, g: Image)
    requires Inv(m, s, g)
    ensures Safe(s, g) <==> Restored(s, g, Reads(AllLogs(s)))
  {
    ReadsFit(m, s);
    SafeFromImages(s, g);
    RecoveryWorksIff(s, g, Reads(AllLogs(s)));
    UnharmedSufferNoLoss(m, s, g, Reads(AllLogs(s)));
  }

  lemma {:induction false} UnharmedSufferNoLoss(m: Mapping, s: Sys, g: Image, seen: seq<Entry>)
    requires Inv(m, s, g)
    ensures SuffersNoLoss(s, g, seen) <==> Restored(s, g, seen)
  {
    forall i | 0 <= i < m.size
      ensures (forall v: Byte :: MayBeAt(s, i, v) ==> v == g[i]) <==> Unharmed(s, g, i)
    {
      CrashByte(m, s, g, i);
    }
  }

  /** Power lost after step `n` of the run does no harm. */
  ghost predicate SafeAt(r: Run, n: nat)
    requires n < |r.states| && n < |r.committed|
  {
    Safe(r.states[n], r.committed[n])
  }

  /** The exact condition, for every run: its earlier crashes and what they left behind are part of it. */
  lemma {:induction false} SafeIff(m: Mapping, r: Run, n: nat)
    requires IsRun(m, r) && n < |r.states|
    ensures |r.states[n].cache| == |r.states[n].loose| == |r.committed[n]| == m.size
    ensures SafeAt(r, n) <==> Restored(r.states[n], r.committed[n], Reads(AllLogs(r.states[n])))
  {
    RunInv(m, r, n);
    RecoveryRightIff(m, r.states[n], r.committed[n]);
  }

  // ----- Which log recovery comes upon -----

  predicate FlagUp(log: LogState) {
    log.flag == ACTIVE && log.listed
  }

  lemma {:induction false} FirstActiveIs(logs: seq<LogState>, j: nat)
    requires j <= |logs|
    requires forall t :: 0 <= t < j ==> !FlagUp(logs[t])
    requires j < |logs| ==> FlagUp(logs[j])
    ensures FirstActive(logs) == j
  {
    if j > 0 { FirstActiveIs(logs[1..], j - 1); }
  }

  /** Of one process's logs at most one is ACTIVE at any moment of any run: the one in flight. */
  lemma AtMostOneActive(m: Mapping, r: Run, n: nat, t: nat)
    requires IsRun(m, r) && n < |r.states| && t < |r.states[n].logs|
    ensures r.states[n].logs[t].flag == ACTIVE <==> IsInFlight(r.states[n]) && r.states[n].phase.j == t
  {
    RunInv(m, r, n);
  }

  /** An older log hides the one in flight. */
  ghost predicate Hidden(s: Sys) {
    exists t :: 0 <= t < |s.stale| && FlagUp(s.stale[t])
  }

  /** With no older log in the way recovery reads the log in flight, if it is listed. */
  lemma {:induction false} ReadsOwnLog(m: Mapping, s: Sys, g: Image)
    requires Inv(m, s, g) && !Hidden(s)
    ensures Reads(AllLogs(s)) == if IsInFlight(s) && s.logs[s.phase.j].listed then s.logs[s.phase.j].durable else []
  {
    var all := AllLogs(s);
    var j := if IsInFlight(s) && s.logs[s.phase.j].listed then |s.stale| + s.phase.j else |all|;
    forall t | 0 <= t < j
      ensures !FlagUp(all[t])
    {
      if t >= |s.stale| { assert all[t] == s.logs[t - |s.stale|]; }
    }
    FirstActiveIs(all, j);
  }

  /** Power was lost at step `k` while a listed log was in flight. */
  ghost predicate LostInFlight(r: Run, k: nat) {
    && k < |r.steps| < |r.states| && r.steps[k].Crash? && IsInFlight(r.states[k])
    && r.states[k].phase.j < |r.states[k].logs| && r.states[k].logs[r.states[k].phase.j].listed
  }

  lemma {:induction false} HiddenCrash(m: Mapping, s: Sys, g: Image, stale: seq<LogState>)
    requires Inv(m, s, g) && stale == AllLogs(s)
    ensures (exists t :: 0 <= t < |stale| && FlagUp(stale[t])) <==> Hidden(s) || (IsInFlight(s) && s.logs[s.phase.j].listed)
  {
    if Hidden(s) {
      var t :| 0 <= t < |s.stale| && FlagUp(s.stale[t]);
      assert FlagUp(stale[t]);
    }
    if IsInFlight(s) && s.logs[s.phase.j].listed { assert FlagUp(stale[|s.stale| + s.phase.j]); }
    if t :| 0 <= t < |stale| && FlagUp(stale[t]) {
      if t >= |s.stale| { assert stale[t] == s.logs[t - |s.stale|]; }
    }
  }

  lemma {:induction false} HiddenStep(m: Mapping, s: Sys, g: Image, step: Step)
    requires Inv(m, s, g) && Enabled(m, s, step)
    ensures Hidden(Next(m, s, step)) <==>
            Hidden(s) || (step.Crash? && IsInFlight(s) && s.logs[s.phase.j].listed)
  {
    if step.Crash? {
      HiddenCrash(m, s, g, Next(m, s, step).stale);
    } else {
      assert Next(m, s, step).stale == s.stale;
    }
  }

  /** An older log that hides the one in flight is there exactly when power was lost before with a listed log in flight. */
  lemma {:induction false} HiddenIff(m: Mapping, r: Run, n: nat)
    requires IsRun(m, r) && n < |r.states|
    ensures Hidden(r.states[n]) <==> exists k :: 0 <= k < n && LostInFlight(r, k)
  {
    if n > 0 {
      HiddenIff(m, r, n - 1);
      RunInv(m, r, n - 1);
      assert StepsAt(m, r, n - 1);
      HiddenStep(m, r.states[n - 1], r.committed[n - 1], r.steps[n - 1]);
      if k :| 0 <= k < n - 1 && LostInFlight(r, k) { assert 0 <= k < n && LostInFlight(r, k); }
      if Hidden(r.states[n]) && !Hidden(r.states[n - 1]) { assert LostInFlight(r, n - 1); }
    }
  }
}

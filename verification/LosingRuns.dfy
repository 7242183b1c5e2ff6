/**
 The shortest runs in which data is lost: one byte is logged, stored to and copied by a
 snapshot. Which recovery then goes wrong depends on what it can read, where it looks and what is loose.
 */
module LosingRuns {
  import opened Bytes
  import opened UndoLog
  import opened WidenedWrite
  import opened CopyPlan
  import opened CrashProtocol
  import opened CrashRuns
  import opened Discipline
  import opened CrashAtomicity
  import opened RecoveryLimits

  function Page(): (img: Image)
    ensures |img| == 4096 && forall i :: 0 <= i < 4096 ==> img[i] == 0
  {
    seq(4096, _ => 0)
  }

  function Dirty(img: Image, o: nat): (r: Image)
    requires |img| == 4096 && o < 4096
    ensures |r| == 4096 && forall i :: 0 <= i < 4096 ==> r[i] == if i == o then 1 else img[i]
  {
    img[o := 1]
  }

  const SMALL := Mapping(false, 4096, 8192, 4096)
  const CALL := Range(4096, 4096)

  function OneByte(o: nat): Range {
    Range(4096 + o, 1)
  }

  function Undo(o: nat): seq<Entry> {
    [Entry(o, [0])]
  }

  /** The log once the byte is in it, and once it is ACTIVE, and EMPTY again, with `d` to be read. */
  function Noted(o: nat, listed: bool): LogState {
    Off(o, listed, [])
  }

  function On(o: nat, listed: bool, d: seq<Entry>): LogState {
    LogState(ACTIVE, listed, Undo(o), [OneByte(o)], OneByte(o), d)
  }

  function Off(o: nat, listed: bool, d: seq<Entry>): LogState {
    LogState(EMPTY, listed, Undo(o), [OneByte(o)], OneByte(o), d)
  }

  /** What is loose once the first snapshot has begun, and once byte `o` is drained. */
  function Bulk(o: nat): (loose: seq<set<Byte>>)
    requires o < 4096
    ensures |loose| == 4096
  {
    BulkCopy(MapStore(4096), Dirty(Page(), o))
  }

  ghost function Rest(o: nat): (loose: seq<set<Byte>>)
    requires o < 4096
    ensures |loose| == 4096
  {
    Settle(Bulk(o), [Entry(o, [1])])
  }

  /** The states of a process's first snapshot, of byte `o` alone, with the logs in `stale` before its own. */
  ghost function At(p: nat, o: nat, stale: seq<LogState>, listed: bool, d: seq<Entry>): Sys
    requires o < 4096
  {
    var dirty := Dirty(Page(), o);
    var one := MapStore(4096);
    if p == 0 then Mount(SMALL, Page(), [listed], stale)
    else if p == 1 then Sys(Page(), Page(), one, [], [Noted(o, listed)], Idle, Range(0, 0), Mapped, stale)
    else if p == 2 then Sys(dirty, Page(), one, [], [Noted(o, listed)], Idle, Range(0, 0), Mapped, stale)
    else if p == 3 then Sys(dirty, Page(), one, [], [Noted(o, listed)], Before(0), CALL, Mapped, stale)
    else if p == 4 then Sys(dirty, Page(), Bulk(o), [], [On(o, listed, d)], Copying(0, [Range(o, 1)]), CALL, Syncing, stale)
    else if p == 5 then Sys(dirty, Page(), Bulk(o), [Entry(o, [1])], [On(o, listed, d)], Copying(0, []), CALL, Syncing, stale)
    else if p == 6 then Sys(dirty, dirty, Rest(o), [], [On(o, listed, d)], Drained(0, [Range(o, 1)]), CALL, Syncing, stale)
    else if p == 7 then Sys(dirty, dirty, Rest(o), [], [Off(o, listed, d)], Dropped(0), CALL, Syncing, stale)
    else Sys(dirty, dirty, Rest(o), [], [Fresh(listed)], Idle, CALL, Synced, stale)
  }

  function Do(p: nat, o: nat, d: seq<Entry>): Step {
    if p == 0 then LogRange(0, OneByte(o))
    else if p == 1 then Store(o, [1])
    else if p == 2 then Begin(CALL)
    else if p == 3 then Activate([Range(o, 1)], d)
    else if p == 4 then Copy
    else if p == 5 then Drain
    else if p == 6 then MarkEmpty
    else Clear
  }

  function Kept(p: nat, o: nat): Image
    requires o < 4096
  {
    if p < 7 then Page() else Dirty(Page(), o)
  }

  ghost predicate AllFit(stale: seq<LogState>) {
    forall t :: 0 <= t < |stale| ==> Fits(stale[t].durable, 4096)
  }

  lemma {:induction false} OneBytePlan(o: nat)
    requires o < 4096
    ensures SMALL.Ok() && AllTracked(SMALL, [OneByte(o)])
    ensures IsCopyPlan(SMALL, [OneByte(o)], CALL.addr, CALL.bytes, [Range(o, 1)])
  {
    var list := [OneByte(o)];
    UnalignedBuildIsExact(8192 + o, 1);
    SelectedIff(OneByte(o), 4096, 4096);
    assert WritesFrom(SMALL, list, 1, 4096, 4096) == [];
    assert WritesFrom(SMALL, list, 0, 4096, 4096) == [Range(o, 1)];
    assert LoopOrder(list, list);
  }

  lemma StepsToNoted(o: nat, stale: seq<LogState>, listed: bool, d: seq<Entry>)
    requires o < 4096 && AllFit(stale)
    ensures Steps(SMALL, At(0, o, stale, listed, d), Page(), Do(0, o, d), At(1, o, stale, listed, d), Page())
  {
    assert Page()[o..o + 1] == [0] && [] + [OneByte(o)] == [OneByte(o)] && [] + [Entry(o, [0])] == Undo(o);
    assert Logged(SMALL, Fresh(listed), Page(), OneByte(o)) == Noted(o, listed);
    assert FreshLogs([listed])[0 := Noted(o, listed)] == [Noted(o, listed)];
  }

  lemma StepsToStored(o: nat, stale: seq<LogState>, listed: bool, d: seq<Entry>)
    requires o < 4096 && AllFit(stale)
    ensures Steps(SMALL, At(1, o, stale, listed, d), Page(), Do(1, o, d), At(2, o, stale, listed, d), Page())
    ensures Steps(SMALL, At(2, o, stale, listed, d), Page(), Do(2, o, d), At(3, o, stale, listed, d), Page())
  {
    assert Blit(Page(), o, [1]) == Dirty(Page(), o);
  }

  lemma {:induction false} MayActivate(o: nat, stale: seq<LogState>, listed: bool, d: seq<Entry>)
    requires o < 4096 && AllFit(stale) && Fits(d, 4096)
    ensures WellFormed(SMALL, At(3, o, stale, listed, d)) && Enabled(SMALL, At(3, o, stale, listed, d), Do(3, o, d))
  {
    OneBytePlan(o);
    assert At(3, o, stale, listed, d).logs[0].entries == [OneByte(o)];
  }

  lemma {:induction false} StepsToActive(o: nat, stale: seq<LogState>, listed: bool, d: seq<Entry>)
    requires o < 4096 && AllFit(stale) && Fits(d, 4096)
    ensures Steps(SMALL, At(3, o, stale, listed, d), Page(), Do(3, o, d), At(4, o, stale, listed, d), Page())
  {
    MayActivate(o, stale, listed, d);
    assert [Noted(o, listed)][0 := On(o, listed, d)] == [On(o, listed, d)];
  }

  lemma {:induction false} StepsToCopied(o: nat, stale: seq<LogState>, listed: bool, d: seq<Entry>)
    requires o < 4096 && AllFit(stale) && Fits(d, 4096)
    ensures Steps(SMALL, At(4, o, stale, listed, d), Page(), Do(4, o, d), At(5, o, stale, listed, d), Page())
  {
    assert SMALL.Ok() && Dirty(Page(), o)[o..o + 1] == [1];
    assert [] + [Entry(o, [1])] == [Entry(o, [1])] && [Range(o, 1)][1..] == [];
  }

  lemma StepsToDrained(o: nat, stale: seq<LogState>, listed: bool, d: seq<Entry>)
    requires o < 4096 && AllFit(stale) && Fits(d, 4096)
    ensures Steps(SMALL, At(5, o, stale, listed, d), Page(), Do(5, o, d), At(6, o, stale, listed, d), Page())
  {
    var p, dirty := [Entry(o, [1])], Dirty(Page(), o);
    assert p[1..] == [] && Blit(Page(), o, [1]) == dirty && Applied(dirty, []) == dirty;
    assert Applied(Page(), p) == dirty;
    assert Spans(p) == [Range(o, 1)];
  }

  lemma StepsToCommitted(o: nat, stale: seq<LogState>, listed: bool, d: seq<Entry>)
    requires o < 4096 && AllFit(stale) && Fits(d, 4096)
    ensures Steps(SMALL, At(6, o, stale, listed, d), Page(), Do(6, o, d), At(7, o, stale, listed, d), Dirty(Page(), o))
    ensures Steps(SMALL, At(7, o, stale, listed, d), Dirty(Page(), o), Do(7, o, d), At(8, o, stale, listed, d), Dirty(Page(), o))
  {
    var dirty := Dirty(Page(), o);
    assert [Range(o, 1)][1..] == [] && CopyRange(Page(), dirty, Range(o, 1)) == dirty;
    assert CopyRanges(Page(), dirty, [Range(o, 1)]) == dirty;
  }

  /** Every step of the snapshot. */
  lemma OneByteSteps(p: nat, o: nat, stale: seq<LogState>, listed: bool, d: seq<Entry>)
    requires p < 8 && o < 4096 && AllFit(stale) && Fits(d, 4096)
    ensures Steps(SMALL, At(p, o, stale, listed, d), Kept(p, o), Do(p, o, d), At(p + 1, o, stale, listed, d), Kept(p + 1, o))
  {
    if p == 0 { StepsToNoted(o, stale, listed, d); }
    else if p < 3 { StepsToStored(o, stale, listed, d); }
    else if p == 3 { StepsToActive(o, stale, listed, d); }
    else if p == 4 { StepsToCopied(o, stale, listed, d); }
    else if p == 5 { StepsToDrained(o, stale, listed, d); }
    else { StepsToCommitted(o, stale, listed, d); }
  }

  /** Those steps as a run. */
  ghost function OneByteRun(o: nat, listed: bool, d: seq<Entry>): Run
    requires o < 4096
  {
    Run(seq(9, p requires 0 <= p => At(p, o, [], listed, d)), seq(8, p requires 0 <= p => Do(p, o, d)), seq(9, p requires 0 <= p => Kept(p, o)))
  }

  lemma OneByteIsRun(o: nat, listed: bool, d: seq<Entry>)
    requires o < 4096 && Fits(d, 4096)
    ensures IsRun(SMALL, OneByteRun(o, listed, d))
  {
    var r := OneByteRun(o, listed, d);
    forall k | 0 <= k < |r.steps|
      ensures StepsAt(SMALL, r, k)
    {
      OneByteSteps(k, o, [], listed, d);
    }
    assert r.states[0] == Mount(SMALL, r.states[0].medium, [listed], []);
  }

  // ----- What is read -----

  /** Before the drain the copied byte is exposed, and it is new. */
  lemma CopyExposes(o: nat, listed: bool, d: seq<Entry>)
    requires o < 4096 && Fits(d, 4096)
    ensures var s := At(5, o, [], listed, d); |s.cache| == |s.loose| == 4096 && !NothingNew(s, Page())
  {
    var s := At(5, o, [], listed, d);
    assert s.pending[0].Has(o);
    assert Exposed(s, o) && !Unharmed(s, Page(), o);
  }

  /** As written, with the length zeroed: power is lost, no entry is read, and the snapshot is half applied. */
  lemma ZeroedLengthLosesData()
    ensures IsRun(SMALL, OneByteRun(0, true, [])) && !SafeAt(OneByteRun(0, true, []), 5)
  {
    OneByteIsRun(0, true, []);
    CopyExposes(0, true, []);
    ZeroedLengthWorksIff(SMALL, OneByteRun(0, true, []), 5);
  }

  /** With every entry to be read, but in a log that the dependency file does not name. */
  lemma UnlistedLogLosesData()
    ensures Fits(Undo(0), 4096) && IsRun(SMALL, OneByteRun(0, false, Undo(0))) && !SafeAt(OneByteRun(0, false, Undo(0)), 5)
  {
    OneByteIsRun(0, false, Undo(0));
    CopyExposes(0, false, Undo(0));
    UnlistedWorksIff(SMALL, OneByteRun(0, false, Undo(0)), 5);
  }

  // ----- What is loose -----

  ghost predicate Good(s: Sys, g: Image, step: Step) {
    WellFormed(SMALL, s) && Enabled(SMALL, s, step) && DisciplinedStep(SMALL, s, step) && CarefulStep(s, g, step)
  }

  /** The process is disciplined, and every entry is readable in a listed log. */
  lemma {:induction false} OneByteStepOk(p: nat, o: nat)
    requires p < 8 && o < 4096
    ensures Good(At(p, o, [], true, Undo(o)), Kept(p, o), Do(p, o, Undo(o)))
  {
    OneByteSteps(p, o, [], true, Undo(o));
    if p == 1 {
      var s := At(1, o, [], true, Undo(o));
      assert Undo(o)[0].Has(o);
      assert Covered(s.logs[0].undo, o);
      assert LoggedSomewhere(s, o);
    }
  }

  lemma {:induction false} OneByteDisciplined(o: nat, n: nat)
    requires o < 4096 && n <= 8
    ensures Fits(Undo(o), 4096) && IsRun(SMALL, OneByteRun(o, true, Undo(o)))
    ensures Disciplined(SMALL, OneByteRun(o, true, Undo(o)), n) && Careful(OneByteRun(o, true, Undo(o)), n)
  {
    var r := OneByteRun(o, true, Undo(o));
    OneByteIsRun(o, true, Undo(o));
    forall k | 0 <= k < n
      ensures Good(r.states[k], r.committed[k], r.steps[k])
    {
      OneByteStepOk(k, o);
    }
  }

  /** At the start and at the end of the run the 1 is loose in the first byte. */
  lemma {:induction false} FirstByteIsLoose(p: nat, o: nat)
    requires p == 0 || p == 8
    requires 0 < o < 4096
    ensures var s := At(p, o, [], true, Undo(o)); |s.loose| == |Kept(p, o)| == 4096 && !s.start.Syncing? && !FirstByteOk(s, Kept(p, o))
  {
    assert !Covered([Entry(o, [1])], 0);
  }

  lemma {:induction false} FirstByteNotSafe(p: nat, o: nat)
    requires p == 0 || p == 8
    requires 0 < o < 4096
    ensures Fits(Undo(o), 4096) && IsRun(SMALL, OneByteRun(o, true, Undo(o))) && !SafeAt(OneByteRun(o, true, Undo(o)), p)
  {
    OneByteDisciplined(o, p);
    FirstByteIsLoose(p, o);
    CrashAtomic(SMALL, OneByteRun(o, true, Undo(o)), p);
  }

  /**
   A file whose first byte is 0, mapped and not even written to: the byte is lost. It is still lost after a
   snapshot of a byte in another line has finished, with every entry readable and every log listed.
   */
  lemma {:induction false} FirstByteLost(o: nat)
    requires 64 <= o < 4096
    ensures Fits(Undo(o), 4096) && IsRun(SMALL, OneByteRun(o, true, Undo(o)))
    ensures Disciplined(SMALL, OneByteRun(o, true, Undo(o)), 8) && Careful(OneByteRun(o, true, Undo(o)), 8)
    ensures !SafeAt(OneByteRun(o, true, Undo(o)), 0) && !SafeAt(OneByteRun(o, true, Undo(o)), 8)
  {
    OneByteDisciplined(o, 8);
    FirstByteNotSafe(0, o);
    FirstByteNotSafe(8, o);
  }

  /** Two logs, the second with a new byte, in the turn of the first, which is empty. */
  ghost function TwoLogs(p: nat): Sys {
    var img := Dirty(Page(), 0);
    var dirty := Dirty(img, 8);
    var one := MapStore(4096);
    if p == 0 then Mount(SMALL, img, [true, true], [])
    else if p == 1 then Sys(img, img, one, [], [Fresh(true), Noted(8, true)], Idle, Range(0, 0), Mapped, [])
    else if p == 2 then Sys(dirty, img, one, [], [Fresh(true), Noted(8, true)], Idle, Range(0, 0), Mapped, [])
    else if p == 3 then Sys(dirty, img, one, [], [Fresh(true), Noted(8, true)], Before(0), CALL, Mapped, [])
    else Sys(dirty, img, BulkCopy(one, dirty), [], [Fresh(true).(flag := ACTIVE), Noted(8, true)], Copying(0, []), CALL, Syncing, [])
  }

  function TwoLogsDo(p: nat): Step {
    if p == 0 then LogRange(1, OneByte(8)) else if p == 1 then Store(8, [1]) else if p == 2 then Begin(CALL) else Activate([], [])
  }

  ghost function TwoLogsRun(): Run {
    Run(seq(5, p requires 0 <= p => TwoLogs(p)), seq(4, p requires 0 <= p => TwoLogsDo(p)), seq(5, _ => Dirty(Page(), 0)))
  }

  lemma {:induction false} TwoLogsNoted()
    ensures Steps(SMALL, TwoLogs(0), Dirty(Page(), 0), TwoLogsDo(0), TwoLogs(1), Dirty(Page(), 0))
    ensures Good(TwoLogs(0), Dirty(Page(), 0), TwoLogsDo(0))
  {
    var img := Dirty(Page(), 0);
    assert img[8..9] == [0] && [] + [OneByte(8)] == [OneByte(8)] && [] + [Entry(8, [0])] == Undo(8);
    assert Logged(SMALL, Fresh(true), img, OneByte(8)) == Noted(8, true);
    assert FreshLogs([true, true])[1 := Noted(8, true)] == [Fresh(true), Noted(8, true)];
  }

  lemma {:induction false} TwoLogsStored()
    ensures Steps(SMALL, TwoLogs(1), Dirty(Page(), 0), TwoLogsDo(1), TwoLogs(2), Dirty(Page(), 0))
    ensures Good(TwoLogs(1), Dirty(Page(), 0), TwoLogsDo(1))
  {
    var img := Dirty(Page(), 0);
    assert Blit(img, 8, [1]) == Dirty(img, 8);
    assert Undo(8)[0].Has(8);
    assert Covered(TwoLogs(1).logs[1].undo, 8);
    assert LoggedSomewhere(TwoLogs(1), 8);
  }

  lemma {:induction false} TwoLogsCalled()
    ensures Steps(SMALL, TwoLogs(2), Dirty(Page(), 0), TwoLogsDo(2), TwoLogs(3), Dirty(Page(), 0))
    ensures Good(TwoLogs(2), Dirty(Page(), 0), TwoLogsDo(2))
  {
  }

  lemma {:induction false} TwoLogsActive()
    ensures Steps(SMALL, TwoLogs(3), Dirty(Page(), 0), TwoLogsDo(3), TwoLogs(4), Dirty(Page(), 0))
    ensures Good(TwoLogs(3), Dirty(Page(), 0), TwoLogsDo(3))
  {
    assert SMALL.Ok() && AllTracked(SMALL, []);
    assert WritesFrom(SMALL, [], 0, 4096, 4096) == [] && LoopOrder([], []);
    assert IsCopyPlan(SMALL, [], 4096, 4096, []);
  }

  lemma {:induction false} TwoLogsStep(p: nat)
    requires p < 4
    ensures Steps(SMALL, TwoLogs(p), Dirty(Page(), 0), TwoLogsDo(p), TwoLogs(p + 1), Dirty(Page(), 0))
    ensures Good(TwoLogs(p), Dirty(Page(), 0), TwoLogsDo(p))
  {
    if p == 0 { TwoLogsNoted(); } else if p == 1 { TwoLogsStored(); } else if p == 2 { TwoLogsCalled(); } else { TwoLogsActive(); }
  }

  lemma {:induction false} TwoLogsIsRun()
    ensures IsRun(SMALL, TwoLogsRun()) && Disciplined(SMALL, TwoLogsRun(), 4) && Careful(TwoLogsRun(), 4)
  {
    var r := TwoLogsRun();
    forall k | 0 <= k < 4
      ensures StepsAt(SMALL, r, k) && Good(r.states[k], r.committed[k], r.steps[k])
    {
      TwoLogsStep(k);
    }
    assert r.states[0] == Mount(SMALL, r.states[0].medium, [true, true], []);
  }

  lemma SecondLogIsLoose()
    ensures !Settled(TwoLogs(4), Dirty(Page(), 0))
  {
    var s, g := TwoLogs(4), Dirty(Page(), 0);
    assert 1 in s.loose[8] && !Undone(s, 8) && g[8] == 0;
  }

  /**
   The first snapshot of a process copies what every log holds in the turn of the first. Although all
   is readable and listed and the first byte is safe, the second log's new byte may survive, and nothing
   undoes it.
   */
  lemma {:induction false} FirstSnapshotMixesLogs()
    ensures IsRun(SMALL, TwoLogsRun()) && Disciplined(SMALL, TwoLogsRun(), 4) && Careful(TwoLogsRun(), 4)
    ensures TwoLogsRun().committed[4][0] == 1 && !SafeAt(TwoLogsRun(), 4)
  {
    TwoLogsIsRun();
    SecondLogIsLoose();
    CrashAtomicIff(SMALL, TwoLogsRun(), 4);
  }

  // ----- Where recovery looks -----

  /**
   Power is lost before the drain, recovery is right, and the new process takes the same snapshot to its
   end. As written no entry could be read; this run is of the code with the length left as it is.
   */
  ghost function LongState(p: nat): Sys {
    if p < 6 then At(p, 0, [], true, Undo(0)) else At(p - 6, 0, [On(0, true, Undo(0))], true, Undo(0))
  }

  function LongStep(p: nat): Step {
    if p < 5 then Do(p, 0, Undo(0)) else if p == 5 then Crash([Dirty(Page(), 0)], [true]) else Do(p - 6, 0, Undo(0))
  }

  function LongKept(p: nat): Image {
    if p < 6 then Kept(p, 0) else Kept(p - 6, 0)
  }

  ghost function LongRun(): Run {
    Run(seq(15, p requires 0 <= p => LongState(p)), seq(14, p requires 0 <= p => LongStep(p)), seq(15, p requires 0 <= p => LongKept(p)))
  }

  lemma UndoneIsPage()
    ensures Fits(Undo(0), 4096) && Replay(Dirty(Page(), 0), Undo(0)) == Page()
  {
    assert Undo(0)[..0] == [] && Blit(Dirty(Page(), 0), 0, [0]) == Page();
    assert Replay(Page(), []) == Page();
  }

  lemma {:induction false} DirtySurvives()
    ensures WellFormed(SMALL, LongState(5)) && Reads(AllLogs(LongState(5))) == Undo(0) && Attempts(LongState(5), [Dirty(Page(), 0)])
  {
    var s, dirty := LongState(5), Dirty(Page(), 0);
    OneByteSteps(5, 0, [], true, Undo(0));
    assert AllLogs(s) == [On(0, true, Undo(0))];
    forall i | 0 <= i < |dirty|
      ensures MayBeAt(s, i, dirty[i])
    {
      if i == 0 { assert s.pending[0].Has(0) && s.pending[0].content[0] == 1; }
    }
  }

  lemma {:induction false} FirstLossSteps()
    ensures Steps(SMALL, LongState(5), Page(), LongStep(5), LongState(6), Page())
  {
    DirtySurvives();
    UndoneIsPage();
    var s := LongState(5);
    assert Last([Dirty(Page(), 0)]) == Dirty(Page(), 0) && Recover(Dirty(Page(), 0), AllLogs(s)) == Page();
    assert Next(SMALL, s, LongStep(5)) == Mount(SMALL, Page(), [true], AllLogs(s));
    assert AllLogs(s) == [On(0, true, Undo(0))];
  }

  lemma LongSteps(k: nat)
    requires k < 14
    ensures Steps(SMALL, LongState(k), LongKept(k), LongStep(k), LongState(k + 1), LongKept(k + 1))
  {
    if k < 5 {
      OneByteSteps(k, 0, [], true, Undo(0));
    } else if k == 5 {
      FirstLossSteps();
    } else {
      OneByteSteps(k - 6, 0, [On(0, true, Undo(0))], true, Undo(0));
    }
  }

  lemma LongIsRun()
    ensures IsRun(SMALL, LongRun())
  {
    var r := LongRun();
    forall k | 0 <= k < |r.steps|
      ensures StepsAt(SMALL, r, k)
    {
      LongSteps(k);
    }
    assert r.states[0] == Mount(SMALL, r.states[0].medium, [true], []);
  }

  /** The second process has finished its snapshot and the old log undoes it. */
  lemma StaleLogUndoes()
    ensures IsRun(SMALL, LongRun()) && FirstLoss(LongRun(), 5) && !SafeAt(LongRun(), 14)
  {
    var r := LongRun();
    LongIsRun();
    UndoneIsPage();
    assert LostInFlight(r, 5);
    StaleLogWorksIff(SMALL, r, 5, 14);
    assert Dirty(Page(), 0)[0] != Page()[0];
  }

  lemma FirstByteUndone()
    ensures Undone(LongState(5), 0) && |LongState(5).logs| == 1
  {
    assert Undo(0)[0].Has(0);
  }

  /** The first power failure does no harm. */
  lemma {:induction false} FirstLossIsSafe()
    ensures Safe(LongState(5), Page())
  {
    OneByteDisciplined(0, 5);
    FirstByteUndone();
    SingleLogAtomic(SMALL, OneByteRun(0, true, Undo(0)), 5);
  }

  /**
   Every entry can be read and every log is listed, and still a finished snapshot is lost: after one power
   failure that recovery dealt with, the snapshot is committed and all of it on the medium, and the next
   recovery replays the old log over it. On the way there are two ACTIVE logs, and the first is the wrong one.
   */
  lemma StaleLogLosesSnapshot()
    ensures IsRun(SMALL, LongRun()) && SafeAt(LongRun(), 5) && !SafeAt(LongRun(), 14)
    ensures LongRun().states[14].phase.Idle? && LongRun().committed[14] == LongRun().states[14].medium == Dirty(Page(), 0)
    ensures FlagUp(LongRun().states[11].stale[0]) && FlagUp(LongRun().states[11].logs[0]) && FirstActive(AllLogs(LongRun().states[11])) == 0
  {
    FirstLossIsSafe();
    StaleLogUndoes();
    assert AllLogs(LongRun().states[11])[0] == On(0, true, Undo(0));
  }
}

/**
 The snapshot protocol as a machine that can lose power after any step.

 The program's stores go to the page cache, which is volatile. A snapshot takes the logs one by one:
 mark ACTIVE, copy to the backing file, drain, mark EMPTY, clear. Copies not yet drained may or may
 not be on the medium, byte by byte, when power fails.

 Two kinds of stores to the backing file are never flushed: mapping the file stores 1 to its first
 byte, and the first snapshot of a process copies the whole region. They are loose: either value may
 be found after a power failure until a flushed copy of the same byte is drained.

 After a power failure the file is mapped again and one log is replayed: the first in the
 dependency file that is marked ACTIVE. Nothing resets its mark, and the logs of the new process
 are listed behind it.
 */
module CrashProtocol {
  import opened Bytes
  import opened UndoLog
  import opened CopyPlan

  datatype Flag = EMPTY | ACTIVE

  /**
   One log: its durable mark, whether the dependency file names it, its undo entries (as offsets), the
   volatile list of logged ranges, and the entries recovery would find in it once it is marked ACTIVE.
   */
  datatype LogState = LogState(flag: Flag, listed: bool, undo: seq<Entry>, entries: seq<Range>, lastLog: Range, durable: seq<Entry>)

  function Fresh(listed: bool): LogState {
    LogState(EMPTY, listed, [], [], Range(0, 0), [])
  }

  /** Where the single-threaded snapshot is: `j` is the log it is working on. */
  datatype Phase =
    | Idle
    | Before(j: nat)
    | Copying(j: nat, todo: seq<Range>)
    | Drained(j: nat, copied: seq<Range>)
    | Dropped(j: nat)

  /** What the process has done since it mapped the file: nothing yet, its first snapshot is under way, or that is over. */
  datatype Start = Mapped | Syncing | Synced

  /**
   `loose` are the values stored to each byte of the backing file that nothing has flushed, `pending` the
   copies issued since the last drain, `call` the range snapshot() was called with, `stale` the logs of
   processes that lost power.
   */
  datatype Sys = Sys(cache: Image, medium: Image, loose: seq<set<Byte>>, pending: seq<Entry>, logs: seq<LogState>,
                     phase: Phase, call: Range, start: Start, stale: seq<LogState>)

  /** All logs in the order of the dependency file. */
  function AllLogs(s: Sys): seq<LogState> {
    s.stale + s.logs
  }

  datatype Step =
    | LogRange(t: nat, r: Range)
    | Store(at: nat, data: seq<Byte>)
    | Begin(call: Range)
    | Activate(plan: seq<Range>, durable: seq<Entry>)
    | Copy
    | Drain
    | MarkEmpty
    | Clear
    | Crash(attempts: seq<Image>, listed: seq<bool>)

  // ----- What a step needs and does -----

  ghost predicate WellFormed(m: Mapping, s: Sys) {
    && m.Ok() && 0 < m.startAddr && 0 < m.size
    && |s.cache| == |s.medium| == |s.loose| == m.size
    && Fits(s.pending, m.size)
    && (forall t :: 0 <= t < |s.logs| ==> AllTracked(m, s.logs[t].entries) && Fits(s.logs[t].undo, m.size) && Fits(s.logs[t].durable, m.size))
    && (forall t :: 0 <= t < |s.stale| ==> Fits(s.stale[t].durable, m.size))
    && (s.phase.Idle? || s.phase.j < |s.logs|)
    && (s.phase.Copying? ==> AllWithin(s.phase.todo, m.size))
    && (s.phase.Drained? ==> AllWithin(s.phase.copied, m.size))
  }

  /** Every byte is on the medium as of the last drain, or some store since has reached it. */
  ghost predicate MayBeAt(s: Sys, i: nat, v: Byte)
    requires i < |s.medium| == |s.loose|
  {
    || v == s.medium[i] || v in s.loose[i]
    || exists k :: 0 <= k < |s.pending| && s.pending[k].Has(i) && v == s.pending[k].content[i - s.pending[k].addr]
  }

  ghost predicate CrashImage(s: Sys, c: Image)
    requires |s.medium| == |s.loose|
  {
    |c| == |s.medium| && forall i :: 0 <= i < |c| ==> MayBeAt(s, i, c[i])
  }

  /** A crash image, and what is left of it after attempts at recovery that lost power themselves. */
  ghost predicate Attempts(s: Sys, attempts: seq<Image>)
    requires |s.medium| == |s.loose|
  {
    && |attempts| > 0 && CrashImage(s, attempts[0]) && Fits(Reads(AllLogs(s)), |s.medium|)
    && (forall k :: 0 <= k < |attempts| ==> |attempts[k]| == |s.medium|)
    && forall k :: 0 < k < |attempts| ==> PartlyReplayed(attempts[k - 1], Reads(AllLogs(s)), attempts[k])
  }

  function Last(attempts: seq<Image>): Image
    requires attempts != []
  {
    attempts[|attempts| - 1]
  }

  ghost predicate Enabled(m: Mapping, s: Sys, step: Step)
    requires WellFormed(m, s)
  {
    match step
    case LogRange(t, r) => s.phase.Idle? && t < |s.logs| && m.Tracks(r)
    case Store(at, data) => s.phase.Idle? && at + |data| <= m.size
    case Begin(_) => s.phase.Idle? && s.logs != []
    case Activate(plan, durable) =>
      s.phase.Before? && IsCopyPlan(m, s.logs[s.phase.j].entries, s.call.addr, s.call.bytes, plan) && AllWithin(plan, m.size) && Fits(durable, m.size)
    case Copy => s.phase.Copying? && s.phase.todo != []
    case Drain => s.phase.Copying? && s.phase.todo == []
    case MarkEmpty => s.phase.Drained?
    case Clear => s.phase.Dropped?
    case Crash(attempts, _) => Attempts(s, attempts)
  }

  /** log_range: the range joins the list; the undo entry is left out if the range was the last one logged. */
  function Logged(m: Mapping, log: LogState, cache: Image, r: Range): LogState
    requires |cache| == m.size && m.Tracks(r)
  {
    var listed := log.(entries := log.entries + [r]);
    if log.lastLog == r then listed
    else
      var at := m.Place(r).addr;
      listed.(undo := log.undo + [Entry(at, cache[at..at + r.bytes])], lastLog := r)
  }

  /** The copies issued, in order, as they end up in memory. */
  function Applied(img: Image, patches: seq<Entry>): (r: Image)
    requires Fits(patches, |img|)
    ensures |r| == |img|
    decreases |patches|
  {
    if patches == [] then img
    else Applied(Blit(img, patches[0].addr, patches[0].content), patches[1..])
  }

  /** needs_recovery: the first listed log marked ACTIVE, or the number of logs. */
  function FirstActive(logs: seq<LogState>): (j: nat)
    ensures j <= |logs|
  {
    if logs == [] || (logs[0].flag == ACTIVE && logs[0].listed) then 0 else 1 + FirstActive(logs[1..])
  }

  /** The entries recovery reads. */
  function Reads(logs: seq<LogState>): seq<Entry> {
    var j := FirstActive(logs);
    if j == |logs| then [] else logs[j].durable
  }

  /** What mapping the file again after a power failure makes of the surviving image. */
  function Recover(c: Image, logs: seq<LogState>): (r: Image)
    requires Fits(Reads(logs), |c|)
    ensures |r| == |c|
  {
    Replay(c, Reads(logs))
  }

  lemma ReadsFit(m: Mapping, s: Sys)
    requires WellFormed(m, s)
    ensures Fits(Reads(AllLogs(s)), m.size)
  {
  }

  function SetLog(s: Sys, j: nat, log: LogState): Sys
    requires j < |s.logs|
  {
    s.(logs := s.logs[j := log])
  }

  /** The logs of a new process, of which the dependency file names some. */
  function FreshLogs(listed: seq<bool>): (logs: seq<LogState>)
    ensures |logs| == |listed| && forall t :: 0 <= t < |logs| ==> logs[t] == Fresh(listed[t])
  {
    seq(|listed|, t requires 0 <= t < |listed| => Fresh(listed[t]))
  }

  // ----- Stores that nothing flushes -----

  /** map_backing_file stores 1 to the first byte. */
  function MapStore(n: nat): (loose: seq<set<Byte>>)
    ensures |loose| == n && forall i :: 0 <= i < n ==> loose[i] == if i == 0 then {1} else {}
  {
    seq(n, i => if i == 0 then {1} else {})
  }

  /** The first snapshot copies the mapped file if the call's address lies in it. */
  predicate CopiesAll(m: Mapping, start: Start, call: Range) {
    start.Mapped? && m.Contains(call.addr)
  }

  function BulkCopy(loose: seq<set<Byte>>, cache: Image): (r: seq<set<Byte>>)
    requires |loose| == |cache|
    ensures |r| == |loose| && forall i :: 0 <= i < |r| ==> r[i] == loose[i] + {cache[i]}
  {
    seq(|loose|, i requires 0 <= i < |loose| => loose[i] + {cache[i]})
  }

  /** A drained copy settles its bytes. */
  ghost function Settle(loose: seq<set<Byte>>, pending: seq<Entry>): (r: seq<set<Byte>>)
    ensures |r| == |loose| && forall i :: 0 <= i < |r| ==> r[i] == if Covered(pending, i) then {} else loose[i]
  {
    seq(|loose|, i requires 0 <= i < |loose| => if Covered(pending, i) then {} else loose[i])
  }

  function Spans(pending: seq<Entry>): (r: seq<Range>)
    ensures |r| == |pending| && forall k :: 0 <= k < |r| ==> r[k] == pending[k].Span()
  {
    seq(|pending|, k requires 0 <= k < |pending| => pending[k].Span())
  }

  // ----- The step -----

  /** A process that has just mapped the file: the page cache is read from it before the first byte is stored to. */
  function Mount(m: Mapping, img: Image, listed: seq<bool>, stale: seq<LogState>): Sys {
    Sys(img, img, MapStore(m.size), [], FreshLogs(listed), Idle, Range(0, 0), Mapped, stale)
  }

  ghost function Next(m: Mapping, s: Sys, step: Step): Sys
    requires WellFormed(m, s) && Enabled(m, s, step)
  {
    match step
    case LogRange(t, r) => SetLog(s, t, Logged(m, s.logs[t], s.cache, r))
    case Store(at, data) => s.(cache := Blit(s.cache, at, data))
    case Begin(call) => s.(phase := Before(0), call := call)
    case Activate(plan, durable) =>
      var j := s.phase.j;
      var loose := if CopiesAll(m, s.start, s.call) then BulkCopy(s.loose, s.cache) else s.loose;
      SetLog(s, j, s.logs[j].(flag := ACTIVE, durable := durable))
        .(phase := Copying(j, plan), loose := loose, start := if s.start.Mapped? then Syncing else s.start)
    case Copy =>
      var w := s.phase.todo[0];
      s.(pending := s.pending + [Entry(w.addr, s.cache[w.addr..w.addr + w.bytes])], phase := Copying(s.phase.j, s.phase.todo[1..]))
    case Drain =>
      s.(medium := Applied(s.medium, s.pending), loose := Settle(s.loose, s.pending), pending := [], phase := Drained(s.phase.j, Spans(s.pending)))
    case MarkEmpty =>
      var j := s.phase.j;
      SetLog(s, j, s.logs[j].(flag := EMPTY)).(phase := Dropped(j))
    case Clear =>
      var j := s.phase.j;
      var s' := SetLog(s, j, Fresh(s.logs[j].listed));
      if j + 1 < |s.logs| then s'.(phase := Before(j + 1)) else s'.(phase := Idle, start := Synced)
    case Crash(attempts, listed) =>
      Mount(m, Recover(Last(attempts), AllLogs(s)), listed, AllLogs(s))
  }

  /**
   The image a crash must not lose, kept beside the machine: marking a log EMPTY commits what the page
   cache holds on the bytes copied for it. After a power failure it is what recovery has made of it,
   which is the same image when recovery is right.
   */
  ghost function Commit(m: Mapping, s: Sys, step: Step, g: Image): (g': Image)
    requires WellFormed(m, s) && Enabled(m, s, step) && |g| == m.size
    ensures |g'| == m.size
  {
    match step
    case MarkEmpty => CopyRanges(g, s.cache, s.phase.copied)
    case Crash(attempts, _) => Recover(Last(attempts), AllLogs(s))
    case _ => g
  }
}

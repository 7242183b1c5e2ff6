/**
 The bytes and the abstract machine: log_range on the log object is the machine's LogRange, one log's
 turn in snapshot() is the machine's steps from Activate to Clear, mapping a file again is its Crash, and
 what it takes as the readable entries of a log is what the walk reads from its bytes.
 */
module Refinement {
  import opened Bytes
  import opened UndoLog
  import opened LogFormat
  import opened LogDurability
  import opened CopyPlan
  import opened CrashProtocol
  import opened CrashRuns
  import L = Log
  import R = Recovery
  import S = Snapshot

  ghost predicate InRegion(m: Mapping, undo: seq<Entry>) {
    forall k :: 0 <= k < |undo| ==> m.startAddr <= undo[k].addr && undo[k].addr + |undo[k].content| <= m.startAddr + m.size
  }

  /** The log object, with addresses, is the machine's log, with offsets. */
  ghost predicate Shows(m: Mapping, log: L.Log, st: LogState)
    reads log
  {
    && InRegion(m, log.undo) && st.undo == R.Rebase(log.undo, m.startAddr)
    && st.entries == log.entries && st.lastLog == log.lastLog
    && (st.flag == ACTIVE <==> log.state == L.ACTIVE)
  }

  /** log_range does on the log object what the machine's step does. */
  method LogOne(m: Mapping, log: L.Log, cache: Image, r: Range, ghost st: LogState)
    requires log.Valid() && Shows(m, log, st) && |cache| == m.size && m.Tracks(r)
    requires r.bytes < SIZE_LIMIT && r.addr < ADDR_LIMIT && log.logOffset + HEADER + r.bytes <= log.content.Length
    modifies log, log.content
    ensures log.Valid() && Shows(m, log, Logged(m, st, cache, r))
  {
    ghost var at := m.Place(r).addr;
    RebaseSnoc(log.undo, Entry(r.addr, cache[at..at + r.bytes]), m.startAddr);
    log.LogRange(cache, m.startAddr, r.addr, r.bytes);
  }

  lemma RebaseSnoc(undo: seq<Entry>, e: Entry, lo: nat)
    requires lo <= e.addr && forall k :: 0 <= k < |undo| ==> lo <= undo[k].addr
    ensures R.Rebase(undo + [e], lo) == R.Rebase(undo, lo) + [Entry(e.addr - lo, e.content)]
  {
  }

  // ----- Mapping the file again -----

  /** A log file: its mark, its content and the length in its header. */
  datatype Stored = Stored(state: L.State, area: seq<Byte>, logOffset: nat)

  /** The logs the dependency file names, in its order. */
  function Listed(logs: seq<LogState>): seq<LogState> {
    if logs == [] then [] else (if logs[0].listed then [logs[0]] else []) + Listed(logs[1..])
  }

  lemma {:induction false} ReadsListed(logs: seq<LogState>)
    ensures Reads(Listed(logs)) == Reads(logs)
    decreases |logs|
  {
    if logs != [] {
      ReadsListed(logs[1..]);
      if logs[0].listed {
        assert Listed(logs) == [logs[0]] + Listed(logs[1..]);
        assert Listed(logs)[1..] == Listed(logs[1..]);
      } else {
        assert Listed(logs) == Listed(logs[1..]);
      }
    }
  }

  lemma {:induction false} AllListed(logs: seq<LogState>)
    ensures forall t :: 0 <= t < |Listed(logs)| ==> Listed(logs)[t].listed
    decreases |logs|
  {
    if logs != [] { AllListed(logs[1..]); }
  }

  /** The files are those of the logs: same marks, and what the walk reads from their bytes is what recovery can read. */
  ghost predicate Files(m: Mapping, files: seq<Stored>, logs: seq<LogState>) {
    && |files| == |logs|
    && forall t :: 0 <= t < |files| ==>
         && (files[t].state == L.ACTIVE <==> logs[t].flag == ACTIVE)
         && logs[t].durable == R.Undoes(WalkFrom(files[t].area, 0, files[t].logOffset), m.startAddr, m.size)
  }

  lemma {:induction false} FirstIs(logs: seq<LogState>, j: nat)
    requires j <= |logs| && forall t :: 0 <= t < |logs| ==> logs[t].listed
    requires forall t :: 0 <= t < j ==> logs[t].flag == EMPTY
    requires j < |logs| ==> logs[j].flag == ACTIVE
    ensures FirstActive(logs) == j
  {
    if j > 0 { FirstIs(logs[1..], j - 1); }
  }

  /** needs_recovery and recover, on bytes, are the machine's recovery. */
  method Restart(m: Mapping, files: seq<Stored>, backing: array<Byte>, ghost logs: seq<LogState>)
    requires backing.Length == m.size && Files(m, files, Listed(logs)) && Fits(Reads(logs), m.size)
    modifies backing
    ensures backing[..] == Recover(old(backing[..]), logs)
  {
    var marks := seq(|files|, t requires 0 <= t < |files| => R.Found(files[t].state));
    var result := R.NeedsRecovery(marks);
    ghost var mine := Listed(logs);
    ReadsListed(logs);
    AllListed(logs);
    if result == [] {
      forall t | 0 <= t < |mine|
        ensures mine[t].flag == EMPTY
      {
        assert !marks[t].IsActive();
      }
      FirstIs(mine, |mine|);
    } else {
      var j := result[0];
      forall t | 0 <= t < j
        ensures mine[t].flag == EMPTY
      {
        assert !marks[t].IsActive();
      }
      FirstIs(mine, j);
      R.Recover(files[j].area, files[j].logOffset, m.startAddr, backing);
    }
  }

  /** The whole restart: recovery, the page cache read from the backing file, and the store to its first byte. */
  method Remap(m: Mapping, files: seq<Stored>, backing: array<Byte>, listed: seq<bool>, ghost s: Sys, ghost attempts: seq<Image>)
    returns (cache: Image, ghost s': Sys)
    requires WellFormed(m, s) && Attempts(s, attempts) && backing.Length == m.size && backing[..] == Last(attempts)
    requires Files(m, files, Listed(AllLogs(s)))
    modifies backing
    ensures s' == Next(m, s, Crash(attempts, listed))
    ensures cache == s'.cache && backing[..] == cache[0 := 1] && CrashImage(s', backing[..])
  {
    s' := Next(m, s, Crash(attempts, listed));
    Restart(m, files, backing, AllLogs(s));
    cache := backing[..];
    backing[0] := 1;
    assert MayBeAt(s', 0, 1);
  }

  // ----- One log's turn -----

  /** Whatever bytes the log holds, the walk over that length reads those entries. */
  ghost predicate WalkReads(m: Mapping, length: nat, durable: seq<Entry>) {
    forall area: seq<Byte> :: R.Undoes(WalkFrom(area, 0, length), m.startAddr, m.size) == durable
  }

  /** While the machine is at `s`, the log and the backing memory may look like that. */
  ghost predicate Agrees(m: Mapping, s: Sys, j: nat, now: S.Moment) {
    && j < |s.logs| && |s.medium| == |s.loose|
    && (now.state == L.ACTIVE <==> s.logs[j].flag == ACTIVE)
    && (s.phase.Copying? || s.phase.Drained? ==> WalkReads(m, now.length, s.logs[j].durable))
    && CrashImage(s, now.image)
  }

  /** What the machine does when the code does one operation for a log: a step, or nothing. */
  datatype Move = Stay(log: nat) | Do(log: nat, step: Step)

  ghost predicate Can(m: Mapping, s: Sys, move: Move) {
    move.Do? ==> WellFormed(m, s) && Enabled(m, s, move.step)
  }

  ghost function Moved(m: Mapping, s: Sys, move: Move): Sys
    requires Can(m, s, move)
  {
    if move.Do? then Next(m, s, move.step) else s
  }

  /** The machine's moves lead from `s` to `s'`, and after each the code's memory is as the machine has it. */
  ghost predicate Follows(m: Mapping, s: Sys, moves: seq<Move>, moments: seq<S.Moment>, s': Sys)
    decreases |moves|
  {
    && |moves| == |moments|
    && if moves == [] then s' == s
       else
         && Can(m, s, moves[0]) && Agrees(m, Moved(m, s, moves[0]), moves[0].log, moments[0])
         && Follows(m, Moved(m, s, moves[0]), moves[1..], moments[1..], s')
  }

  lemma TailOfBoth<T>(a: seq<T>, b: seq<T>)
    requires a != []
    ensures |a + b| == |a| + |b| && (a + b)[0] == a[0] && (a + b)[1..] == a[1..] + b
  {
  }

  lemma {:induction false} FollowsConcat(m: Mapping, s: Sys, xs: seq<Move>, us: seq<S.Moment>, mid: Sys, ys: seq<Move>, vs: seq<S.Moment>, s': Sys)
    requires Follows(m, s, xs, us, mid) && Follows(m, mid, ys, vs, s')
    ensures Follows(m, s, xs + ys, us + vs, s')
    decreases |xs|
  {
    if xs == [] {
      assert xs + ys == ys && us + vs == vs;
    } else {
      FollowsConcat(m, Moved(m, s, xs[0]), xs[1..], us[1..], mid, ys, vs, s');
      TailOfBoth(xs, ys);
      TailOfBoth(us, vs);
    }
  }

  lemma FollowsOne(m: Mapping, s: Sys, move: Move, now: S.Moment)
    requires Can(m, s, move) && Agrees(m, Moved(m, s, move), move.log, now)
    ensures Follows(m, s, [move], [now], Moved(m, s, move))
  {
  }

  lemma FollowsThree(m: Mapping, s: Sys, x: Move, y: Move, z: Move, u: S.Moment, v: S.Moment, w: S.Moment)
    requires Can(m, s, x) && Agrees(m, Moved(m, s, x), x.log, u)
    requires Can(m, Moved(m, s, x), y) && Agrees(m, Moved(m, Moved(m, s, x), y), y.log, v)
    requires Can(m, Moved(m, Moved(m, s, x), y), z) && Agrees(m, Moved(m, Moved(m, Moved(m, s, x), y), z), z.log, w)
    ensures Follows(m, s, [x, y, z], [u, v, w], Moved(m, Moved(m, Moved(m, s, x), y), z))
  {
    var s1 := Moved(m, s, x);
    var s2 := Moved(m, s1, y);
    FollowsOne(m, s, x, u);
    FollowsOne(m, s1, y, v);
    FollowsOne(m, s2, z, w);
    FollowsConcat(m, s, [x], [u], s1, [y], [v], s2);
    FollowsConcat(m, s, [x] + [y], [u] + [v], s2, [z], [w], Moved(m, s2, z));
    assert [x] + [y] + [z] == [x, y, z] && [u] + [v] + [w] == [u, v, w];
  }

  lemma JoinFour(m: Mapping, s: Sys, a: seq<Move>, t: seq<S.Moment>, s1: Sys, b: seq<Move>, u: seq<S.Moment>, s2: Sys,
                 c: seq<Move>, v: seq<S.Moment>, s3: Sys, d: seq<Move>, w: seq<S.Moment>, s': Sys)
    requires Follows(m, s, a, t, s1) && Follows(m, s1, b, u, s2) && Follows(m, s2, c, v, s3) && Follows(m, s3, d, w, s')
    ensures Follows(m, s, a + b + c + d, t + u + v + w, s')
  {
    FollowsConcat(m, s, a, t, s1, b, u, s2);
    FollowsConcat(m, s, a + b, t + u, s2, c, v, s3);
    FollowsConcat(m, s, a + b + c, t + u + v, s3, d, w, s');
  }

  function CopyMoves(j: nat, n: nat): (moves: seq<Move>)
    ensures |moves| == n
  {
    if n == 0 then [] else [Do(j, Copy)] + CopyMoves(j, n - 1)
  }

  /** Nothing until the mark is set, nothing for the bulk copy, a Copy for every write; the length is zeroed, so nothing is readable. */
  function OpenMoves(j: nat, plan: seq<Range>): seq<Move> {
    [Stay(j), Stay(j), Do(j, Activate(plan, []))]
  }

  function BulkMoves(j: nat, bulk: bool): seq<Move> {
    if bulk then [Stay(j)] else []
  }

  function CloseMoves(j: nat): seq<Move> {
    [Do(j, Drain), Do(j, MarkEmpty), Do(j, Clear)]
  }

  function TurnMoves(j: nat, plan: seq<Range>, bulk: bool): seq<Move> {
    OpenMoves(j, plan) + BulkMoves(j, bulk) + CopyMoves(j, |plan|) + CloseMoves(j)
  }

  /** The log is marked, nothing of it is readable, and memory has the page cache where copies were issued. */
  ghost predicate Marked(m: Mapping, s: Sys, image: Image) {
    && WellFormed(m, s) && s.phase.Copying? && CarriesCache(s) && !s.start.Mapped?
    && s.logs[s.phase.j].flag == ACTIVE && s.logs[s.phase.j].durable == []
    && CrashImage(s, image) && forall i :: 0 <= i < m.size && Covered(s.pending, i) ==> image[i] == s.cache[i]
  }

  lemma NothingToRead(m: Mapping)
    ensures WalkReads(m, 0, [])
  {
  }

  /** Flushing the log and zeroing its length are no steps of the machine; setting the mark is. */
  lemma {:induction false} FollowsOpen(m: Mapping, s: Sys, plan: seq<Range>, was: S.Head, before: Image)
    requires WellFormed(m, s) && s.pending == [] && Enabled(m, s, Activate(plan, []))
    requires CrashImage(s, before) && (was.state == L.ACTIVE <==> s.logs[s.phase.j].flag == ACTIVE)
    ensures var s' := Next(m, s, Activate(plan, []));
            && Follows(m, s, OpenMoves(s.phase.j, plan), S.OpenMoments(was, before), s')
            && Marked(m, s', before) && (CopiesAll(m, s.start, s.call) ==> Marked(m, s', s.cache))
  {
    var j, s' := s.phase.j, Next(m, s, Activate(plan, []));
    NothingToRead(m);
    forall i | 0 <= i < m.size
      ensures MayBeAt(s', i, before[i])
    {
      assert MayBeAt(s, i, before[i]);
    }
    FollowsThree(m, s, Stay(j), Stay(j), Do(j, Activate(plan, [])), S.OpenMoments(was, before)[0], S.OpenMoments(was, before)[1], S.OpenMoments(was, before)[2]);
  }

  lemma FollowsBulk(m: Mapping, s: Sys, bulk: bool, missed: set<nat>)
    requires bulk ==> Marked(m, s, s.cache)
    ensures s.phase.Copying? ==> Follows(m, s, BulkMoves(s.phase.j, bulk), S.BulkMoments(bulk, missed, s.cache), s)
  {
    NothingToRead(m);
    if bulk { FollowsOne(m, s, Stay(s.phase.j), S.Moment(L.ACTIVE, 0, missed, s.cache)); }
  }

  lemma {:induction false} CopyGoesOn(m: Mapping, s: Sys, image: Image)
    requires Marked(m, s, image) && s.phase.todo != []
    ensures var s' := Next(m, s, Copy);
            && s.phase.todo[0].Within(|image|) && Marked(m, s', CopyRange(image, s.cache, s.phase.todo[0]))
            && Spans(s'.pending) + s'.phase.todo == Spans(s.pending) + s.phase.todo
  {
    var s', w := Next(m, s, Copy), s.phase.todo[0];
    var image' := CopyRange(image, s.cache, w);
    forall k, i | 0 <= k < |s'.pending| && s'.pending[k].Has(i) && i < |s'.cache|
      ensures s'.pending[k].content[i - s'.pending[k].addr] == s'.cache[i]
    {
      if k < |s.pending| { assert s.pending[k].Has(i); }
    }
    forall i | 0 <= i < m.size
      ensures MayBeAt(s', i, image'[i]) && (Covered(s'.pending, i) ==> image'[i] == s.cache[i])
    {
      CopyShowsAt(m, s, image, i);
    }
    assert AllWithin(s'.phase.todo, m.size);
  }

  lemma {:induction false} CopyShowsAt(m: Mapping, s: Sys, image: Image, i: nat)
    requires Marked(m, s, image) && s.phase.todo != [] && i < m.size && s.phase.todo[0].Within(m.size)
    ensures var s', v := Next(m, s, Copy), CopyRange(image, s.cache, s.phase.todo[0])[i];
            MayBeAt(s', i, v) && (Covered(s'.pending, i) ==> v == s.cache[i])
  {
    var s', n := Next(m, s, Copy), |s.pending|;
    assert s'.pending[n].Has(i) <==> s.phase.todo[0].Has(i);
    if !s.phase.todo[0].Has(i) {
      assert MayBeAt(s, i, image[i]);
      if k :| 0 <= k < n && s.pending[k].Has(i) && image[i] == s.pending[k].content[i - s.pending[k].addr] { assert s'.pending[k] == s.pending[k]; }
      if k :| 0 <= k < |s'.pending| && s'.pending[k].Has(i) { assert s.pending[k].Has(i); }
    }
  }

  /** The copies, one after the other. */
  lemma {:induction false} FollowsCopies(m: Mapping, s: Sys, image: Image, missed: set<nat>) returns (s': Sys)
    requires Marked(m, s, image)
    ensures Follows(m, s, CopyMoves(s.phase.j, |s.phase.todo|), S.CopyMoments(image, s.cache, s.phase.todo, missed), s')
    ensures Marked(m, s', CopyRanges(image, s.cache, s.phase.todo))
    ensures s' == s.(pending := s'.pending, phase := Copying(s.phase.j, [])) && Spans(s'.pending) == Spans(s.pending) + s.phase.todo
    decreases |s.phase.todo|
  {
    if s.phase.todo == [] {
      s' := s;
      assert Spans(s.pending) + s.phase.todo == Spans(s.pending);
    } else {
      var next := Next(m, s, Copy);
      var image' := CopyRange(image, s.cache, s.phase.todo[0]);
      CopyGoesOn(m, s, image);
      s' := FollowsCopies(m, next, image', missed);
      NothingToRead(m);
      FollowsOne(m, s, Do(s.phase.j, Copy), S.Moment(L.ACTIVE, 0, missed, image'));
      FollowsConcat(m, s, [Do(s.phase.j, Copy)], [S.Moment(L.ACTIVE, 0, missed, image')], next,
                    CopyMoves(s.phase.j, |next.phase.todo|), S.CopyMoments(image', s.cache, next.phase.todo, missed), s');
    }
  }

  /** What memory holds when all copies are drained stays there while the log is dropped. */
  lemma {:induction false} DrainSettles(m: Mapping, s: Sys, image: Image)
    requires Marked(m, s, image) && s.phase.todo == []
    ensures AllWithin(Spans(s.pending), m.size)
    ensures var s' := Next(m, s, Drain);
            && WellFormed(m, s') && CrashImage(s', image) && s'.medium == CopyRanges(s.medium, s.cache, Spans(s.pending))
  {
    var s' := Next(m, s, Drain);
    forall i | 0 <= i < m.size
      ensures s'.medium[i] == CopyRanges(s.medium, s.cache, Spans(s.pending))[i] && MayBeAt(s', i, image[i])
    {
      AppliedAt(s.medium, s.pending, s.cache, i);
      CopyRangesAt(s.medium, s.cache, Spans(s.pending), i);
      TouchedSpans(s.pending, i);
      assert MayBeAt(s, i, image[i]);
    }
  }

  lemma {:induction false} FollowsClose(m: Mapping, s: Sys, image: Image, missed: set<nat>) returns (s': Sys)
    requires Marked(m, s, image) && s.phase.todo == []
    ensures Follows(m, s, CloseMoves(s.phase.j), S.CloseMoments(missed, image), s') && AllWithin(Spans(s.pending), m.size)
    ensures WellFormed(m, s') && CrashImage(s', image) && IsAfter(s, s')
    ensures s'.medium == CopyRanges(s.medium, s.cache, Spans(s.pending)) && s'.loose == Settle(s.loose, s.pending)
  {
    var j, s1, now := s.phase.j, Next(m, s, Drain), S.CloseMoments(missed, image);
    DrainSettles(m, s, image);
    NothingToRead(m);
    FollowsOne(m, s, Do(j, Drain), now[0]);
    s' := FollowsDrop(m, s1, image, now[1], now[2]);
    FollowsConcat(m, s, [Do(j, Drain)], [now[0]], s1, [Do(j, MarkEmpty), Do(j, Clear)], [now[1], now[2]], s');
    assert [Do(j, Drain)] + [Do(j, MarkEmpty), Do(j, Clear)] == CloseMoves(j) && [now[0]] + [now[1], now[2]] == now;
  }

  /** Dropping the log touches no memory. */
  lemma {:induction false} FollowsDrop(m: Mapping, s: Sys, image: Image, u: S.Moment, v: S.Moment) returns (s': Sys)
    requires WellFormed(m, s) && s.phase.Drained? && s.pending == [] && CrashImage(s, image) && !s.start.Mapped?
    requires u.state == v.state == L.EMPTY && u.image == v.image == image
    ensures Follows(m, s, [Do(s.phase.j, MarkEmpty), Do(s.phase.j, Clear)], [u, v], s')
    ensures WellFormed(m, s') && CrashImage(s', image) && IsAfter(s, s') && s'.medium == s.medium && s'.loose == s.loose
  {
    var j, s1 := s.phase.j, Next(m, s, MarkEmpty);
    s' := Next(m, s1, Clear);
    SameMemory(s, s1, image);
    SameMemory(s, s', image);
    FollowsOne(m, s, Do(j, MarkEmpty), u);
    FollowsOne(m, s1, Do(j, Clear), v);
    FollowsConcat(m, s, [Do(j, MarkEmpty)], [u], s1, [Do(j, Clear)], [v], s');
    assert [Do(j, MarkEmpty)] + [Do(j, Clear)] == [Do(j, MarkEmpty), Do(j, Clear)] && [u] + [v] == [u, v];
  }

  lemma SameMemory(s: Sys, s': Sys, image: Image)
    requires |s.medium| == |s.loose| && s'.medium == s.medium && s'.loose == s.loose && s'.pending == s.pending && CrashImage(s, image)
    ensures CrashImage(s', image)
  {
    forall i | 0 <= i < |image|
      ensures MayBeAt(s', i, image[i])
    {
      assert MayBeAt(s, i, image[i]);
    }
  }

  /** The log is empty and it is the next one's turn, or the snapshot is over. */
  ghost predicate IsAfter(s: Sys, s': Sys)
    requires !s.phase.Idle? && s.phase.j < |s.logs|
  {
    var j := s.phase.j;
    && s'.logs == s.logs[j := Fresh(s.logs[j].listed)] && s'.pending == []
    && s'.cache == s.cache && s'.call == s.call && s'.stale == s.stale
    && if j + 1 < |s.logs| then s'.phase == Before(j + 1) && s'.start == (if s.start.Mapped? then Syncing else s.start)
       else s'.phase == Idle && s'.start == Synced
  }

  /** What was loose and what the first snapshot stores without a flush. */
  function LooseInTurn(m: Mapping, s: Sys): (loose: seq<set<Byte>>)
    requires |s.loose| == |s.cache|
    ensures |loose| == |s.loose|
  {
    if CopiesAll(m, s.start, s.call) then BulkCopy(s.loose, s.cache) else s.loose
  }

  lemma AfterTurn(m: Mapping, s: Sys, plan: seq<Range>, s2: Sys, s': Sys)
    requires WellFormed(m, s) && Enabled(m, s, Activate(plan, []))
    requires s2 == Next(m, s, Activate(plan, [])).(pending := s2.pending, phase := Copying(s.phase.j, [])) && IsAfter(s2, s')
    ensures IsAfter(s, s')
  {
  }

  lemma SettledInTurn(loose: seq<set<Byte>>, pending: seq<Entry>, plan: seq<Range>)
    requires Spans(pending) == plan
    ensures forall i :: 0 <= i < |loose| ==> Settle(loose, pending)[i] == if Touched(plan, i) then {} else loose[i]
  {
    forall i | 0 <= i < |loose|
      ensures Settle(loose, pending)[i] == if Touched(plan, i) then {} else loose[i]
    {
      TouchedSpans(pending, i);
    }
  }

  /** Up to the last copy. */
  lemma {:induction false} FollowsToLastCopy(m: Mapping, s: Sys, plan: seq<Range>, was: S.Head, before: Image) returns (s1: Sys, s2: Sys)
    requires WellFormed(m, s) && s.pending == [] && Enabled(m, s, Activate(plan, []))
    requires CrashImage(s, before) && (was.state == L.ACTIVE <==> s.logs[s.phase.j].flag == ACTIVE)
    ensures s1 == Next(m, s, Activate(plan, [])) && s2 == s1.(pending := s2.pending, phase := Copying(s.phase.j, [])) && Spans(s2.pending) == plan
    ensures Follows(m, s, OpenMoves(s.phase.j, plan), S.OpenMoments(was, before), s1)
    ensures var bulk, missed := CopiesAll(m, s.start, s.call), L.Missed(was.length);
            var start := if bulk then s.cache else before;
            && Follows(m, s1, BulkMoves(s.phase.j, bulk), S.BulkMoments(bulk, missed, s.cache), s1)
            && Follows(m, s1, CopyMoves(s.phase.j, |plan|), S.CopyMoments(start, s.cache, plan, missed), s2)
            && Marked(m, s2, CopyRanges(start, s.cache, plan))
  {
    var bulk, missed := CopiesAll(m, s.start, s.call), L.Missed(was.length);
    s1 := Next(m, s, Activate(plan, []));
    FollowsOpen(m, s, plan, was, before);
    FollowsBulk(m, s1, bulk, missed);
    s2 := FollowsCopies(m, s1, if bulk then s.cache else before, missed);
  }

  /** A turn of the machine: after every operation of the code the mark and the memory are those of the machine. */
  lemma {:induction false} TurnFollows(m: Mapping, s: Sys, plan: seq<Range>, was: S.Head, before: Image) returns (pending: seq<Entry>, s': Sys)
    requires WellFormed(m, s) && s.pending == [] && Enabled(m, s, Activate(plan, []))
    requires CrashImage(s, before) && (was.state == L.ACTIVE <==> s.logs[s.phase.j].flag == ACTIVE)
    ensures Follows(m, s, TurnMoves(s.phase.j, plan, CopiesAll(m, s.start, s.call)),
                    S.TurnMoments(was, before, s.cache, plan, CopiesAll(m, s.start, s.call)), s')
    ensures WellFormed(m, s') && IsAfter(s, s')
    ensures CrashImage(s', CopyRanges(if CopiesAll(m, s.start, s.call) then s.cache else before, s.cache, plan))
    ensures Spans(pending) == plan && s'.medium == CopyRanges(s.medium, s.cache, plan) && s'.loose == Settle(LooseInTurn(m, s), pending)
  {
    var bulk := CopiesAll(m, s.start, s.call);
    var s1, s2 := FollowsToLastCopy(m, s, plan, was, before);
    pending := s2.pending;
    s' := FollowsClose(m, s2, CopyRanges(if bulk then s.cache else before, s.cache, plan), L.Missed(was.length));
    AfterTurn(m, s, plan, s2, s');
    JoinTurn(m, s, s.phase.j, plan, was, before, s.cache, bulk, s1, s2, s');
  }

  /** It leaves its copies on the medium; what they touch is settled, and the bulk copy of a first snapshot is loose elsewhere. */
  lemma {:induction false} TurnSettles(m: Mapping, s: Sys, plan: seq<Range>, was: S.Head, before: Image) returns (s': Sys)
    requires WellFormed(m, s) && s.pending == [] && Enabled(m, s, Activate(plan, []))
    requires CrashImage(s, before) && (was.state == L.ACTIVE <==> s.logs[s.phase.j].flag == ACTIVE)
    ensures Follows(m, s, TurnMoves(s.phase.j, plan, CopiesAll(m, s.start, s.call)),
                    S.TurnMoments(was, before, s.cache, plan, CopiesAll(m, s.start, s.call)), s')
    ensures s'.medium == CopyRanges(s.medium, s.cache, plan) && |s'.loose| == m.size
    ensures forall i :: 0 <= i < m.size ==> s'.loose[i] == if Touched(plan, i) then {} else LooseInTurn(m, s)[i]
  {
    var pending;
    pending, s' := TurnFollows(m, s, plan, was, before);
    SettledInTurn(LooseInTurn(m, s), pending, plan);
  }

  lemma JoinTurn(m: Mapping, s: Sys, j: nat, plan: seq<Range>, was: S.Head, before: Image, cache: Image, bulk: bool, s1: Sys, s2: Sys, s': Sys)
    requires |before| == |cache| && AllWithin(plan, |cache|) && Follows(m, s, OpenMoves(j, plan), S.OpenMoments(was, before), s1)
    requires Follows(m, s1, BulkMoves(j, bulk), S.BulkMoments(bulk, L.Missed(was.length), cache), s1)
    requires Follows(m, s1, CopyMoves(j, |plan|), S.CopyMoments(if bulk then cache else before, cache, plan, L.Missed(was.length)), s2)
    requires Follows(m, s2, CloseMoves(j), S.CloseMoments(L.Missed(was.length), CopyRanges(if bulk then cache else before, cache, plan)), s')
    ensures Follows(m, s, TurnMoves(j, plan, bulk), S.TurnMoments(was, before, cache, plan, bulk), s')
  {
    var missed, start := L.Missed(was.length), if bulk then cache else before;
    JoinFour(m, s, OpenMoves(j, plan), S.OpenMoments(was, before), s1, BulkMoves(j, bulk), S.BulkMoments(bulk, missed, cache), s1,
             CopyMoves(j, |plan|), S.CopyMoments(start, cache, plan, missed), s2,
             CloseMoves(j), S.CloseMoments(missed, CopyRanges(start, cache, plan)), s');
  }

  /**
   One log's turn in snapshot(), on the log object and the backing memory, is the machine's turn: after every
   operation the mark is the machine's, what can be read of the log is what the machine takes as readable, and
   what the memory holds is one of the images that a power failure may then leave.
   */
  method Turn(m: Mapping, log: L.Log, cache: Image, backing: array<Byte>, first: bool, call: Range, ghost journal: S.Journal, ghost s: Sys)
    returns (ghost plan: seq<Range>, ghost s': Sys)
    requires WellFormed(m, s) && s.phase.Before? && s.pending == [] && first == s.start.Mapped? && call == s.call
    requires log.Valid() && Shows(m, log, s.logs[s.phase.j]) && cache == s.cache
    requires backing.Length == m.size && log.content != backing && CrashImage(s, backing[..])
    modifies log, backing, journal
    ensures IsAfter(s, s') && log.Valid() && Shows(m, log, s'.logs[s.phase.j]) && AllWithin(plan, m.size)
    ensures var moments := S.TurnMoments(S.Head(old(log.state), old(log.logOffset)), old(backing[..]), cache, plan, CopiesAll(m, s.start, call));
            journal.moments == old(journal.moments) + moments && Follows(m, s, TurnMoves(s.phase.j, plan, CopiesAll(m, s.start, call)), moments, s')
    ensures backing[..] == CopyRanges(if CopiesAll(m, s.start, call) then cache else old(backing[..]), cache, plan)
    ensures |s'.medium| == |s'.loose| && CrashImage(s', backing[..])
  {
    ghost var was, before := S.Head(log.state, log.logOffset), backing[..];
    plan := S.SnapshotLog(m, log, call.addr, call.bytes, cache, backing, first, journal);
    ghost var _, after := TurnFollows(m, s, plan, was, before);
    s' := after;
  }

  // ----- The whole call -----

  /** The turns of the first logs, one after the other; only the first can have the bulk copy. */
  function CallMoves(plans: seq<seq<Range>>, bulk: bool): seq<Move> {
    if plans == [] then []
    else
      var n := |plans| - 1;
      CallMoves(plans[..n], bulk) + TurnMoves(n, plans[n], bulk && n == 0)
  }

  /** A snapshot that has begun at `s` has come to log `n`; the logs before it are empty, the others as they were. */
  ghost predicate CameTo(s: Sys, n: nat, s': Sys) {
    && n <= |s.logs| == |s'.logs| && s'.cache == s.cache && s'.call == s.call && s'.stale == s.stale && s'.pending == []
    && s'.phase == (if n < |s.logs| then Before(n) else Idle)
    && s'.start == (if n == |s.logs| then Synced else if n > 0 && s.start.Mapped? then Syncing else s.start)
    && forall t :: 0 <= t < |s.logs| ==> s'.logs[t] == if t < n then Fresh(s.logs[t].listed) else s.logs[t]
  }

  ghost predicate HeadsShow(heads: seq<S.Head>, s: Sys) {
    |heads| == |s.logs| && forall t :: 0 <= t < |heads| ==> (heads[t].state == L.ACTIVE <==> s.logs[t].flag == ACTIVE)
  }

  function ListsOf(s: Sys): (lists: seq<seq<Range>>)
    ensures |lists| == |s.logs| && forall t :: 0 <= t < |lists| ==> lists[t] == s.logs[t].entries
  {
    seq(|s.logs|, t requires 0 <= t < |s.logs| => s.logs[t].entries)
  }

  /** The code and the machine have both done the turns of the first `|plans|` logs, moment by moment. */
  ghost predicate Arrived(m: Mapping, s: Sys, heads: seq<S.Head>, before: Image, plans: seq<seq<Range>>, s': Sys) {
    var bulk := CopiesAll(m, s.start, s.call);
    && |before| == |s.cache| && |plans| <= |heads| && S.PlansFit(plans, |s.cache|)
    && Follows(m, s, CallMoves(plans, bulk), S.CallMoments(heads, before, s.cache, plans, bulk), s')
    && WellFormed(m, s') && CameTo(s, |plans|, s') && CrashImage(s', S.ImageAfter(before, s.cache, plans, bulk))
  }

  lemma ArrivedAtFirst(m: Mapping, s: Sys, heads: seq<S.Head>, before: Image)
    requires WellFormed(m, s) && s.phase == Before(0) && s.pending == [] && CrashImage(s, before)
    ensures Arrived(m, s, heads, before, [], s)
  {
  }

  lemma BulkComesFirst(m: Mapping, s: Sys, n: nat, mid: Sys)
    requires n < |s.logs| && CameTo(s, n, mid)
    ensures CopiesAll(m, mid.start, mid.call) == (CopiesAll(m, s.start, s.call) && n == 0)
    ensures mid.phase == Before(n) && mid.pending == [] && mid.cache == s.cache && mid.logs[n] == s.logs[n]
  {
  }

  lemma CameToNext(s: Sys, n: nat, mid: Sys, s': Sys)
    requires n < |s.logs| && CameTo(s, n, mid) && IsAfter(mid, s')
    ensures CameTo(s, n + 1, s')
  {
  }

  /** The next log's turn goes on from where the earlier ones came to. */
  lemma {:induction false} NextTurn(m: Mapping, s: Sys, heads: seq<S.Head>, before: Image, plans: seq<seq<Range>>, plan: seq<Range>, mid: Sys)
    returns (s': Sys)
    requires HeadsShow(heads, s) && |plans| < |s.logs|
    requires Arrived(m, s, heads, before, plans, mid) && Enabled(m, mid, Activate(plan, []))
    ensures Arrived(m, s, heads, before, plans + [plan], s')
  {
    var image := S.ImageAfter(before, s.cache, plans, CopiesAll(m, s.start, s.call));
    BulkComesFirst(m, s, |plans|, mid);
    var _, after := TurnFollows(m, mid, plan, heads[|plans|], image);
    s' := after;
    ArrivesNext(m, s, heads, before, plans, plan, mid, s');
  }

  lemma ArrivesNext(m: Mapping, s: Sys, heads: seq<S.Head>, before: Image, plans: seq<seq<Range>>, plan: seq<Range>, mid: Sys, s': Sys)
    requires |plans| < |s.logs| == |heads| && Arrived(m, s, heads, before, plans, mid) && AllWithin(plan, |s.cache|)
    requires WellFormed(m, s') && IsAfter(mid, s')
    requires var bulk := CopiesAll(m, s.start, s.call);
             var image := S.ImageAfter(before, s.cache, plans, bulk);
             && CrashImage(s', CopyRanges(if bulk && plans == [] then s.cache else image, s.cache, plan))
             && Follows(m, mid, TurnMoves(|plans|, plan, bulk && plans == []),
                        S.TurnMoments(heads[|plans|], image, s.cache, plan, bulk && plans == []), s')
    ensures Arrived(m, s, heads, before, plans + [plan], s')
  {
    var bulk := CopiesAll(m, s.start, s.call);
    CameToNext(s, |plans|, mid, s');
    S.ImageAfterSnoc(before, s.cache, plans, plan, bulk);
    OneMoreTurn(m, s, heads, before, s.cache, plans, plan, bulk, mid, s');
  }

  lemma OneMoreTurn(m: Mapping, s: Sys, heads: seq<S.Head>, before: Image, cache: Image, plans: seq<seq<Range>>, plan: seq<Range>, bulk: bool, mid: Sys, s': Sys)
    requires |before| == |cache| && |plans| < |heads| && S.PlansFit(plans, |cache|) && AllWithin(plan, |cache|)
    requires Follows(m, s, CallMoves(plans, bulk), S.CallMoments(heads, before, cache, plans, bulk), mid)
    requires Follows(m, mid, TurnMoves(|plans|, plan, bulk && plans == []),
                     S.TurnMoments(heads[|plans|], S.ImageAfter(before, cache, plans, bulk), cache, plan, bulk && plans == []), s')
    ensures S.PlansFit(plans + [plan], |cache|)
    ensures Follows(m, s, CallMoves(plans + [plan], bulk), S.CallMoments(heads, before, cache, plans + [plan], bulk), s')
  {
    S.CallMomentsSnoc(heads, before, cache, plans, plan, bulk);
    CallMovesSnoc(plans, plan, bulk);
    FollowsConcat(m, s, CallMoves(plans, bulk), S.CallMoments(heads, before, cache, plans, bulk), mid,
                  TurnMoves(|plans|, plan, bulk && plans == []),
                  S.TurnMoments(heads[|plans|], S.ImageAfter(before, cache, plans, bulk), cache, plan, bulk && plans == []), s');
  }

  lemma FrontAndLast<T>(xs: seq<T>)
    requires xs != []
    ensures xs[..|xs| - 1] + [xs[|xs| - 1]] == xs
  {
  }

  lemma CallMovesSnoc(plans: seq<seq<Range>>, plan: seq<Range>, bulk: bool)
    ensures CallMoves(plans + [plan], bulk) == CallMoves(plans, bulk) + TurnMoves(|plans|, plan, bulk && plans == [])
  {
    assert (plans + [plan])[..|plans|] == plans;
  }

  lemma {:induction false} CallFollows(m: Mapping, s: Sys, heads: seq<S.Head>, before: Image, plans: seq<seq<Range>>) returns (s': Sys)
    requires WellFormed(m, s) && s.phase == Before(0) && s.pending == [] && CrashImage(s, before) && HeadsShow(heads, s)
    requires S.PlansOk(m, ListsOf(s), s.call.addr, s.call.bytes, plans)
    ensures Arrived(m, s, heads, before, plans, s')
    decreases |plans|
  {
    if plans == [] {
      s' := s;
      ArrivedAtFirst(m, s, heads, before);
    } else {
      var n := |plans| - 1;
      FrontAndLast(plans);
      var mid := CallFollows(m, s, heads, before, plans[..n]);
      CanActivate(m, s, plans, mid);
      s' := NextTurn(m, s, heads, before, plans[..n], plans[n], mid);
    }
  }

  lemma CanActivate(m: Mapping, s: Sys, plans: seq<seq<Range>>, mid: Sys)
    requires plans != [] && S.PlansOk(m, ListsOf(s), s.call.addr, s.call.bytes, plans) && WellFormed(m, mid) && CameTo(s, |plans| - 1, mid)
    ensures Enabled(m, mid, Activate(plans[|plans| - 1], []))
  {
    var n := |plans| - 1;
    assert IsCopyPlan(m, ListsOf(s)[n], s.call.addr, s.call.bytes, plans[n]) && AllWithin(plans[n], m.size);
  }

  ghost predicate AllFresh(logs: seq<LogState>) {
    forall k :: 0 <= k < |logs| ==> logs[k] == Fresh(logs[k].listed)
  }

  /** Begin changes nothing in memory. */
  lemma {:induction false} WholeCall(m: Mapping, s: Sys, call: Range, heads: seq<S.Head>, before: Image, plans: seq<seq<Range>>) returns (s': Sys)
    requires WellFormed(m, s) && Enabled(m, s, Begin(call)) && s.pending == [] && CrashImage(s, before) && HeadsShow(heads, s)
    requires S.PlansOk(m, ListsOf(s), call.addr, call.bytes, plans) && |plans| == |s.logs|
    ensures Arrived(m, Next(m, s, Begin(call)), heads, before, plans, s')
    ensures S.PlansFit(plans, |s.cache|) && CrashImage(s', S.ImageAfter(before, s.cache, plans, CopiesAll(m, s.start, call)))
    ensures AllFresh(s'.logs) && |s'.logs| == |s.logs| && s'.start == Synced
  {
    var begun := Next(m, s, Begin(call));
    SameMemory(s, begun, before);
    assert ListsOf(begun) == ListsOf(s);
    s' := CallFollows(m, begun, heads, before, plans);
  }

  ghost predicate AllShow(m: Mapping, logs: seq<L.Log>, states: seq<LogState>)
    reads logs
  {
    |logs| == |states| && forall k :: 0 <= k < |logs| ==> Shows(m, logs[k], states[k])
  }

  lemma ListsShow(m: Mapping, logs: seq<L.Log>, s: Sys)
    requires WellFormed(m, s) && AllShow(m, logs, s.logs)
    ensures S.Lists(logs) == ListsOf(s) && S.ListsTracked(m, ListsOf(s)) && HeadsShow(S.Heads(logs), s)
  {
    forall k | 0 <= k < |logs|
      ensures S.Lists(logs)[k] == ListsOf(s)[k] && (S.Heads(logs)[k].state == L.ACTIVE <==> s.logs[k].flag == ACTIVE)
    {
      assert Shows(m, logs[k], s.logs[k]);
    }
  }

  /**
   A whole snapshot() is the machine's Begin and one turn for every log, in their order: from the call to the
   return there is no moment at which the marks and the memory are not those of the machine.
   */
  method Call(m: Mapping, tlsLogs: seq<L.Log>, cache: Image, backing: array<Byte>, first: bool, call: Range, ghost journal: S.Journal, ghost s: Sys)
    returns (still: bool, ghost plans: seq<seq<Range>>, ghost s': Sys)
    requires WellFormed(m, s) && Enabled(m, s, Begin(call)) && s.pending == [] && first == s.start.Mapped? && cache == s.cache
    requires S.Registered(tlsLogs, backing) && S.AllValid(tlsLogs) && AllShow(m, tlsLogs, s.logs)
    requires backing.Length == m.size && CrashImage(s, backing[..])
    modifies tlsLogs, backing, journal
    ensures |plans| == |s.logs| && Arrived(m, Next(m, s, Begin(call)), old(S.Heads(tlsLogs)), old(backing[..]), plans, s')
    ensures journal.moments == old(journal.moments) +
            S.CallMoments(old(S.Heads(tlsLogs)), old(backing[..]), cache, plans, CopiesAll(m, s.start, call))
    ensures AllShow(m, tlsLogs, s'.logs) && still == s'.start.Mapped? && CrashImage(s', backing[..])
  {
    ghost var heads, before := S.Heads(tlsLogs), backing[..];
    ListsShow(m, tlsLogs, s);
    still, plans := S.Snapshot(m, tlsLogs, call, cache, backing, first, journal);
    s' := WholeCall(m, s, call, heads, before, plans);
    AllShowFresh(m, tlsLogs, s'.logs);
  }

  lemma AllShowFresh(m: Mapping, logs: seq<L.Log>, states: seq<LogState>)
    requires S.AllCleared(logs, |logs|) && |logs| == |states| && AllFresh(states)
    ensures AllShow(m, logs, states)
  {
    forall k | 0 <= k < |logs|
      ensures Shows(m, logs[k], states[k])
    {
      assert S.Cleared(logs[k]);
    }
  }

  // ----- What can be read of a log that was marked ACTIVE -----

  lemma {:induction false} InFileConcat(a: seq<Entry>, b: seq<Entry>, lo: nat, len: nat)
    ensures InFile(a + b, lo, len) == InFile(a, lo, len) + InFile(b, lo, len)
    decreases |b|
  {
    if b == [] {
      assert a + b == a;
    } else {
      var n := |b| - 1;
      assert (a + b)[..|a + b| - 1] == a + b[..n];
      InFileConcat(a, b[..n], lo, len);
    }
  }

  lemma {:induction false} InFileAll(log: seq<Entry>, lo: nat, len: nat)
    requires forall k :: 0 <= k < |log| ==> lo <= log[k].addr < lo + len
    ensures InFile(log, lo, len) == log
    decreases |log|
  {
    if log != [] { InFileAll(log[..|log| - 1], lo, len); }
  }

  lemma {:induction false} RebaseParts(undo: seq<Entry>, k: nat, b: seq<Entry>, lo: nat)
    requires k <= |undo| && (forall j :: 0 <= j < |undo| ==> lo <= undo[j].addr) && forall j :: 0 <= j < |b| ==> lo <= b[j].addr
    ensures R.Rebase(undo[..k] + b, lo) == R.Rebase(undo, lo)[..k] + R.Rebase(b, lo)
  {
  }

  lemma {:induction false} UndoesConcat(undo: seq<Entry>, k: nat, rest: seq<Entry>, lo: nat, len: nat)
    requires k <= |undo| && forall j :: 0 <= j < |undo| ==> lo <= undo[j].addr < lo + len
    ensures R.Undoes(undo[..k] + rest, lo, len) == R.Rebase(undo, lo)[..k] + R.Undoes(rest, lo, len)
  {
    InFileConcat(undo[..k], rest, lo, len);
    InFileAll(undo[..k], lo, len);
    R.InFileBounds(rest, lo, len);
    RebaseParts(undo, k, InFile(rest, lo, len), lo);
  }

  /** The entries that were written back, and then whatever the bytes behind them look like. */
  lemma {:induction false} ReadableEntries(m: Mapping, content: seq<Byte>, area: seq<Byte>, logOffset: nat, undo: seq<Entry>, k: nat)
    requires logOffset <= |content| == |area| && Holds(content[..logOffset], undo)
    requires forall c :: 0 <= c < logOffset && c !in L.Missed(logOffset) ==> area[c] == content[c]
    requires k <= |undo| && Offset(undo, k) <= WrittenBack(logOffset)
    requires forall j :: 0 <= j < |undo| ==> m.startAddr <= undo[j].addr < m.startAddr + m.size
    ensures R.Undoes(WalkFrom(area, 0, logOffset), m.startAddr, m.size) ==
            R.Rebase(undo, m.startAddr)[..k] + R.Undoes(WalkFrom(area, Offset(undo, k), logOffset), m.startAddr, m.size)
  {
    ReadsWrittenBack(content, area, logOffset, undo, k);
    UndoesConcat(undo, k, WalkFrom(area, Offset(undo, k), logOffset), m.startAddr, m.size);
  }

  /** A log with no byte missed is readable as a whole. */
  lemma {:induction false} WholeLogReadable(m: Mapping, content: seq<Byte>, area: seq<Byte>, logOffset: nat, undo: seq<Entry>)
    requires logOffset <= |content| == |area| && Holds(content[..logOffset], undo)
    requires forall c :: 0 <= c < logOffset && c !in L.Missed(logOffset) ==> area[c] == content[c]
    requires logOffset == 0 || logOffset % L.LINE != 0
    requires forall j :: 0 <= j < |undo| ==> m.startAddr <= undo[j].addr < m.startAddr + m.size
    ensures R.Undoes(WalkFrom(area, 0, logOffset), m.startAddr, m.size) == R.Rebase(undo, m.startAddr)
  {
    ReadsAll(content, area, logOffset, undo);
    InFileAll(undo, m.startAddr, m.size);
  }
}

/**
 snapshot() itself: for every registered log, mark it ACTIVE, copy what it logged from
 the page cache to the backing memory, mark it EMPTY and clear it.
 */
module Snapshot {
  import opened Bytes
  import opened CopyPlan
  import L = Log

  /** Puts one range where a sort by address would: before the first range with a larger address. */
  function InsertByAddr(list: seq<Range>, e: Range): (r: seq<Range>)
    ensures multiset(r) == multiset(list) + multiset{e}
    decreases |list|
  {
    if list == [] then [e]
    else if e.addr < list[0].addr then
      assert [e] + list == [e] + list;
      [e] + list
    else
      assert list == [list[0]] + list[1..];
      [list[0]] + InsertByAddr(list[1..], e)
  }

  lemma {:induction false} InsertKeepsSorted(list: seq<Range>, e: Range)
    requires SortedByAddr(list)
    ensures SortedByAddr(InsertByAddr(list, e))
    decreases |list|
  {
    if list != [] && list[0].addr <= e.addr {
      InsertKeepsSorted(list[1..], e);
      var rest := InsertByAddr(list[1..], e);
      forall k | 0 <= k < |rest|
        ensures list[0].addr <= rest[k].addr
      {
        assert rest[k] in multiset(list[1..]) + multiset{e};
        if rest[k] != e {
          var j :| 0 <= j < |list[1..]| && list[1..][j] == rest[k];
        }
      }
    }
  }

  /** std::sort by address. Callers rely only on order and contents, not on how ties come out. */
  method SortByAddr(list: seq<Range>) returns (sorted: seq<Range>)
    ensures SameElements(list, sorted) && SortedByAddr(sorted)
  {
    sorted := [];
    for i := 0 to |list|
      invariant SameElements(list[..i], sorted) && SortedByAddr(sorted)
    {
      InsertKeepsSorted(sorted, list[i]);
      sorted := InsertByAddr(sorted, list[i]);
      assert list[..i + 1] == list[..i] + [list[i]];
    }
    assert list[..|list|] == list;
  }

  // ----- What is in memory, moment by moment -----

  /** The mark, the recorded length and the unflushed bytes of the log at hand, and the backing memory, after one operation of snapshot(). */
  datatype Moment = Moment(state: L.State, length: nat, dirty: set<nat>, image: Image)

  ghost function Now(log: L.Log, backing: array<Byte>): Moment
    reads log, backing
  {
    Moment(log.state, log.logOffset, log.dirty, backing[..])
  }

  /** Keeps the moments; every operation on persistent memory notes one. */
  class Journal {
    ghost var moments: seq<Moment>

    constructor ()
      ensures moments == []
    {
      moments := [];
    }

    ghost method Note(log: L.Log, backing: array<Byte>)
      modifies this
      ensures moments == old(moments) + [Now(log, backing)]
    {
      moments := moments + [Now(log, backing)];
    }
  }

  method FlushLog(log: L.Log, backing: array<Byte>, ghost journal: Journal)
    requires log.Valid()
    modifies log`dirty, journal
    ensures log.dirty == L.Missed(log.logOffset) && journal.moments == old(journal.moments) + [Now(log, backing)]
  {
    log.FlushAll();
    journal.Note(log, backing);
  }

  method ZeroLength(log: L.Log, backing: array<Byte>, ghost journal: Journal)
    modifies log`logOffset, journal
    ensures log.logOffset == 0 && journal.moments == old(journal.moments) + [Now(log, backing)]
  {
    log.logOffset := 0;
    journal.Note(log, backing);
  }

  method Mark(log: L.Log, state: L.State, backing: array<Byte>, ghost journal: Journal)
    modifies log`state, journal
    ensures log.state == state && journal.moments == old(journal.moments) + [Now(log, backing)]
  {
    log.SetState(state);
    journal.Note(log, backing);
  }

  /** One streaming write, or memcpy, from the page cache. The log must be marked by then. */
  method WriteBack(log: L.Log, backing: array<Byte>, cache: Image, w: Range, ghost journal: Journal)
    requires |cache| == backing.Length && w.Within(|cache|) && log.state == L.ACTIVE
    modifies backing, journal
    ensures backing[..] == CopyRange(old(backing[..]), cache, w)
    ensures journal.moments == old(journal.moments) + [Now(log, backing)]
  {
    L.Poke(backing, w.addr, cache[w.addr..w.addr + w.bytes]);
    journal.Note(log, backing);
  }

  /** From here on the copies are on the medium; memory looks the same. */
  method Drain(log: L.Log, backing: array<Byte>, ghost journal: Journal)
    modifies journal
    ensures journal.moments == old(journal.moments) + [Now(log, backing)]
  {
    journal.Note(log, backing);
  }

  method ClearLog(log: L.Log, backing: array<Byte>, ghost journal: Journal)
    modifies log, journal
    ensures log.Valid() && log.undo == [] && log.entries == [] && log.lastLog == Range(0, 0) && log.logOffset == 0 && log.dirty == {}
    ensures log.state == old(log.state) && journal.moments == old(journal.moments) + [Now(log, backing)]
  {
    log.Clear();
    journal.Note(log, backing);
  }

  // ----- The copy loop -----

  /** One moment for every write, while the log is ACTIVE and its length zero. */
  ghost function CopyMoments(before: Image, cache: Image, writes: seq<Range>, missed: set<nat>): seq<Moment>
    requires |before| == |cache| && AllWithin(writes, |cache|)
    decreases |writes|
  {
    if writes == [] then []
    else
      var image := CopyRange(before, cache, writes[0]);
      [Moment(L.ACTIVE, 0, missed, image)] + CopyMoments(image, cache, writes[1..], missed)
  }

  lemma {:induction false} CopyMomentsSnoc(before: Image, cache: Image, writes: seq<Range>, w: Range, missed: set<nat>)
    requires |before| == |cache| && AllWithin(writes, |cache|) && w.Within(|cache|)
    ensures CopyMoments(before, cache, writes + [w], missed) ==
            CopyMoments(before, cache, writes, missed) + [Moment(L.ACTIVE, 0, missed, CopyRange(CopyRanges(before, cache, writes), cache, w))]
    decreases |writes|
  {
    if writes == [] {
      assert writes + [w] == [w];
    } else {
      CopyMomentsSnoc(CopyRange(before, cache, writes[0]), cache, writes[1..], w, missed);
      assert (writes + [w])[1..] == writes[1..] + [w];
    }
  }

  /** How many of the first `n` entries the call selects. */
  function SelectedIn(list: seq<Range>, n: nat, addr: nat, bytes: nat): nat
    requires n <= |list|
  {
    if n == 0 then 0 else SelectedIn(list, n - 1, addr, bytes) + if Selected(list[n - 1], addr, bytes) then 1 else 0
  }

  /** After the writes `done`: the image, and the moments since `base`. */
  ghost predicate Copied(was: Image, cache: Image, done: seq<Range>, missed: set<nat>, image: Image, base: seq<Moment>, moments: seq<Moment>) {
    && |was| == |cache| && AllWithin(done, |cache|)
    && image == CopyRanges(was, cache, done) && moments == base + CopyMoments(was, cache, done, missed)
  }

  lemma CopiedNone(was: Image, cache: Image, missed: set<nat>, base: seq<Moment>)
    requires |was| == |cache|
    ensures Copied(was, cache, [], missed, was, base, base)
  {
    assert base + [] == base;
  }

  lemma CopiedOneMore(was: Image, cache: Image, done: seq<Range>, w: Range, missed: set<nat>, image: Image, base: seq<Moment>, moments: seq<Moment>)
    requires Copied(was, cache, done, missed, image, base, moments) && w.Within(|cache|)
    ensures |image| == |cache|
    ensures Copied(was, cache, done + [w], missed, CopyRange(image, cache, w), base,
                   moments + [Moment(L.ACTIVE, 0, missed, CopyRange(image, cache, w))])
  {
    CopyRangesSnoc(was, cache, done, w);
    CopyMomentsSnoc(was, cache, done, w, missed);
  }

  method CopyEntry(m: Mapping, log: L.Log, entry: Range, cache: Image, backing: array<Byte>, ghost journal: Journal,
                   ghost was: Image, ghost done: seq<Range>, ghost base: seq<Moment>)
    requires m.Ok() && m.Tracks(entry) && |cache| == backing.Length == m.size && log.state == L.ACTIVE && log.logOffset == 0
    requires Copied(was, cache, done, log.dirty, backing[..], base, journal.moments)
    modifies backing, journal
    ensures Copied(was, cache, done + [m.Copied(entry)], log.dirty, backing[..], base, journal.moments)
  {
    var w := m.Copied(entry);
    CopiedOneMore(was, cache, done, w, log.dirty, backing[..], base, journal.moments);
    WriteBack(log, backing, cache, w, journal);
  }

  /** The loop has come to entry `i` and has issued the writes before it. */
  ghost predicate Issued(m: Mapping, list: seq<Range>, addr: nat, bytes: nat, i: nat, done: seq<Range>)
    requires m.Ok() && AllTracked(m, list)
  {
    i <= |list| && done + WritesFrom(m, list, i, addr, bytes) == WritesFrom(m, list, 0, addr, bytes)
  }

  lemma IssuedNext(m: Mapping, list: seq<Range>, addr: nat, bytes: nat, i: nat, done: seq<Range>)
    requires m.Ok() && AllTracked(m, list) && Issued(m, list, addr, bytes, i, done) && i < |list|
    ensures if Selected(list[i], addr, bytes) && !Skipped(list, i) then Issued(m, list, addr, bytes, i + 1, done + [m.Copied(list[i])])
            else list[i].addr != 0 ==> Issued(m, list, addr, bytes, i + 1, done)
    ensures !(Selected(list[i], addr, bytes) && !Skipped(list, i)) && list[i].addr == 0 ==> done == WritesFrom(m, list, 0, addr, bytes)
  {
    Regroup(done, [m.Copied(list[i])], WritesFrom(m, list, i + 1, addr, bytes));
    assert done + [] == done;
  }

  lemma IssuedAll(m: Mapping, list: seq<Range>, addr: nat, bytes: nat, done: seq<Range>)
    requires m.Ok() && AllTracked(m, list) && Issued(m, list, addr, bytes, |list|, done)
    ensures done == WritesFrom(m, list, 0, addr, bytes)
  {
    assert done + [] == done;
  }

  /**
   The copy loop. The two counters that must agree before the log may be dropped always do,
   whatever the list and the requested range: both count the selected entries.
   */
  method CopyEntries(m: Mapping, log: L.Log, list: seq<Range>, addr: nat, bytes: nat, cache: Image, backing: array<Byte>, ghost journal: Journal)
    returns (appliedCnt: nat, entryCnt: nat)
    requires m.Ok() && AllTracked(m, list)
    requires |cache| == backing.Length == m.size && log.state == L.ACTIVE && log.logOffset == 0
    modifies backing, journal
    ensures appliedCnt == entryCnt && (0 < m.startAddr ==> entryCnt == SelectedIn(list, |list|, addr, bytes))
    ensures Copied(old(backing[..]), cache, WritesFrom(m, list, 0, addr, bytes), log.dirty, backing[..], old(journal.moments), journal.moments)
  {
    appliedCnt, entryCnt := 0, 0;
    var i := 0;
    ghost var done: seq<Range> := [];
    CopiedNone(backing[..], cache, log.dirty, journal.moments);
    while i < |list|
      invariant 0 <= i <= |list| && Issued(m, list, addr, bytes, i, done)
      invariant Copied(old(backing[..]), cache, done, log.dirty, backing[..], old(journal.moments), journal.moments)
      invariant appliedCnt == entryCnt == SelectedIn(list, i, addr, bytes)
    {
      IssuedNext(m, list, addr, bytes, i, done);
      var entry := list[i];
      var skipEntry := i > 0 && list[i].addr == list[i - 1].addr && list[i].bytes == list[i - 1].bytes;
      var selected := Selected(entry, addr, bytes);
      if selected {
        entryCnt := entryCnt + 1;
      }
      if selected && skipEntry {
        appliedCnt := appliedCnt + 1;
      }
      if selected && !skipEntry {
        appliedCnt := appliedCnt + 1;
        CopyEntry(m, log, entry, cache, backing, journal, old(backing[..]), done, old(journal.moments));
        done := done + [m.Copied(entry)];
      } else if entry.addr == 0 {
        return;
      }
      i := i + 1;
    }
    IssuedAll(m, list, addr, bytes, done);
  }

  // ----- One log's turn -----

  /** Mark and length of a log. */
  datatype Head = Head(state: L.State, length: nat)

  /** Before the first copy the log is written back, its length zeroed and its mark set. */
  ghost function OpenMoments(was: Head, image: Image): seq<Moment> {
    var missed := L.Missed(was.length);
    [Moment(was.state, was.length, missed, image), Moment(was.state, 0, missed, image), Moment(L.ACTIVE, 0, missed, image)]
  }

  /** The mark goes after the drain that follows the last copy. */
  ghost function CloseMoments(missed: set<nat>, image: Image): seq<Moment> {
    [Moment(L.ACTIVE, 0, missed, image), Moment(L.EMPTY, 0, missed, image), Moment(L.EMPTY, 0, {}, image)]
  }

  ghost function BulkMoments(bulk: bool, missed: set<nat>, cache: Image): seq<Moment> {
    if bulk then [Moment(L.ACTIVE, 0, missed, cache)] else []
  }

  /** All moments of a turn. */
  ghost function TurnMoments(was: Head, before: Image, cache: Image, plan: seq<Range>, bulk: bool): seq<Moment>
    requires |before| == |cache| && AllWithin(plan, |cache|)
  {
    var missed, start := L.Missed(was.length), if bulk then cache else before;
    OpenMoments(was, before) + BulkMoments(bulk, missed, cache) + CopyMoments(start, cache, plan, missed)
    + CloseMoments(missed, CopyRanges(start, cache, plan))
  }

  method OpenTurn(log: L.Log, backing: array<Byte>, ghost journal: Journal)
    requires log.Valid()
    modifies log`dirty, log`logOffset, log`state, journal
    ensures log.state == L.ACTIVE && log.logOffset == 0 && log.dirty == L.Missed(old(log.logOffset))
    ensures journal.moments == old(journal.moments) + OpenMoments(Head(old(log.state), old(log.logOffset)), backing[..])
  {
    FlushLog(log, backing, journal);
    ZeroLength(log, backing, journal);
    Mark(log, L.ACTIVE, backing, journal);
  }

  /** If not every selected entry was applied the process ends here, the log still being ACTIVE. */
  method CloseTurn(log: L.Log, applied: bool, backing: array<Byte>, ghost journal: Journal)
    requires log.state == L.ACTIVE && log.logOffset == 0
    modifies log, journal
    ensures applied ==> log.Valid() && Cleared(log) && journal.moments == old(journal.moments) + CloseMoments(old(log.dirty), backing[..])
    ensures !applied ==> unchanged(log)
  {
    Drain(log, backing, journal);
    if applied {
      Mark(log, L.EMPTY, backing, journal);
    } else {
      return;
    }
    ClearLog(log, backing, journal);
  }

  /** The very first turn copies the whole mapped file, if the call's address lies in it. */
  method BulkCopy(m: Mapping, log: L.Log, addr: nat, firstSnapshot: bool, cache: Image, backing: array<Byte>, ghost journal: Journal)
    requires |cache| == backing.Length == m.size && log.state == L.ACTIVE && log.logOffset == 0
    modifies backing, journal
    ensures backing[..] == if firstSnapshot && m.Contains(addr) then cache else old(backing[..])
    ensures journal.moments == old(journal.moments) + BulkMoments(firstSnapshot && m.Contains(addr), log.dirty, cache)
  {
    assert journal.moments + [] == journal.moments;
    if firstSnapshot && m.Contains(addr) {
      WriteBack(log, backing, cache, Range(0, m.size), journal);
      assert backing[..] == cache;
    }
  }

  /** The list in the order the copy loop takes it: sorted if it has more than ten entries. */
  method OrderEntries(m: Mapping, log: L.Log)
    requires AllTracked(m, log.entries)
    modifies log`entries
    ensures LoopOrder(old(log.entries), log.entries) && AllTracked(m, log.entries)
  {
    if |log.entries| > 10 {
      var sorted := SortByAddr(log.entries);
      SameElementsTracked(m, log.entries, sorted);
      log.entries := sorted;
    }
  }

  lemma TurnAddsUp(was: Head, before: Image, cache: Image, plan: seq<Range>, bulk: bool, base: seq<Moment>, marked: seq<Moment>, bulked: seq<Moment>,
                   copied: seq<Moment>, closed: seq<Moment>, end: Image)
    requires |before| == |cache|
    requires marked == base + OpenMoments(was, before) && bulked == marked + BulkMoments(bulk, L.Missed(was.length), cache)
    requires Copied(if bulk then cache else before, cache, plan, L.Missed(was.length), end, bulked, copied)
    requires closed == copied + CloseMoments(L.Missed(was.length), end)
    ensures closed == base + TurnMoments(was, before, cache, plan, bulk)
  {
    var o, b, c := OpenMoments(was, before), BulkMoments(bulk, L.Missed(was.length), cache), CloseMoments(L.Missed(was.length), end);
    FourParts(base, o, b, CopyMoments(if bulk then cache else before, cache, plan, L.Missed(was.length)), c);
  }

  lemma FourParts<T>(base: seq<T>, a: seq<T>, b: seq<T>, c: seq<T>, d: seq<T>)
    ensures (((base + a) + b) + c) + d == base + (((a + b) + c) + d)
  {
  }

  /** One log's turn in a snapshot. */
  method SnapshotLog(m: Mapping, log: L.Log, addr: nat, bytes: nat, cache: Image, backing: array<Byte>, firstSnapshot: bool, ghost journal: Journal)
    returns (ghost writes: seq<Range>)
    requires m.Ok() && log.Valid() && AllTracked(m, log.entries)
    requires |cache| == backing.Length == m.size && log.content != backing
    modifies log, backing, journal
    ensures IsCopyPlan(m, old(log.entries), addr, bytes, writes) && AllWithin(writes, m.size)
    ensures backing[..] == CopyRanges(if firstSnapshot && m.Contains(addr) then cache else old(backing[..]), cache, writes)
    ensures log.Valid() && Cleared(log)
    ensures journal.moments == old(journal.moments) +
            TurnMoments(Head(old(log.state), old(log.logOffset)), old(backing[..]), cache, writes, firstSnapshot && m.Contains(addr))
  {
    ghost var head, before, base := Head(log.state, log.logOffset), backing[..], journal.moments;
    OpenTurn(log, backing, journal);
    ghost var marked := journal.moments;
    BulkCopy(m, log, addr, firstSnapshot, cache, backing, journal);
    ghost var bulked := journal.moments;
    OrderEntries(m, log);
    writes := WritesFrom(m, log.entries, 0, addr, bytes);
    var appliedCnt, entryCnt := CopyEntries(m, log, log.entries, addr, bytes, cache, backing, journal);
    ghost var copied := journal.moments;
    CloseTurn(log, appliedCnt == entryCnt, backing, journal);
    TurnAddsUp(head, before, cache, writes, firstSnapshot && m.Contains(addr), base, marked, bulked, copied, journal.moments, backing[..]);
  }

  /** The registered logs are distinct objects, each with an area of its own. */
  ghost predicate Registered(logs: seq<L.Log>, backing: array<Byte>) {
    && (forall k :: 0 <= k < |logs| ==> logs[k].content != backing)
    && (forall j, k :: 0 <= j < k < |logs| ==> logs[j] != logs[k] && logs[j].content != logs[k].content)
  }

  ghost predicate AllValid(logs: seq<L.Log>)
    reads logs, set k | 0 <= k < |logs| :: logs[k].content
  {
    forall k :: 0 <= k < |logs| ==> logs[k].Valid()
  }

  /** The volatile lists of the logs. */
  ghost function Lists(logs: seq<L.Log>): (r: seq<seq<Range>>)
    reads logs
    ensures |r| == |logs|
  {
    seq(|logs|, k reads logs requires 0 <= k < |logs| => logs[k].entries)
  }

  ghost function Heads(logs: seq<L.Log>): (r: seq<Head>)
    reads logs
    ensures |r| == |logs|
  {
    seq(|logs|, k reads logs requires 0 <= k < |logs| => Head(logs[k].state, logs[k].logOffset))
  }

  ghost predicate ListsTracked(m: Mapping, lists: seq<seq<Range>>) {
    forall k :: 0 <= k < |lists| ==> AllTracked(m, lists[k])
  }

  ghost predicate AllCleared(logs: seq<L.Log>, n: nat)
    reads logs
    requires n <= |logs|
  {
    forall k :: 0 <= k < n ==> Cleared(logs[k])
  }

  ghost predicate Cleared(log: L.Log)
    reads log
  {
    log.state == L.EMPTY && log.undo == [] && log.entries == [] && log.lastLog == Range(0, 0) && log.logOffset == 0
  }

  /** The `n`th log's turn leaves the other logs alone. */
  method SnapshotNth(m: Mapping, tlsLogs: seq<L.Log>, n: nat, addr: nat, bytes: nat, cache: Image, backing: array<Byte>, first: bool,
                     ghost journal: Journal)
    returns (ghost writes: seq<Range>)
    requires m.Ok() && n < |tlsLogs|
    requires Registered(tlsLogs, backing) && AllValid(tlsLogs) && AllTracked(m, tlsLogs[n].entries)
    requires |cache| == backing.Length == m.size
    requires AllCleared(tlsLogs, n)
    modifies tlsLogs[n], backing, journal
    ensures IsCopyPlan(m, old(tlsLogs[n].entries), addr, bytes, writes) && AllWithin(writes, m.size)
    ensures backing[..] == CopyRanges(if first && m.Contains(addr) then cache else old(backing[..]), cache, writes)
    ensures AllValid(tlsLogs) && AllCleared(tlsLogs, n + 1)
    ensures Lists(tlsLogs) == old(Lists(tlsLogs))[n := []] && Heads(tlsLogs) == old(Heads(tlsLogs))[n := Head(L.EMPTY, 0)]
    ensures journal.moments == old(journal.moments) +
            TurnMoments(old(Heads(tlsLogs))[n], old(backing[..]), cache, writes, first && m.Contains(addr))
  {
    var log := tlsLogs[n];
    writes := SnapshotLog(m, log, addr, bytes, cache, backing, first, journal);
    forall k | 0 <= k < |tlsLogs| && k != n
      ensures tlsLogs[k].Valid() && tlsLogs[k].entries == old(tlsLogs[k].entries)
      ensures tlsLogs[k].state == old(tlsLogs[k].state) && tlsLogs[k].logOffset == old(tlsLogs[k].logOffset)
      ensures k < n ==> Cleared(tlsLogs[k])
    {
      assert tlsLogs[k] != log;
      assert k < n ==> old(Cleared(tlsLogs[k]));
    }
  }

  // ----- All logs -----

  ghost predicate PlansOk(m: Mapping, lists: seq<seq<Range>>, addr: nat, bytes: nat, plans: seq<seq<Range>>) {
    m.Ok() && |plans| <= |lists| && forall n :: 0 <= n < |plans| ==>
      AllTracked(m, lists[n]) && IsCopyPlan(m, lists[n], addr, bytes, plans[n]) && AllWithin(plans[n], m.size)
  }

  ghost predicate PlansFit(plans: seq<seq<Range>>, size: nat) {
    forall n :: 0 <= n < |plans| ==> AllWithin(plans[n], size)
  }

  /** The backing image after the turns of so many logs, the bulk copy coming with the first. */
  ghost function ImageAfter(before: Image, cache: Image, plans: seq<seq<Range>>, bulk: bool): (r: Image)
    requires |before| == |cache| && PlansFit(plans, |cache|)
    ensures |r| == |cache|
    decreases |plans|
  {
    if plans == [] then before
    else
      var n := |plans| - 1;
      CopyRanges(if bulk && n == 0 then cache else ImageAfter(before, cache, plans[..n], bulk), cache, plans[n])
  }

  /** The moments of all turns, one log after the other. */
  ghost function CallMoments(heads: seq<Head>, before: Image, cache: Image, plans: seq<seq<Range>>, bulk: bool): seq<Moment>
    requires |before| == |cache| && PlansFit(plans, |cache|) && |plans| <= |heads|
    decreases |plans|
  {
    if plans == [] then []
    else
      var n := |plans| - 1;
      CallMoments(heads, before, cache, plans[..n], bulk) +
      TurnMoments(heads[n], ImageAfter(before, cache, plans[..n], bulk), cache, plans[n], bulk && n == 0)
  }

  lemma {:induction false} ImageAfterAt(before: Image, cache: Image, plans: seq<seq<Range>>, bulk: bool, i: nat)
    requires |before| == |cache| && PlansFit(plans, |cache|) && i < |cache|
    ensures ImageAfter(before, cache, plans, bulk)[i] ==
            if (bulk && plans != []) || exists n :: 0 <= n < |plans| && Touched(plans[n], i) then cache[i] else before[i]
    decreases |plans|
  {
    if plans != [] {
      var n := |plans| - 1;
      ImageAfterAt(before, cache, plans[..n], bulk, i);
      CopyRangesAt(if bulk && n == 0 then cache else ImageAfter(before, cache, plans[..n], bulk), cache, plans[n], i);
      if k :| 0 <= k < |plans[..n]| && Touched(plans[..n][k], i) { assert Touched(plans[k], i); }
      if k :| 0 <= k < n && Touched(plans[k], i) { assert Touched(plans[..n][k], i); }
    }
  }

  /** Some log has an entry that the call selects and whose write takes byte `i` along. */
  ghost predicate ReachedBySome(m: Mapping, lists: seq<seq<Range>>, call: Range, i: int)
    requires m.Ok()
  {
    exists k :: 0 <= k < |lists| && Reached(m, lists[k], call, i)
  }

  /** Byte by byte: the page cache where the bulk copy or a selected entry reaches, and elsewhere what was there. */
  ghost predicate CopiedExactly(m: Mapping, lists: seq<seq<Range>>, call: Range, bulk: bool, cache: Image, before: Image, after: Image)
    requires m.Ok() && |cache| == |before| == |after|
  {
    forall i :: 0 <= i < |cache| ==> after[i] == if bulk || ReachedBySome(m, lists, call, i) then cache[i] else before[i]
  }

  lemma {:induction false} PlansCopyExactly(m: Mapping, lists: seq<seq<Range>>, call: Range, plans: seq<seq<Range>>, bulk: bool, cache: Image, before: Image)
    requires PlansOk(m, lists, call.addr, call.bytes, plans) && |plans| == |lists| && 0 < m.startAddr && |cache| == |before| == m.size
    ensures PlansFit(plans, |cache|) && CopiedExactly(m, lists, call, bulk && lists != [], cache, before, ImageAfter(before, cache, plans, bulk))
  {
    forall i | 0 <= i < |cache|
      ensures ImageAfter(before, cache, plans, bulk)[i] ==
              if (bulk && lists != []) || ReachedBySome(m, lists, call, i) then cache[i] else before[i]
    {
      ImageAfterAt(before, cache, plans, bulk, i);
      forall n | 0 <= n < |plans|
        ensures Touched(plans[n], i) <==> Reached(m, lists[n], call, i)
      {
        PlanReaches(m, lists[n], call, plans[n], i);
      }
    }
  }

  ghost predicate Holds(m: Mapping, list: seq<Range>, i: int) {
    exists e :: e in list && m.Tracks(e) && m.Place(e).Has(i)
  }

  /** Every byte on which the two copies differ is under an entry of some list. */
  ghost predicate OnPar(m: Mapping, lists: seq<seq<Range>>, cache: Image, backing: Image)
    requires |cache| == |backing|
  {
    forall i :: 0 <= i < |cache| && cache[i] != backing[i] ==> exists k :: 0 <= k < |lists| && Holds(m, lists[k], i)
  }

  /** The entries the call does not select. */
  function LeftOut(lists: seq<seq<Range>>, call: Range): (r: seq<seq<Range>>)
    ensures |r| == |lists| && forall k :: 0 <= k < |r| ==> r[k] == Chosen(lists[k], call.addr, call.bytes, false)
  {
    seq(|lists|, k requires 0 <= k < |lists| => Chosen(lists[k], call.addr, call.bytes, false))
  }

  lemma SelectedReaches(m: Mapping, list: seq<Range>, call: Range, e: Range, i: int)
    requires m.Ok() && e in list && m.Tracks(e) && m.Place(e).Has(i)
    ensures Selected(e, call.addr, call.bytes) ==> Reached(m, list, call, i)
  {
    assert m.Copied(e).Has(i);
  }

  /** Copying leaves differences only under what the call does not select. */
  lemma {:induction false} OnParAfter(m: Mapping, lists: seq<seq<Range>>, call: Range, bulk: bool, cache: Image, before: Image, after: Image)
    requires m.Ok() && |cache| == |before| == |after| == m.size && CopiedExactly(m, lists, call, bulk, cache, before, after)
    requires bulk || OnPar(m, lists, cache, before)
    ensures OnPar(m, LeftOut(lists, call), cache, after)
  {
    forall i | 0 <= i < |cache| && cache[i] != after[i]
      ensures exists k :: 0 <= k < |lists| && Holds(m, LeftOut(lists, call)[k], i)
    {
      var k :| 0 <= k < |lists| && Holds(m, lists[k], i);
      var e :| e in lists[k] && m.Tracks(e) && m.Place(e).Has(i);
      SelectedReaches(m, lists[k], call, e, i);
      ChosenIff(lists[k], call.addr, call.bytes, false, e);
      assert Holds(m, LeftOut(lists, call)[k], i);
    }
  }

  /** Nothing is left out by a snapshot of the whole region. */
  lemma {:induction false} WholeRegionLeavesNothing(m: Mapping, lists: seq<seq<Range>>, call: Range, cache: Image, backing: Image)
    requires m.Ok() && WholeRegion(m, call.addr, call.bytes) && ListsTracked(m, lists) && |cache| == |backing|
    requires OnPar(m, LeftOut(lists, call), cache, backing)
    ensures backing == cache
  {
    forall i | 0 <= i < |cache|
      ensures cache[i] == backing[i]
    {
      if k, e :| 0 <= k < |lists| && e in LeftOut(lists, call)[k] && m.Tracks(e) && m.Place(e).Has(i) {
        ChosenIff(lists[k], call.addr, call.bytes, false, e);
        WholeRegionSelects(m, e, call.addr, call.bytes);
      }
    }
  }

  /** After the turns of the first `|plans|` logs: the image, and the moments since `base`. */
  ghost predicate Underway(heads: seq<Head>, was: Image, cache: Image, plans: seq<seq<Range>>, bulk: bool, image: Image,
                           base: seq<Moment>, moments: seq<Moment>)
  {
    && |was| == |cache| && PlansFit(plans, |cache|) && |plans| <= |heads|
    && image == ImageAfter(was, cache, plans, bulk) && moments == base + CallMoments(heads, was, cache, plans, bulk)
  }

  /** The first `n` logs are done, the others as they were. */
  ghost predicate DoneUpTo(logs: seq<L.Log>, n: nat, lists: seq<seq<Range>>, heads: seq<Head>)
    reads logs, set k | 0 <= k < |logs| :: logs[k].content
    requires n <= |logs|
  {
    && AllValid(logs) && AllCleared(logs, n) && |lists| == |heads| == |logs|
    && (forall k :: n <= k < |logs| ==> Lists(logs)[k] == lists[k] && Heads(logs)[k] == heads[k])
  }

  lemma PlansOkSnoc(m: Mapping, lists: seq<seq<Range>>, call: Range, plans: seq<seq<Range>>, plan: seq<Range>)
    requires PlansOk(m, lists, call.addr, call.bytes, plans) && |plans| < |lists| && AllTracked(m, lists[|plans|])
    requires IsCopyPlan(m, lists[|plans|], call.addr, call.bytes, plan) && AllWithin(plan, m.size)
    ensures PlansOk(m, lists, call.addr, call.bytes, plans + [plan])
  {
  }

  lemma ImageAfterSnoc(before: Image, cache: Image, plans: seq<seq<Range>>, plan: seq<Range>, bulk: bool)
    requires |before| == |cache| && PlansFit(plans, |cache|) && AllWithin(plan, |cache|)
    ensures PlansFit(plans + [plan], |cache|)
    ensures ImageAfter(before, cache, plans + [plan], bulk) ==
            CopyRanges(if bulk && plans == [] then cache else ImageAfter(before, cache, plans, bulk), cache, plan)
  {
    assert (plans + [plan])[..|plans|] == plans;
  }

  lemma CallMomentsSnoc(heads: seq<Head>, before: Image, cache: Image, plans: seq<seq<Range>>, plan: seq<Range>, bulk: bool)
    requires |before| == |cache| && PlansFit(plans, |cache|) && AllWithin(plan, |cache|) && |plans| < |heads|
    ensures PlansFit(plans + [plan], |cache|)
    ensures CallMoments(heads, before, cache, plans + [plan], bulk) == CallMoments(heads, before, cache, plans, bulk) +
            TurnMoments(heads[|plans|], ImageAfter(before, cache, plans, bulk), cache, plan, bulk && plans == [])
  {
    assert (plans + [plan])[..|plans|] == plans;
  }

  lemma OneMorePlan(heads: seq<Head>, was: Image, cache: Image, plans: seq<seq<Range>>, plan: seq<Range>, bulk: bool, image: Image,
                    base: seq<Moment>, moments: seq<Moment>)
    requires Underway(heads, was, cache, plans, bulk, image, base, moments) && |plans| < |heads| && AllWithin(plan, |cache|)
    ensures |image| == |cache|
    ensures Underway(heads, was, cache, plans + [plan], bulk, CopyRanges(if bulk && plans == [] then cache else image, cache, plan),
                     base, moments + TurnMoments(heads[|plans|], image, cache, plan, bulk && plans == []))
  {
    ImageAfterSnoc(was, cache, plans, plan, bulk);
    CallMomentsSnoc(heads, was, cache, plans, plan, bulk);
    Regroup(base, CallMoments(heads, was, cache, plans, bulk), TurnMoments(heads[|plans|], image, cache, plan, bulk && plans == []));
  }

  /** What the whole call has done to the backing memory. */
  ghost predicate Synced(m: Mapping, lists: seq<seq<Range>>, call: Range, bulk: bool, cache: Image, was: Image, image: Image)
    requires m.Ok() && |cache| == |was| == |image|
  {
    && CopiedExactly(m, lists, call, bulk, cache, was, image)
    && (bulk || OnPar(m, lists, cache, was) ==>
      && OnPar(m, LeftOut(lists, call), cache, image)
      && (WholeRegion(m, call.addr, call.bytes) ==> image == cache))
  }

  lemma SnapshotDone(m: Mapping, lists: seq<seq<Range>>, call: Range, bulk: bool, cache: Image, was: Image, plans: seq<seq<Range>>, image: Image)
    requires PlansOk(m, lists, call.addr, call.bytes, plans) && PlansFit(plans, |cache|) && |cache| == |was| == m.size
    requires image == ImageAfter(was, cache, plans, bulk)
    requires |plans| == |lists| && 0 < m.startAddr && ListsTracked(m, lists)
    ensures |image| == |cache| && Synced(m, lists, call, bulk && lists != [], cache, was, image)
  {
    PlansCopyExactly(m, lists, call, plans, bulk, cache, was);
    if (bulk && lists != []) || OnPar(m, lists, cache, was) {
      OnParAfter(m, lists, call, bulk && lists != [], cache, was, image);
      if WholeRegion(m, call.addr, call.bytes) { WholeRegionLeavesNothing(m, lists, call, cache, image); }
    }
  }

  method SnapshotNext(m: Mapping, tlsLogs: seq<L.Log>, call: Range, cache: Image, backing: array<Byte>, n: nat, first: bool, ghost journal: Journal,
                      ghost lists: seq<seq<Range>>, ghost heads: seq<Head>, ghost was: Image, ghost plans: seq<seq<Range>>, ghost bulk: bool, ghost base: seq<Moment>)
    returns (ghost plans': seq<seq<Range>>)
    requires m.Ok() && n < |tlsLogs| && Registered(tlsLogs, backing) && |cache| == backing.Length == m.size
    requires DoneUpTo(tlsLogs, n, lists, heads) && ListsTracked(m, lists)
    requires |plans| == n && PlansOk(m, lists, call.addr, call.bytes, plans)
    requires (first && m.Contains(call.addr)) == (bulk && n == 0)
    requires Underway(heads, was, cache, plans, bulk, backing[..], base, journal.moments)
    modifies tlsLogs[n], backing, journal
    ensures DoneUpTo(tlsLogs, n + 1, lists, heads)
    ensures |plans'| == n + 1 && PlansOk(m, lists, call.addr, call.bytes, plans')
    ensures Underway(heads, was, cache, plans', bulk, backing[..], base, journal.moments)
  {
    assert lists[n] == Lists(tlsLogs)[n] && heads[n] == Heads(tlsLogs)[n];
    ghost var image, moments := backing[..], journal.moments;
    ghost var plan := SnapshotNth(m, tlsLogs, n, call.addr, call.bytes, cache, backing, first, journal);
    OneMorePlan(heads, was, cache, plans, plan, bulk, image, base, moments);
    PlansOkSnoc(m, lists, call, plans, plan);
    plans' := plans + [plan];
  }

  /**
   A snapshot over all logs: exactly the bytes that the call reaches, and all of them the first time, become
   those of the page cache; every log is empty afterwards. If the copies differed only where something was
   logged, or this was the first time, they then differ at most on what was logged outside the range of the
   call, and after a snapshot of the whole region not at all.
   */
  method Snapshot(m: Mapping, tlsLogs: seq<L.Log>, call: Range, cache: Image, backing: array<Byte>, firstSnapshot: bool, ghost journal: Journal)
    returns (still: bool, ghost plans: seq<seq<Range>>)
    requires m.Ok() && 0 < m.startAddr
    requires Registered(tlsLogs, backing) && AllValid(tlsLogs) && ListsTracked(m, Lists(tlsLogs))
    requires |cache| == backing.Length == m.size
    modifies tlsLogs, backing, journal
    ensures still == (firstSnapshot && tlsLogs == [])
    ensures Synced(m, old(Lists(tlsLogs)), call, firstSnapshot && m.Contains(call.addr) && tlsLogs != [], cache, old(backing[..]), backing[..])
    ensures AllValid(tlsLogs) && AllCleared(tlsLogs, |tlsLogs|)
    ensures |plans| == |tlsLogs| && PlansOk(m, old(Lists(tlsLogs)), call.addr, call.bytes, plans) && PlansFit(plans, |cache|)
    ensures backing[..] == ImageAfter(old(backing[..]), cache, plans, firstSnapshot && m.Contains(call.addr))
    ensures journal.moments == old(journal.moments) +
            CallMoments(old(Heads(tlsLogs)), old(backing[..]), cache, plans, firstSnapshot && m.Contains(call.addr))
  {
    ghost var lists, heads, was, bulk := Lists(tlsLogs), Heads(tlsLogs), backing[..], firstSnapshot && m.Contains(call.addr);
    still, plans := firstSnapshot, [];
    assert journal.moments + [] == journal.moments;
    for n := 0 to |tlsLogs|
      invariant still == (firstSnapshot && n == 0)
      invariant DoneUpTo(tlsLogs, n, lists, heads)
      invariant |plans| == n && PlansOk(m, lists, call.addr, call.bytes, plans)
      invariant Underway(heads, was, cache, plans, bulk, backing[..], old(journal.moments), journal.moments)
    {
      plans := SnapshotNext(m, tlsLogs, call, cache, backing, n, still, journal, lists, heads, was, plans, bulk, old(journal.moments));
      still := false;
    }
    SnapshotDone(m, lists, call, bulk, cache, was, plans, backing[..]);
  }
}

/**
 One thread's log: the persistent area that log_range appends to, the volatile list of
 ranges beside it, and the bookkeeping that decides which cache lines are flushed when.
 */
module Log {
  import opened Bytes
  import opened UndoLog
  import opened LogFormat

  datatype State = EMPTY | ACTIVE | COMMITTED

  const LINE: nat := 64

  /** Offset of the content area in log_layout_t: state, log_offset and tail_ptr come first. */
  const PREFIX: nat := 24

  /** The cache line of content byte `c`, for a log area that starts on a line boundary. */
  function LineOf(c: nat): nat {
    (PREFIX + c) / LINE
  }

  /** What stays dirty when the lines meeting [at, at + len) of the log area are written back. */
  ghost function Flushed(dirty: set<nat>, at: nat, len: nat): set<nat> {
    set c | c in dirty && !(len > 0 && at / LINE <= LineOf(c) <= (at + len - 1) / LINE)
  }

  predicate Between(lo: int, c: int, hi: int) {
    lo <= c < hi
  }

  ghost function BytesIn(lo: int, hi: nat): set<nat> {
    set c: nat | c < hi && Between(lo, c, hi)
  }

  /** The content bytes of a log of length `logOffset` that lie at or after `from` in the log area. */
  ghost function Tail(logOffset: nat, from: nat): set<nat> {
    BytesIn(from - PREFIX, logOffset)
  }

  ghost predicate FlushInvariant(logOffset: nat, lastFlushOffset: nat, dirty: set<nat>) {
    && lastFlushOffset % LINE == 0
    && 0 <= logOffset - lastFlushOffset < LINE
    && dirty == Tail(logOffset, lastFlushOffset)
  }

  lemma LineBefore(c: nat, bound: nat)
    requires bound % LINE == 0
    ensures PREFIX + c < bound <==> LineOf(c) < bound / LINE
  {
  }

  lemma LastLineBefore(from: nat, to: nat)
    requires from < to && to % LINE == 0
    ensures (to - 1) / LINE == to / LINE - 1
  {
  }

  /** Writing back the whole lines [from, to) leaves what lies at or after `to`. */
  lemma FlushWholeLines(logOffset: nat, from: nat, to: nat)
    requires from % LINE == 0 && to % LINE == 0 && from <= to
    ensures Flushed(Tail(logOffset, from), from, to - from) == Tail(logOffset, to)
  {
    forall c: nat
      ensures c in Flushed(Tail(logOffset, from), from, to - from) <==> c in Tail(logOffset, to)
    {
      LineBefore(c, from);
      LineBefore(c, to);
      if from < to { LastLineBefore(from, to); }
    }
  }

  /** What log_range must write back after an entry has made the log `newOffset` bytes long. */
  lemma FlushStep(oldOffset: nat, newOffset: nat, lastFlush: nat, dirty: set<nat>)
    requires oldOffset <= newOffset && FlushInvariant(oldOffset, lastFlush, dirty)
    ensures dirty + BytesIn(oldOffset, newOffset) == Tail(newOffset, lastFlush)
  {
  }

  lemma WholeLines(d: nat)
    ensures d % LINE == 0 ==> (d + 63) / LINE * LINE == d
    ensures d % LINE != 0 ==> ((d + 63) / LINE - 1) * LINE == d / LINE * LINE
  {
  }

  /** The unflushed content bytes after flush_all. */
  ghost function Missed(logOffset: nat): set<nat> {
    if logOffset > 0 && logOffset % LINE == 0 then BytesIn(logOffset - PREFIX, logOffset) else {}
  }

  lemma FlushRest(logOffset: nat, lastFlush: nat)
    requires FlushInvariant(logOffset, lastFlush, Tail(logOffset, lastFlush))
    requires lastFlush != logOffset
    ensures Flushed(Tail(logOffset, lastFlush), PREFIX + lastFlush, logOffset - lastFlush) == {}
  {
    forall c | c in Tail(logOffset, lastFlush)
      ensures (PREFIX + lastFlush) / LINE <= LineOf(c) <= (PREFIX + logOffset - 1) / LINE
    {
      LineBefore(c, lastFlush);
      assert (PREFIX + lastFlush) / LINE == lastFlush / LINE;
    }
  }

  lemma NothingMissedButMultiples(logOffset: nat, lastFlush: nat)
    requires FlushInvariant(logOffset, lastFlush, Tail(logOffset, lastFlush))
    ensures lastFlush == logOffset <==> logOffset % LINE == 0
    ensures lastFlush == logOffset ==> Tail(logOffset, lastFlush) == Missed(logOffset)
  {
  }

  class Log {
    // The persistent area.
    var state: State
    var logOffset: nat
    var tailPtr: nat
    const content: array<Byte>

    // Volatile bookkeeping.
    var lastLog: Range
    var lastFlushOffset: nat
    var entries: seq<Range>

    /** The entries in the persistent area, oldest first. */
    ghost var undo: seq<Entry>

    /** The content bytes written since their cache line was last written back. */
    ghost var dirty: set<nat>

    ghost predicate Valid()
      reads this, content
    {
      && tailPtr == logOffset <= content.Length
      && Holds(content[..logOffset], undo)
      && FlushInvariant(logOffset, lastFlushOffset, dirty)
      && LastLogged(lastLog, undo)
      && Accounted(entries, undo)
    }

    constructor (capacity: nat)
      ensures Valid() && fresh(content) && content.Length == capacity
      ensures state == EMPTY && undo == [] && entries == []
    {
      content := new Byte[capacity](_ => 0);
      state := EMPTY;
      logOffset, tailPtr := 0, 0;
      lastLog, lastFlushOffset, entries := Range(0, 0), 0, [];
      undo, dirty := [], {};
    }

    /**
     Logs a range of the tracked memory `mem`, whose first byte has address `base`, before it is
     overwritten. The range always joins the volatile list; the undo entry with the bytes the range
     has now is left out when the previous call logged the same range.
     */
    method LogRange(mem: Image, base: nat, start: nat, bytes: nat)
      requires Valid()
      requires base <= start && start + bytes <= base + |mem|
      requires bytes < SIZE_LIMIT && start < ADDR_LIMIT
      requires logOffset + HEADER + bytes <= content.Length
      modifies this, content
      ensures Valid()
      ensures state == old(state)
      ensures entries == old(entries) + [Range(start, bytes)] && lastLog == Range(start, bytes)
      ensures undo == if old(lastLog) == Range(start, bytes) then old(undo)
                      else old(undo) + [Entry(start, mem[start - base..start - base + bytes])]
      ensures logOffset == if old(lastLog) == Range(start, bytes) then old(logOffset) else old(logOffset) + HEADER + bytes
      ensures Accounted([Range(start, bytes)], undo)
    {
      entries := entries + [Range(start, bytes)];
      if lastLog == Range(start, bytes) {
        AccountedSnoc(old(entries), undo, undo, Range(start, bytes));
        return;
      }
      lastLog := Range(start, bytes);
      AppendEntry(start, mem[start - base..start - base + bytes]);
      FlushCompleteLines();
      AccountedSnoc(old(entries), old(undo), undo, Range(start, bytes));
    }

    /** The middle part of log_range: header and content go to the tail of the persistent log. */
    method AppendEntry(start: nat, data: seq<Byte>)
      requires tailPtr == logOffset && logOffset + HEADER + |data| <= content.Length
      requires Holds(content[..logOffset], undo)
      requires FlushInvariant(logOffset, lastFlushOffset, dirty)
      requires |data| < SIZE_LIMIT && start < ADDR_LIMIT
      modifies this`logOffset, this`tailPtr, this`undo, this`dirty, content
      ensures tailPtr == logOffset == old(logOffset) + HEADER + |data|
      ensures undo == old(undo) + [Entry(start, data)]
      ensures Holds(content[..logOffset], undo)
      ensures dirty == Tail(logOffset, lastFlushOffset)
    {
      ghost var before := content[..logOffset];
      var disabled := content[tailPtr] % 2;
      var header := EncodeHeader(disabled, |data|, start);
      Poke(content, tailPtr, header);
      Poke(content, tailPtr + HEADER, data);
      var entrySz := HEADER + |data|;
      assert content[..logOffset + entrySz] == before + header + data;
      HoldsSnoc(before, undo, disabled, Entry(start, data));
      undo := undo + [Entry(start, data)];
      FlushStep(logOffset, logOffset + entrySz, lastFlushOffset, dirty);
      dirty := dirty + BytesIn(logOffset, logOffset + entrySz);
      logOffset := logOffset + entrySz;
      tailPtr := tailPtr + entrySz;
    }

    /** The last part of log_range: write back the lines the log has completely filled. */
    method FlushCompleteLines()
      requires lastFlushOffset % LINE == 0 && lastFlushOffset <= logOffset
      requires dirty == Tail(logOffset, lastFlushOffset)
      modifies this`lastFlushOffset, this`dirty
      ensures FlushInvariant(logOffset, lastFlushOffset, dirty)
    {
      var clsToFlush := (logOffset - lastFlushOffset + 63) / LINE;
      WholeLines(logOffset - lastFlushOffset);
      if logOffset % LINE == 0 {
        FlushWholeLines(logOffset, lastFlushOffset, logOffset);
        dirty := Flushed(dirty, lastFlushOffset, clsToFlush * LINE);
        lastFlushOffset := logOffset;
      } else if clsToFlush > 1 {
        FlushWholeLines(logOffset, lastFlushOffset, lastFlushOffset + (clsToFlush - 1) * LINE);
        dirty := Flushed(dirty, lastFlushOffset, (clsToFlush - 1) * LINE);
        lastFlushOffset := lastFlushOffset + (clsToFlush - 1) * LINE;
      }
    }

    /**
     Writes back the rest of the log before a snapshot. The write-backs of log_range count from the
     start of the log area and this one from the start of the content, 24 bytes further on: the last
     24 content bytes are missed exactly when the log's length is a nonzero multiple of the line size.
     */
    method FlushAll()
      requires Valid()
      modifies this`dirty
      ensures dirty == Missed(logOffset)
    {
      NothingMissedButMultiples(logOffset, lastFlushOffset);
      if lastFlushOffset != logOffset {
        FlushRest(logOffset, lastFlushOffset);
        dirty := Flushed(dirty, PREFIX + lastFlushOffset, logOffset - lastFlushOffset);
      }
    }

    method SetState(s: State)
      modifies this`state
      ensures state == s
    {
      state := s;
    }

    method Clear()
      modifies this`logOffset, this`tailPtr, this`lastFlushOffset, this`lastLog, this`entries, this`undo, this`dirty
      ensures Valid() && undo == [] && entries == [] && lastLog == Range(0, 0) && logOffset == 0
    {
      logOffset := 0;
      tailPtr := 0;
      lastFlushOffset := 0;
      lastLog := Range(0, 0);
      entries := [];
      undo, dirty := [], {};
    }
  }

  /** `lastLog` is the range of the newest undo entry, or zero when there is none. */
  ghost predicate LastLogged(lastLog: Range, undo: seq<Entry>) {
    lastLog == Range(0, 0) || (undo != [] && undo[|undo| - 1].Span() == lastLog)
  }

  /** Every range in the volatile list that holds a byte has an undo entry of its own. */
  ghost predicate Accounted(entries: seq<Range>, undo: seq<Entry>) {
    forall k :: 0 <= k < |entries| ==>
      entries[k] == Range(0, 0) || exists j :: 0 <= j < |undo| && undo[j].Span() == entries[k]
  }

  lemma AccountedSnoc(entries: seq<Range>, undo: seq<Entry>, undo': seq<Entry>, r: Range)
    requires Accounted(entries, undo) && undo <= undo' && LastLogged(r, undo')
    ensures Accounted(entries + [r], undo') && Accounted([r], undo')
  {
    forall k | 0 <= k < |entries + [r]|
      ensures (entries + [r])[k] == Range(0, 0) || exists j :: 0 <= j < |undo'| && undo'[j].Span() == (entries + [r])[k]
    {
      if k < |entries| && entries[k] != Range(0, 0) {
        var j :| 0 <= j < |undo| && undo[j].Span() == entries[k];
        assert undo'[j].Span() == entries[k];
      }
    }
    assert (entries + [r])[|entries|] == r;
  }

  /** memcpy into a buffer. */
  method Poke(a: array<Byte>, at: nat, data: seq<Byte>)
    requires at + |data| <= a.Length
    modifies a
    ensures a[..] == Blit(old(a[..]), at, data)
  {
    for i := 0 to |data|
      invariant forall j :: 0 <= j < a.Length ==> a[j] == if at <= j < at + i then data[j - at] else old(a[j])
    {
      a[at + i] := data[i];
    }
  }
}

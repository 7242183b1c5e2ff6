/**
 How much of a log is sure to be on the medium when the log is marked ACTIVE, and what recovery
 reads of it.
 */
module LogDurability {
  import opened Bytes
  import opened UndoLog
  import opened LogFormat
  import L = Log

  /** How far the content is sure to have been written back by flush_all. */
  function WrittenBack(logOffset: nat): (n: nat)
    ensures n <= logOffset
  {
    if logOffset > 0 && logOffset % L.LINE == 0 then (if logOffset >= L.PREFIX then logOffset - L.PREFIX else 0) else logOffset
  }

  lemma MissedIsBehind(logOffset: nat, c: nat)
    requires c < WrittenBack(logOffset)
    ensures c !in L.Missed(logOffset)
  {
  }

  /**
   `area` is what is left of the log's content after a power failure: the bytes that flush_all has
   missed may be anything. The walk still reads, in order, the entries that end before them.
   */
  lemma {:induction false} ReadsWrittenBack(content: seq<Byte>, area: seq<Byte>, logOffset: nat, undo: seq<Entry>, k: nat)
    requires logOffset <= |content| == |area| && Holds(content[..logOffset], undo)
    requires forall c :: 0 <= c < logOffset && c !in L.Missed(logOffset) ==> area[c] == content[c]
    requires k <= |undo| && Offset(undo, k) <= WrittenBack(logOffset)
    ensures WalkFrom(area, 0, logOffset) == undo[..k] + WalkFrom(area, Offset(undo, k), logOffset)
  {
    var cut := WrittenBack(logOffset);
    forall c | 0 <= c < cut
      ensures content[c] == area[c]
    {
      MissedIsBehind(logOffset, c);
    }
    assert content[..cut] == area[..cut];
    TornWalk(content, area, logOffset, undo, cut, k);
  }

  /** If nothing was missed the walk reads the whole log. */
  lemma {:induction false} ReadsAll(content: seq<Byte>, area: seq<Byte>, logOffset: nat, undo: seq<Entry>)
    requires logOffset <= |content| == |area| && Holds(content[..logOffset], undo)
    requires forall c :: 0 <= c < logOffset && c !in L.Missed(logOffset) ==> area[c] == content[c]
    requires logOffset == 0 || logOffset % L.LINE != 0
    ensures WalkFrom(area, 0, logOffset) == undo && WalkEnd(area, 0, logOffset) == logOffset
  {
    assert area[..logOffset] == content[..logOffset] by {
      assert forall c :: 0 <= c < logOffset ==> area[c] == content[c];
    }
    PackedWalk(area, logOffset, undo, 0);
  }

  /**
   Thirty-two stores of eight bytes to different places fill nine cache lines exactly, and flush_all
   leaves the last 24 bytes of the log in the cache: the last entry, and the end of the one before it.
   */
  method FillNineLines(log: L.Log, mem: Image, base: nat)
    requires log.Valid() && log.undo == [] && log.lastLog == Range(0, 0) && log.content.Length >= 576
    requires 0 < base && base + 256 <= base + |mem| && base + 256 < ADDR_LIMIT
    modifies log, log.content
    ensures log.Valid() && log.logOffset == 576 && |log.undo| == 32
    ensures log.dirty == L.BytesIn(552, 576)
    ensures Offset(log.undo, 30) <= WrittenBack(576) < Offset(log.undo, 31)
  {
    HoldsAt(log.content[..log.logOffset], log.undo, 0);
    for i := 0 to 32
      invariant log.Valid() && |log.undo| == i && log.logOffset == 18 * i
      invariant log.lastLog.addr < base + 8 * i
      invariant forall k :: 0 <= k < i ==> |log.undo[k].content| == 8
    {
      log.LogRange(mem, base, base + 8 * i, 8);
    }
    EqualEntries(log.undo, 30);
    EqualEntries(log.undo, 31);
    log.FlushAll();
  }

  lemma {:induction false} EqualEntries(undo: seq<Entry>, k: nat)
    requires k <= |undo| && forall j :: 0 <= j < |undo| ==> |undo[j].content| == 8
    ensures Offset(undo, k) == 18 * k
  {
    if k > 0 { EqualEntries(undo, k - 1); }
  }
}

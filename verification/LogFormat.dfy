/**
 The bytes of a persistent log: packed entries of a ten-byte header and the logged content,
 one after the other from the start of the content area.
 */
module LogFormat {
  import opened Bytes
  import opened UndoLog

  /** sizeof(log_entry_t): one flag bit, 23 bits of size and 56 bits of address, packed. */
  const HEADER: nat := 10

  const SIZE_LIMIT: nat := 0x80_0000
  const ADDR_LIMIT: nat := 0x100_0000_0000_0000

  function LittleEndian(v: nat, n: nat): (r: seq<Byte>)
    ensures |r| == n
    decreases n
  {
    if n == 0 then [] else [v % 256] + LittleEndian(v / 256, n - 1)
  }

  function FromLittleEndian(b: seq<Byte>): nat {
    if b == [] then 0 else b[0] + 256 * FromLittleEndian(b[1..])
  }

  function Pow256(n: nat): nat {
    if n == 0 then 1 else 256 * Pow256(n - 1)
  }

  lemma {:induction false} LittleEndianRoundTrip(v: nat, n: nat)
    requires v < Pow256(n)
    ensures FromLittleEndian(LittleEndian(v, n)) == v
    decreases n
  {
    if n > 0 {
      LittleEndianRoundTrip(v / 256, n - 1);
    }
  }

  /** The header as one 80-bit number; the bit-fields keep only the low bits of what is stored in them. */
  function HeaderWord(disabled: nat, bytes: nat, addr: nat): nat
    requires disabled < 2
  {
    disabled + 2 * (bytes % SIZE_LIMIT) + 2 * SIZE_LIMIT * (addr % ADDR_LIMIT)
  }

  /** log_range assigns `addr` and `bytes` and leaves the flag bit as it was in the buffer. */
  function EncodeHeader(disabled: nat, bytes: nat, addr: nat): (h: seq<Byte>)
    requires disabled < 2
    ensures |h| == HEADER
  {
    LittleEndian(HeaderWord(disabled, bytes, addr), HEADER)
  }

  function HeaderBytes(h: seq<Byte>): nat
    requires |h| == HEADER
  {
    FromLittleEndian(h) / 2 % SIZE_LIMIT
  }

  function HeaderAddr(h: seq<Byte>): nat
    requires |h| == HEADER
  {
    FromLittleEndian(h) / (2 * SIZE_LIMIT)
  }

  lemma HeaderWordFits(disabled: nat, bytes: nat, addr: nat)
    requires disabled < 2
    ensures HeaderWord(disabled, bytes, addr) < Pow256(HEADER)
  {
    assert Pow256(4) == 0x1_0000_0000;
    assert Pow256(8) == 0x1_0000_0000_0000_0000;
    assert Pow256(HEADER) == 0x1_0000_0000_0000_0000_0000;
  }

  lemma HeaderWordFields(disabled: nat, b: nat, a: nat)
    requires disabled < 2 && b < SIZE_LIMIT
    ensures (disabled + 2 * b + 2 * SIZE_LIMIT * a) / 2 % SIZE_LIMIT == b
    ensures (disabled + 2 * b + 2 * SIZE_LIMIT * a) / (2 * SIZE_LIMIT) == a
  {
    assert (disabled + 2 * b + 2 * SIZE_LIMIT * a) / 2 == b + SIZE_LIMIT * a;
  }

  lemma HeaderDecodes(disabled: nat, bytes: nat, addr: nat)
    requires disabled < 2
    ensures FromLittleEndian(EncodeHeader(disabled, bytes, addr)) == HeaderWord(disabled, bytes, addr)
  {
    HeaderWordFits(disabled, bytes, addr);
    LittleEndianRoundTrip(HeaderWord(disabled, bytes, addr), HEADER);
  }

  /** A header reads back as what was stored, cut to the width of the fields. */
  lemma HeaderFields(disabled: nat, bytes: nat, addr: nat)
    requires disabled < 2
    ensures HeaderBytes(EncodeHeader(disabled, bytes, addr)) == bytes % SIZE_LIMIT
    ensures HeaderAddr(EncodeHeader(disabled, bytes, addr)) == addr % ADDR_LIMIT
  {
    var h := EncodeHeader(disabled, bytes, addr);
    HeaderDecodes(disabled, bytes, addr);
    HeaderWordFields(disabled, bytes % SIZE_LIMIT, addr % ADDR_LIMIT);
  }

  lemma ModIdentityIff(x: nat, limit: nat)
    requires limit == SIZE_LIMIT || limit == ADDR_LIMIT
    ensures x % limit == x <==> x < limit
  {
  }

  /** A header reads back exactly when both values fit their fields. */
  lemma {:induction false} HeaderRoundTripIff(disabled: nat, bytes: nat, addr: nat)
    requires disabled < 2
    ensures var h := EncodeHeader(disabled, bytes, addr);
            HeaderBytes(h) == bytes && HeaderAddr(h) == addr <==> bytes < SIZE_LIMIT && addr < ADDR_LIMIT
  {
    HeaderFields(disabled, bytes, addr);
    ModIdentityIff(bytes, SIZE_LIMIT);
    ModIdentityIff(addr, ADDR_LIMIT);
  }

  /** The content area `b` is exactly the entries `log`, packed, whatever the flag bits. */
  ghost predicate Holds(b: seq<Byte>, log: seq<Entry>)
    decreases |log|
  {
    if log == [] then b == []
    else
      var n := |log[0].content|;
      && |b| >= HEADER + n
      && HeaderBytes(b[..HEADER]) == n
      && HeaderAddr(b[..HEADER]) == log[0].addr
      && b[HEADER..HEADER + n] == log[0].content
      && Holds(b[HEADER + n..], log[1..])
  }

  lemma {:induction false} HoldsOne(disabled: nat, e: Entry)
    requires disabled < 2 && |e.content| < SIZE_LIMIT && e.addr < ADDR_LIMIT
    ensures Holds(EncodeHeader(disabled, |e.content|, e.addr) + e.content, [e])
  {
    var h := EncodeHeader(disabled, |e.content|, e.addr);
    HeaderRoundTripIff(disabled, |e.content|, e.addr);
    var all := h + e.content;
    assert all[..HEADER] == h && all[HEADER..] == e.content;
  }

  /** What follows the first entry may be exchanged for something longer. */
  lemma LongerSlices(b: seq<Byte>, tail: seq<Byte>, n: nat)
    requires HEADER <= n <= |b|
    ensures (b + tail)[n..] == b[n..] + tail && (b + tail)[..HEADER] == b[..HEADER] && (b + tail)[HEADER..n] == b[HEADER..n]
  {
  }

  lemma {:induction false} HoldsLonger(b: seq<Byte>, log: seq<Entry>, tail: seq<Byte>, more: seq<Entry>)
    requires log != [] && Holds(b, log)
    requires Holds(b[HEADER + |log[0].content|..] + tail, log[1..] + more)
    ensures Holds(b + tail, log + more)
  {
    LongerSlices(b, tail, HEADER + |log[0].content|);
    assert (log + more)[1..] == log[1..] + more && (log + more)[0] == log[0];
  }

  lemma {:induction false} HoldsJoin(b: seq<Byte>, log: seq<Entry>, tail: seq<Byte>, more: seq<Entry>)
    requires Holds(b, log) && Holds(tail, more)
    ensures Holds(b + tail, log + more)
    decreases |log|
  {
    if log == [] {
      assert b + tail == tail && log + more == more;
    } else {
      HoldsJoin(b[HEADER + |log[0].content|..], log[1..], tail, more);
      HoldsLonger(b, log, tail, more);
    }
  }

  /** Appending one packed entry appends it to the list. */
  lemma {:induction false} HoldsSnoc(b: seq<Byte>, log: seq<Entry>, disabled: nat, e: Entry)
    requires Holds(b, log) && disabled < 2
    requires |e.content| < SIZE_LIMIT && e.addr < ADDR_LIMIT
    ensures Holds(b + EncodeHeader(disabled, |e.content|, e.addr) + e.content, log + [e])
  {
    var h := EncodeHeader(disabled, |e.content|, e.addr);
    HoldsOne(disabled, e);
    HoldsJoin(b, log, h + e.content, [e]);
    assert b + h + e.content == b + (h + e.content);
  }

  function EntrySize(e: Entry): nat {
    HEADER + |e.content|
  }

  /** Where entry `k` starts. */
  function Offset(log: seq<Entry>, k: nat): nat
    requires k <= |log|
  {
    if k == 0 then 0 else Offset(log, k - 1) + EntrySize(log[k - 1])
  }

  /** Entry `k` can be read at its offset, and the entries fill the area exactly. */
  lemma {:induction false} HoldsAt(b: seq<Byte>, log: seq<Entry>, k: nat)
    requires Holds(b, log) && k <= |log|
    ensures Offset(log, k) <= |b| && (Offset(log, k) == |b| <==> k == |log|)
    ensures Holds(b[Offset(log, k)..], log[k..])
    decreases k
  {
    if k == 0 {
      assert b[0..] == b && log[0..] == log;
    } else {
      HoldsAt(b, log, k - 1);
      var o := Offset(log, k - 1);
      assert log[k - 1..][0] == log[k - 1];
      assert log[k - 1..][1..] == log[k..];
      assert b[o..][EntrySize(log[k - 1])..] == b[Offset(log, k)..];
      if k < |log| {
        assert log[k..] != [];
      }
    }
  }

  /** The entries that start inside the file mapped at [lo, lo + len). */
  function InFile(log: seq<Entry>, lo: nat, len: nat): seq<Entry> {
    if log == [] then []
    else
      var e := log[|log| - 1];
      InFile(log[..|log| - 1], lo, len) + if lo <= e.addr < lo + len then [e] else []
  }

  /** The entry whose header is at `off`. */
  function EntryAt(b: seq<Byte>, off: nat): Entry
    requires off + HEADER <= |b| && off + HEADER + HeaderBytes(b[off..off + HEADER]) <= |b|
  {
    var h := b[off..off + HEADER];
    Entry(HeaderAddr(h), b[off + HEADER..off + HEADER + HeaderBytes(h)])
  }

  lemma ReadsEntry(b: seq<Byte>, log: seq<Entry>, k: nat)
    requires Holds(b, log) && k < |log|
    ensures Offset(log, k) + HEADER <= |b|
    ensures Offset(log, k) + HEADER + HeaderBytes(b[Offset(log, k)..Offset(log, k) + HEADER]) <= |b|
    ensures EntryAt(b, Offset(log, k)) == log[k]
    ensures Offset(log, k + 1) == Offset(log, k) + HEADER + HeaderBytes(b[Offset(log, k)..Offset(log, k) + HEADER])
  {
    HoldsAt(b, log, k);
    var o := Offset(log, k);
    assert log[k..][0] == log[k];
    assert b[o..][..HEADER] == b[o..o + HEADER];
    var n := |log[k].content|;
    assert b[o..][HEADER..HEADER + n] == b[o + HEADER..o + HEADER + n];
  }

  predicate Readable(b: seq<Byte>, off: nat) {
    off + HEADER <= |b| && off + HEADER + HeaderBytes(b[off..off + HEADER]) <= |b|
  }

  /** The entries found at `offsets` in the area `b` are `log`. */
  ghost predicate ReadsAs(b: seq<Byte>, offsets: seq<nat>, log: seq<Entry>) {
    && |offsets| == |log|
    && forall k :: 0 <= k < |log| ==> Readable(b, offsets[k]) && EntryAt(b, offsets[k]) == log[k]
  }

  /** Where the walk goes after the entry at `off`. */
  function After(b: seq<Byte>, off: nat): (next: nat)
    requires Readable(b, off)
    ensures next > off
  {
    off + HEADER + HeaderBytes(b[off..off + HEADER])
  }

  /** The entries the walk reads from `off` on, whatever the bytes are; it cannot go past the end of the area. */
  ghost function WalkFrom(b: seq<Byte>, off: nat, logOffset: nat): seq<Entry>
    decreases logOffset - off
  {
    if off >= logOffset || !Readable(b, off) then [] else [EntryAt(b, off)] + WalkFrom(b, After(b, off), logOffset)
  }

  /** Where the walk ends. */
  ghost function WalkEnd(b: seq<Byte>, off: nat, logOffset: nat): nat
    decreases logOffset - off
  {
    if off >= logOffset || !Readable(b, off) then off else WalkEnd(b, After(b, off), logOffset)
  }

  lemma SameSlice(b: seq<Byte>, b': seq<Byte>, cut: nat, i: nat, j: nat)
    requires i <= j <= cut <= |b| && cut <= |b'| && b[..cut] == b'[..cut]
    ensures b[i..j] == b'[i..j]
  {
    forall k | i <= k < j
      ensures b[k] == b'[k]
    {
      assert b[k] == b[..cut][k] && b'[k] == b'[..cut][k];
    }
  }

  /** An entry that lies in the part two areas have in common is read the same in both. */
  lemma SameEntry(b: seq<Byte>, b': seq<Byte>, cut: nat, off: nat)
    requires cut <= |b| && cut <= |b'| && b[..cut] == b'[..cut] && Readable(b, off) && After(b, off) <= cut
    ensures Readable(b', off) && EntryAt(b', off) == EntryAt(b, off) && After(b', off) == After(b, off)
  {
    SameSlice(b, b', cut, off, off + HEADER);
    SameSlice(b, b', cut, off + HEADER, After(b, off));
  }

  lemma {:induction false} WalkStep(b: seq<Byte>, logOffset: nat, log: seq<Entry>, k: nat)
    requires logOffset <= |b| && Holds(b[..logOffset], log) && k < |log|
    ensures Readable(b, Offset(log, k)) && EntryAt(b, Offset(log, k)) == log[k] && After(b, Offset(log, k)) == Offset(log, k + 1)
    ensures Offset(log, k + 1) <= logOffset && (Offset(log, k + 1) == logOffset <==> k + 1 == |log|)
  {
    var area := b[..logOffset];
    ReadsEntry(area, log, k);
    HoldsAt(area, log, k + 1);
    assert area[..logOffset] == b[..logOffset];
    SameEntry(area, b, logOffset, Offset(log, k));
  }

  /** On a packed log the walk reads the entries that were appended, in order, and ends exactly at its end. */
  lemma {:induction false} PackedWalk(b: seq<Byte>, logOffset: nat, log: seq<Entry>, k: nat)
    requires logOffset <= |b| && Holds(b[..logOffset], log) && k <= |log|
    ensures WalkFrom(b, Offset(log, k), logOffset) == log[k..] && WalkEnd(b, Offset(log, k), logOffset) == logOffset
    decreases |log| - k
  {
    HoldsAt(b[..logOffset], log, k);
    if k < |log| {
      WalkStep(b, logOffset, log, k);
      PackedWalk(b, logOffset, log, k + 1);
      assert log[k..] == [log[k]] + log[k + 1..];
    }
  }

  /** An entry that ends before the cut is read, and the walk goes on behind it. */
  lemma {:induction false} TornStep(b: seq<Byte>, b': seq<Byte>, logOffset: nat, log: seq<Entry>, cut: nat, k: nat)
    requires logOffset <= |b| && Holds(b[..logOffset], log)
    requires cut <= |b| && cut <= |b'| && b[..cut] == b'[..cut] && k < |log| && Offset(log, k + 1) <= cut
    ensures Offset(log, k) <= Offset(log, k + 1)
    ensures WalkFrom(b', Offset(log, k), logOffset) == [log[k]] + WalkFrom(b', Offset(log, k + 1), logOffset)
  {
    WalkStep(b, logOffset, log, k);
    HoldsAt(b[..logOffset], log, k);
    SameEntry(b, b', cut, Offset(log, k));
  }

  lemma TakeOne(log: seq<Entry>, k: nat, rest: seq<Entry>)
    requires k < |log|
    ensures log[..k] + ([log[k]] + rest) == log[..k + 1] + rest
  {
  }

  /**
   The log as it was packed, and an area that agrees with it up to `cut` only: the walk reads the entries
   that end there or before, and then whatever the rest looks like.
   */
  lemma {:induction false} TornWalk(b: seq<Byte>, b': seq<Byte>, logOffset: nat, log: seq<Entry>, cut: nat, k: nat)
    requires logOffset <= |b| && Holds(b[..logOffset], log)
    requires cut <= |b| && cut <= |b'| && b[..cut] == b'[..cut] && k <= |log| && Offset(log, k) <= cut
    ensures WalkFrom(b', 0, logOffset) == log[..k] + WalkFrom(b', Offset(log, k), logOffset)
    decreases k
  {
    if k > 0 {
      TornStep(b, b', logOffset, log, cut, k - 1);
      TornWalk(b, b', logOffset, log, cut, k - 1);
      TakeOne(log, k - 1, WalkFrom(b', Offset(log, k), logOffset));
    }
  }

  lemma ReadsAsSnoc(b: seq<Byte>, offsets: seq<nat>, log: seq<Entry>, off: nat)
    requires ReadsAs(b, offsets, log) && Readable(b, off)
    ensures ReadsAs(b, offsets + [off], log + [EntryAt(b, off)])
  {
  }

  lemma InFileSnoc(seen: seq<Entry>, e: Entry, lo: nat, len: nat)
    ensures InFile(seen + [e], lo, len) == InFile(seen, lo, len) + if lo <= e.addr < lo + len then [e] else []
  {
    assert (seen + [e])[..|seen|] == seen;
  }

  /** The offsets the walk comes by, with the one where it ends. */
  ghost function Trail(b: seq<Byte>, off: nat, logOffset: nat): (r: seq<nat>)
    ensures r != []
    decreases logOffset - off
  {
    if off >= logOffset || !Readable(b, off) then [off] else [off] + Trail(b, After(b, off), logOffset)
  }

  ghost predicate Stops(b: seq<Byte>, off: nat, logOffset: nat) {
    off >= logOffset || !Readable(b, off)
  }

  /** `all` are the entries at the offsets of the trail, each one behind the other. */
  ghost predicate IsTrail(b: seq<Byte>, logOffset: nat, trail: seq<nat>, all: seq<Entry>) {
    && |trail| == |all| + 1 && Stops(b, trail[|all|], logOffset)
    && forall k :: 0 <= k < |all| ==>
         !Stops(b, trail[k], logOffset) && EntryAt(b, trail[k]) == all[k] && trail[k + 1] == trail[k] + |all[k].content| + HEADER
  }

  lemma {:induction false} WalkIsTrail(b: seq<Byte>, off: nat, logOffset: nat)
    ensures var trail := Trail(b, off, logOffset);
            && IsTrail(b, logOffset, trail, WalkFrom(b, off, logOffset)) && trail[0] == off
            && trail[|trail| - 1] == WalkEnd(b, off, logOffset)
    decreases logOffset - off
  {
    if !Stops(b, off, logOffset) {
      var next := After(b, off);
      WalkIsTrail(b, next, logOffset);
      TrailGrows(b, logOffset, off, Trail(b, next, logOffset), WalkFrom(b, next, logOffset));
    }
  }

  lemma {:induction false} TrailGrows(b: seq<Byte>, logOffset: nat, off: nat, trail: seq<nat>, all: seq<Entry>)
    requires IsTrail(b, logOffset, trail, all) && !Stops(b, off, logOffset) && trail[0] == off + |EntryAt(b, off).content| + HEADER
    ensures IsTrail(b, logOffset, [off] + trail, [EntryAt(b, off)] + all)
  {
    var trail', all' := [off] + trail, [EntryAt(b, off)] + all;
    forall k | 0 <= k < |all'|
      ensures !Stops(b, trail'[k], logOffset) && EntryAt(b, trail'[k]) == all'[k] && trail'[k + 1] == trail'[k] + |all'[k].content| + HEADER
    {
      if k > 0 { assert trail'[k] == trail[k - 1] && all'[k] == all[k - 1]; }
    }
  }

  /** `k` entries have been passed, and the offsets of those in the file are collected. */
  ghost predicate Collected(b: seq<Byte>, logOffset: nat, trail: seq<nat>, all: seq<Entry>, lo: nat, len: nat, offsets: seq<nat>, k: nat) {
    IsTrail(b, logOffset, trail, all) && k <= |all| && ReadsAs(b, offsets, InFile(all[..k], lo, len))
  }

  lemma {:induction false} CollectNext(b: seq<Byte>, logOffset: nat, trail: seq<nat>, all: seq<Entry>, lo: nat, len: nat, offsets: seq<nat>, k: nat)
    requires Collected(b, logOffset, trail, all, lo, len, offsets, k) && !Stops(b, trail[k], logOffset)
    ensures k < |all| && all[k] == EntryAt(b, trail[k]) && trail[k + 1] == trail[k] + |all[k].content| + HEADER
    ensures lo <= all[k].addr < lo + len ==> Collected(b, logOffset, trail, all, lo, len, offsets + [trail[k]], k + 1)
    ensures !(lo <= all[k].addr < lo + len) ==> Collected(b, logOffset, trail, all, lo, len, offsets, k + 1)
  {
    assert all[..k + 1] == all[..k] + [all[k]];
    InFileSnoc(all[..k], all[k], lo, len);
    ReadsAsSnoc(b, offsets, InFile(all[..k], lo, len), trail[k]);
  }

  lemma {:induction false} CollectedAll(b: seq<Byte>, logOffset: nat, trail: seq<nat>, all: seq<Entry>, lo: nat, len: nat, offsets: seq<nat>, k: nat)
    requires Collected(b, logOffset, trail, all, lo, len, offsets, k) && Stops(b, trail[k], logOffset)
    ensures k == |all| && ReadsAs(b, offsets, InFile(all, lo, len))
  {
    assert all[..|all|] == all;
  }

  /**
   Recovery's first loop: walk the log from its start while the offset is below `logOffset` and
   keep the offsets of the entries that belong to the file.
   */
  method Walk(b: seq<Byte>, logOffset: nat, lo: nat, len: nat)
    returns (offsets: seq<nat>, curOff: nat)
    ensures ReadsAs(b, offsets, InFile(WalkFrom(b, 0, logOffset), lo, len))
    ensures curOff == WalkEnd(b, 0, logOffset)
  {
    ghost var all, trail, k := WalkFrom(b, 0, logOffset), Trail(b, 0, logOffset), 0;
    WalkIsTrail(b, 0, logOffset);
    offsets, curOff := [], 0;
    while curOff < logOffset && Readable(b, curOff)
      invariant Collected(b, logOffset, trail, all, lo, len, offsets, k)
      invariant curOff == trail[k]
      decreases |all| - k
    {
      CollectNext(b, logOffset, trail, all, lo, len, offsets, k);
      var entry := EntryAt(b, curOff);
      if lo <= entry.addr < lo + len {
        offsets := offsets + [curOff];
      }
      curOff := curOff + |entry.content| + HEADER;
      k := k + 1;
    }
    CollectedAll(b, logOffset, trail, all, lo, len, offsets, k);
  }
}

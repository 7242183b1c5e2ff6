/**
 How snapshot() chooses the bytes it streams to the backing file for one log entry:
 in the aligned build the write is widened to an aligned block.
 */
module WidenedWrite {
  import opened Bytes

  function Pow2(a: nat): (p: nat)
    ensures p >= 1
  {
    if a == 0 then 1 else 2 * Pow2(a - 1)
  }

  /** Number of significant bits; __builtin_clzl(x) is 64 - BitLength(x). */
  function BitLength(x: nat): nat {
    if x == 0 then 0 else 1 + BitLength(x / 2)
  }

  function PopCount(x: nat): nat {
    if x == 0 then 0 else x % 2 + PopCount(x / 2)
  }

  /** Despite its name, the exponent of the largest power of two not above `x`. */
  function PreviousPowerOfTwo(x: nat): int {
    64 - 1 - (64 - BitLength(x))
  }

  lemma {:induction false} BitLengthBounds(x: nat)
    requires x > 0
    ensures BitLength(x) >= 1
    ensures Pow2(BitLength(x) - 1) <= x < Pow2(BitLength(x))
  {
    if x > 1 { BitLengthBounds(x / 2); }
  }

  lemma {:induction false} PopCountPositive(x: nat)
    ensures PopCount(x) == 0 <==> x == 0
  {
    if x > 0 { PopCountPositive(x / 2); }
  }

  /** PreviousPowerOfTwo(x) is the e with 2^e <= x < 2^(e+1), and x has one bit set exactly when x == 2^e. */
  lemma {:induction false} PreviousPowerOfTwoIsLog2(x: nat)
    requires x > 0
    ensures PreviousPowerOfTwo(x) >= 0
    ensures Pow2(PreviousPowerOfTwo(x)) <= x < 2 * Pow2(PreviousPowerOfTwo(x))
    ensures PopCount(x) == 1 <==> x == Pow2(PreviousPowerOfTwo(x))
  {
    BitLengthBounds(x);
    OneBitIff(x);
  }

  lemma {:induction false} OneBitIff(x: nat)
    requires x > 0
    ensures BitLength(x) >= 1 && (PopCount(x) == 1 <==> x == Pow2(BitLength(x) - 1))
  {
    if x == 1 {
      assert BitLength(1) == 1 && PopCount(1) == 1;
    } else {
      var half := x / 2;
      assert PopCount(x) == x % 2 + PopCount(half) && BitLength(x) == 1 + BitLength(half);
      OneBitIff(half);
      assert Pow2(BitLength(half)) == 2 * Pow2(BitLength(half) - 1);
      PopCountPositive(half);
      OneMoreBit(x, half, PopCount(half), Pow2(BitLength(half) - 1));
    }
  }

  lemma OneMoreBit(x: nat, half: nat, count: nat, power: nat)
    requires x == 2 * half + x % 2 && half > 0 && count > 0 && (count == 1 <==> half == power)
    ensures x % 2 + count == 1 <==> x == 2 * power
  {
  }

  /** The exponent of the block size an entry is aligned to. */
  function AlignTo(bytes: nat): int {
    var prevPwr2 := PreviousPowerOfTwo(bytes) + 1;
    var alignTo := if prevPwr2 > 9 then 9 else prevPwr2;
    if PopCount(bytes) == 1 then alignTo - 1 else alignTo
  }

  lemma {:induction false} Pow2Monotone(a: nat, b: nat)
    requires a <= b
    ensures Pow2(a) <= Pow2(b)
    decreases b
  {
    if a < b { Pow2Monotone(a, b - 1); }
  }

  lemma Pow2Values()
    ensures Pow2(2) == 4 && Pow2(3) == 8 && Pow2(4) == 16 && Pow2(5) == 32 && Pow2(6) == 64
    ensures Pow2(7) == 128 && Pow2(8) == 256 && Pow2(9) == 512
  {
    assert Pow2(3) == 8;
    assert Pow2(6) == 64;
  }

  lemma Twice256(x: nat)
    requires x % 256 == 0
    ensures 2 * x % 256 == 0
  {
  }

  lemma {:induction false} Pow2Multiple256(e: nat)
    requires e >= 8
    ensures Pow2(e) % 256 == 0
  {
    if e == 8 {
      Pow2Values();
    } else {
      Pow2Multiple256(e - 1);
      Twice256(Pow2(e - 1));
    }
  }

  /** Either the block just holds the entry, or the entry is long and the block size is 256 or 512. */
  lemma AlignToFits(bytes: nat)
    requires bytes >= 8
    ensures 3 <= AlignTo(bytes) <= 9
    ensures PopCount(bytes) == 1 ==> bytes == Pow2(AlignTo(bytes)) || (AlignTo(bytes) == 8 && bytes % 256 == 0 && bytes > 256)
    ensures PopCount(bytes) != 1 ==>
              || (AlignTo(bytes) >= 4 && Pow2(AlignTo(bytes) - 1) < bytes < Pow2(AlignTo(bytes)))
              || (AlignTo(bytes) == 9 && bytes > 512)
  {
    Pow2Values();
    PreviousPowerOfTwoIsLog2(bytes);
    var e := PreviousPowerOfTwo(bytes);
    assert e >= 3 by {
      if e < 3 { Pow2Monotone(e, 2); }
    }
    if PopCount(bytes) == 1 {
      if e >= 9 { Pow2Monotone(9, e); Pow2Multiple256(e); }
    } else {
      if e >= 9 { Pow2Monotone(9, e); }
    }
  }

  lemma DivMod(x: nat, d: nat)
    requires d > 0
    ensures x / d * d + x % d == x && 0 <= x % d < d
  {
  }

  /** `x >> a << a` for d == 2^a. */
  function RoundDownTo(x: nat, d: nat): (r: nat)
    requires d > 0
    ensures r <= x < r + d
    ensures r == x <==> x % d == 0
    ensures x - r == x % d
  {
    DivMod(x, d);
    x / d * d
  }

  /** The block an entry of at least eight bytes at `dst` is widened to. */
  function Widened(dst: nat, bytes: nat): Range
    requires bytes >= 8
  {
    AlignToFits(bytes);
    var block := Pow2(AlignTo(bytes));
    var modulo := dst % block;
    var dstAligned := if modulo == 0 then dst else RoundDownTo(dst, block);
    var newSzPfxAl := bytes + (dst - dstAligned);
    var newSzSfxAl := if block >= bytes then block else RoundUp(bytes);
    Range(dstAligned, if dst == dstAligned then newSzSfxAl else newSzPfxAl)
  }

  /** The size rounded up to whole 256-byte units. */
  function RoundUp(bytes: nat): nat {
    (bytes / 256 + if bytes % 256 != 0 then 1 else 0) * 256
  }

  /** The bytes written for one entry, in the build with aligned writes and in the one without. */
  function WriteFor(aligned: bool, dst: nat, bytes: nat): Range {
    if aligned then
      if bytes >= 8 then Widened(dst, bytes) else Range(dst, bytes)
    else if bytes >= 8 && PopCount(bytes) == 1 && dst % bytes == 0 then
      Range(dst, Widened(dst, bytes).bytes)
    else
      Range(dst, bytes)
  }

  lemma PrefixInPage(dst: nat, block: nat)
    requires block in {8, 16, 32, 64, 128, 256, 512}
    ensures dst % block <= dst && (dst - dst % block) / 4096 == dst / 4096
  {
    if block == 8 {} else if block == 16 {} else if block == 32 {} else if block == 64 {}
    else if block == 128 {} else if block == 256 {} else {}
  }

  lemma LastInBlock(dst: nat, block: nat)
    requires block in {8, 16, 32, 64, 128, 256, 512} && dst % block == 0
    ensures (dst + block - 1) % block == block - 1
  {
    if block == 8 {} else if block == 16 {} else if block == 32 {} else if block == 64 {}
    else if block == 128 {} else if block == 256 {} else {}
  }

  /** A whole block that starts on a block boundary stays in one page. */
  lemma BlockInPage(dst: nat, block: nat)
    requires block in {8, 16, 32, 64, 128, 256, 512} && dst % block == 0
    ensures (dst + block - 1) / 4096 == dst / 4096
  {
    LastInBlock(dst, block);
    PrefixInPage(dst + block - 1, block);
  }

  lemma RoundUp256(dst: nat, bytes: nat)
    requires dst % 256 == 0 && bytes > 0
    ensures bytes <= RoundUp(bytes) < bytes + 256
    ensures (dst + RoundUp(bytes) - 1) / 4096 == (dst + bytes - 1) / 4096
  {
    assert (dst + RoundUp(bytes) - 1) / 256 == (dst + bytes - 1) / 256;
  }

  lemma MultipleOf256(dst: nat, block: nat)
    requires block == 256 || block == 512
    ensures dst % block == 0 ==> dst % 256 == 0
  {
  }

  /** Every 4 KiB page the widened write touches, the entry touches. */
  ghost predicate SamePages(w: Range, r: Range) {
    w.bytes > 0 && r.bytes > 0 && w.addr / 4096 == r.addr / 4096 && (w.addr + w.bytes - 1) / 4096 == (r.addr + r.bytes - 1) / 4096
  }

  /** A block boundary below the entry. */
  lemma PrefixPages(dst: nat, bytes: nat, block: nat)
    requires block in {8, 16, 32, 64, 128, 256, 512} && bytes > 0
    ensures dst % block <= dst && dst % block <= 511
    ensures SamePages(Range(dst - dst % block, bytes + dst % block), Range(dst, bytes))
  {
    PrefixInPage(dst, block);
  }

  /** A whole block from a block boundary on, or so many bytes rounded up. */
  lemma SuffixPages(dst: nat, bytes: nat, block: nat)
    requires block in {8, 16, 32, 64, 128, 256, 512} && bytes > 0 && dst % block == 0 && (block < bytes ==> block >= 256)
    ensures SamePages(Range(dst, if block >= bytes then block else RoundUp(bytes)), Range(dst, bytes))
    ensures block < bytes ==> bytes <= RoundUp(bytes) < bytes + 256
  {
    if block >= bytes {
      BlockInPage(dst, block);
      InPageBetween(dst, bytes, block);
    } else {
      MultipleOf256(dst, block);
      RoundUp256(dst, bytes);
    }
  }

  /** The block is less than 256 bytes longer than the entry. */
  lemma BlockFits(bytes: nat) returns (block: nat)
    requires bytes >= 8
    ensures 3 <= AlignTo(bytes) && block == Pow2(AlignTo(bytes)) && block in {8, 16, 32, 64, 128, 256, 512}
    ensures block < bytes + 256 && (block < bytes ==> block >= 256)
  {
    AlignToFits(bytes);
    Pow2Values();
    block := Pow2(AlignTo(bytes));
  }

  // ----- Exactly which bytes are written -----

  ghost predicate IsPowerOfTwo(x: nat) {
    exists e: nat :: x == Pow2(e)
  }

  /** `d` is the smallest power of two that holds the entry; from 512 bytes on it is 256 for a power of two and else 512. */
  ghost predicate JustHolds(bytes: nat, d: nat) {
    && d in {8, 16, 32, 64, 128, 256, 512}
    && if bytes < 512 then bytes <= d < 2 * bytes else d == if IsPowerOfTwo(bytes) then 256 else 512
  }

  /** The write for an entry at `dst`, in terms of its block: it starts with the block, and ends with the entry or, if nothing is in front of that, with the block. */
  ghost predicate FillsBlock(dst: nat, bytes: nat, d: nat, w: Range)
    requires d > 0
  {
    && w.addr % d == 0 && w.addr <= dst < w.addr + d
    && if dst % d != 0 then w.addr + w.bytes == dst + bytes
       else if bytes <= d then w.bytes == d
       else w.bytes % 256 == 0 && bytes <= w.bytes < bytes + 256
  }

  ghost predicate IsWidened(dst: nat, bytes: nat, w: Range) {
    exists d: nat :: JustHolds(bytes, d) && FillsBlock(dst, bytes, d, w)
  }

  lemma {:induction false} Pow2Injective(a: nat, b: nat)
    requires Pow2(a) <= Pow2(b) < 2 * Pow2(a)
    ensures a == b
  {
    if a < b { Pow2Monotone(a + 1, b); }
    if b < a { Pow2Monotone(b + 1, a); }
  }

  lemma {:induction false} OneBitIsPower(x: nat)
    requires x > 0
    ensures PopCount(x) == 1 <==> IsPowerOfTwo(x)
  {
    PreviousPowerOfTwoIsLog2(x);
    if IsPowerOfTwo(x) {
      var e: nat :| x == Pow2(e);
      Pow2Injective(PreviousPowerOfTwo(x), e);
    }
  }

  /** The block size the code computes is that block. */
  lemma {:induction false} BlockJustHolds(bytes: nat) returns (block: nat)
    requires bytes >= 8
    ensures 3 <= AlignTo(bytes) && block == Pow2(AlignTo(bytes)) && JustHolds(bytes, block)
  {
    block := BlockFits(bytes);
    OneBitIsPower(bytes);
    PreviousPowerOfTwoIsLog2(bytes);
    AlignToFits(bytes);
    Pow2Values();
  }

  lemma MultipleHasNoRest(q: nat, d: nat)
    requires d > 0
    ensures q * d % d == 0
  {
    var y := q * d;
    DivMod(y, d);
    OnlyZeroTimes(q - y / d, d, y % d);
  }

  lemma OnlyZeroTimes(k: int, d: nat, r: nat)
    requires k * d == r < d
    ensures r == 0
  {
    NotLess(k, d);
  }

  lemma NotLess(k: int, d: nat)
    ensures k >= 1 ==> k * d >= d
    ensures k <= -1 ==> k * d + d <= 0
  {
  }

  lemma RoundDownIsMultiple(x: nat, d: nat)
    requires d > 0
    ensures RoundDownTo(x, d) % d == 0
  {
    MultipleHasNoRest(x / d, d);
  }

  lemma RoundUpIsMultiple(bytes: nat)
    ensures RoundUp(bytes) % 256 == 0 && bytes <= RoundUp(bytes) < bytes + 256
  {
  }

  lemma {:induction false} WidenedFills(dst: nat, bytes: nat)
    requires bytes >= 8
    ensures IsWidened(dst, bytes, Widened(dst, bytes))
  {
    var block := BlockJustHolds(bytes);
    RoundDownIsMultiple(dst, block);
    RoundUpIsMultiple(bytes);
    assert FillsBlock(dst, bytes, block, Widened(dst, bytes));
  }

  /** No other write fits that description. */
  lemma {:induction false} WidenedIsUnique(dst: nat, bytes: nat, w: Range)
    requires bytes >= 8 && IsWidened(dst, bytes, w)
    ensures w == Widened(dst, bytes)
  {
    var d: nat :| JustHolds(bytes, d) && FillsBlock(dst, bytes, d, w);
    var block := BlockJustHolds(bytes);
    OneBlock(bytes, d, block);
    RoundDownIsMultiple(dst, d);
    RoundUpIsMultiple(bytes);
    OneMultiple(dst, d, w.addr, RoundDownTo(dst, d));
    if dst % d == 0 && bytes > d { OneMultiple(bytes + 255, 256, w.bytes, RoundUp(bytes)); }
  }

  lemma OneBlock(bytes: nat, d: nat, d': nat)
    requires bytes >= 8 && JustHolds(bytes, d) && JustHolds(bytes, d')
    ensures d == d'
  {
  }

  lemma OneMultiple(x: nat, d: nat, a: nat, b: nat)
    requires d in {8, 16, 32, 64, 128, 256, 512} && a % d == 0 && b % d == 0 && a <= x < a + d && b <= x < b + d
    ensures a == b
  {
    if d == 8 {} else if d == 16 {} else if d == 32 {} else if d == 64 {}
    else if d == 128 {} else if d == 256 {} else {}
  }

  lemma {:induction false} WidenedBounds(dst: nat, bytes: nat)
    requires bytes >= 8
    ensures var w := Widened(dst, bytes);
            && IsWidened(dst, bytes, w)
            && dst - 511 <= w.addr <= dst
            && dst + bytes <= w.addr + w.bytes < dst + bytes + 256
            && SamePages(w, Range(dst, bytes))
  {
    WidenedFills(dst, bytes);
    var block := BlockFits(bytes);
    if dst % block == 0 {
      SuffixPages(dst, bytes, block);
    } else {
      PrefixPages(dst, bytes, block);
    }
  }

  lemma InPageBetween(dst: nat, bytes: nat, block: nat)
    requires 0 < bytes <= block && (dst + block - 1) / 4096 == dst / 4096
    ensures (dst + bytes - 1) / 4096 == (dst + block - 1) / 4096
  {
  }

  lemma DivisibleThrough256(dst: nat, bytes: nat)
    requires bytes > 0 && bytes % 256 == 0 && dst % bytes == 0
    ensures dst % 256 == 0
  {
    DivMod(dst, bytes);
    var q, m := dst / bytes, bytes / 256;
    assert bytes == m * 256;
    assert q * (m * 256) == (q * m) * 256;
    MultipleOf(q * m);
  }

  lemma MultipleOf(k: nat)
    ensures k * 256 % 256 == 0
  {
  }

  /** Without aligned writes the streamed bytes are exactly the entry. */
  lemma UnalignedBuildIsExact(dst: nat, bytes: nat)
    ensures WriteFor(false, dst, bytes) == Range(dst, bytes)
  {
    if bytes >= 8 && PopCount(bytes) == 1 && dst % bytes == 0 {
      AlignToFits(bytes);
      Pow2Values();
      if bytes != Pow2(AlignTo(bytes)) { DivisibleThrough256(dst, bytes); }
    }
  }

  /** The write is the entry itself, except that in the aligned build one of at least eight bytes is widened. */
  ghost predicate IsWriteFor(aligned: bool, dst: nat, bytes: nat, w: Range) {
    if aligned && bytes >= 8 then IsWidened(dst, bytes, w) else w == Range(dst, bytes)
  }

  /** In both builds the write covers the entry, starts at most 511 bytes early, ends less than 256 late and stays in the entry's pages. */
  lemma {:induction false} WriteForBounds(aligned: bool, dst: nat, bytes: nat)
    ensures var w := WriteFor(aligned, dst, bytes);
            && IsWriteFor(aligned, dst, bytes, w)
            && dst - 511 <= w.addr <= dst
            && dst + bytes <= w.addr + w.bytes < dst + bytes + 256
            && (bytes > 0 ==> SamePages(w, Range(dst, bytes)))
  {
    if aligned {
      if bytes >= 8 { WidenedBounds(dst, bytes); }
    } else {
      UnalignedBuildIsExact(dst, bytes);
    }
  }

  lemma SamePagesStayIn(w: Range, r: Range, base: nat, size: nat)
    requires base % 4096 == 0 && size % 4096 == 0
    requires base <= r.addr && r.addr + r.bytes <= base + size
    requires SamePages(w, r)
    ensures base <= w.addr && w.addr + w.bytes <= base + size
  {
    assert base / 4096 <= r.addr / 4096;
    assert (r.addr + r.bytes - 1) / 4096 < (base + size) / 4096;
  }

  /** Between page-aligned bounds a write never leaves the region its entry lies in. */
  lemma {:induction false} WriteForStaysInRegion(aligned: bool, base: nat, size: nat, dst: nat, bytes: nat)
    requires base % 4096 == 0 && size % 4096 == 0
    requires base <= dst && dst + bytes <= base + size
    ensures var w := WriteFor(aligned, dst, bytes);
            base <= w.addr && w.addr + w.bytes <= base + size
  {
    if bytes > 0 {
      WriteForBounds(aligned, dst, bytes);
      SamePagesStayIn(WriteFor(aligned, dst, bytes), Range(dst, bytes), base, size);
    }
  }
}

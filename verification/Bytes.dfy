/**
 Byte images of the tracked region, and the two ways the library changes one:
 writing given bytes at an offset, and copying a range from another image.

 Offsets are relative to the start of the tracked region, so the page cache and
 the backing file are two images of the same length.
 */
module Bytes {

  type Byte = x: int | 0 <= x < 256

  type Image = seq<Byte>

  /** A lean log entry: where a logged range starts and how long it is. */
  datatype Range = Range(addr: nat, bytes: nat) {

    predicate Has(i: int) {
      addr <= i < addr + bytes
    }

    predicate Within(n: nat) {
      addr + bytes <= n
    }
  }

  ghost predicate AllWithin(rs: seq<Range>, n: nat) {
    forall k :: 0 <= k < |rs| ==> rs[k].Within(n)
  }

  /** Some range of the list holds offset `i`. */
  ghost predicate Touched(rs: seq<Range>, i: int) {
    exists k :: 0 <= k < |rs| && rs[k].Has(i)
  }

  /** memcpy of `data` to offset `at`. */
  function Blit(img: Image, at: nat, data: seq<Byte>): (r: Image)
    requires at + |data| <= |img|
    ensures |r| == |img|
    ensures forall i :: 0 <= i < |img| ==> r[i] == if at <= i < at + |data| then data[i - at] else img[i]
  {
    img[..at] + data + img[at + |data|..]
  }

  /** Copies one range of `from` over the same range of `img`. */
  function CopyRange(img: Image, from: Image, r: Range): (res: Image)
    requires |from| == |img| && r.Within(|img|)
    ensures |res| == |img|
    ensures forall i :: 0 <= i < |img| ==> res[i] == if r.Has(i) then from[i] else img[i]
  {
    Blit(img, r.addr, from[r.addr..r.addr + r.bytes])
  }

  /** Copies the ranges one after the other. */
  function CopyRanges(img: Image, from: Image, rs: seq<Range>): (res: Image)
    requires |from| == |img| && AllWithin(rs, |img|)
    ensures |res| == |img|
    decreases |rs|
  {
    if rs == [] then img else CopyRanges(CopyRange(img, from, rs[0]), from, rs[1..])
  }

  lemma TouchedTail(rs: seq<Range>, i: int)
    requires rs != []
    ensures Touched(rs, i) <==> rs[0].Has(i) || Touched(rs[1..], i)
  {
    if Touched(rs, i) {
      var k :| 0 <= k < |rs| && rs[k].Has(i);
      if k > 0 { assert rs[1..][k - 1].Has(i); }
    }
    if Touched(rs[1..], i) {
      var k :| 0 <= k < |rs[1..]| && rs[1..][k].Has(i);
      assert rs[k + 1].Has(i);
    }
  }

  /** Whatever the order and the overlaps, copying ranges makes the touched bytes equal to the source. */
  lemma {:induction false} CopyRangesAt(img: Image, from: Image, rs: seq<Range>, i: nat)
    requires |from| == |img| && AllWithin(rs, |img|) && i < |img|
    ensures CopyRanges(img, from, rs)[i] == if Touched(rs, i) then from[i] else img[i]
    decreases |rs|
  {
    if rs != [] {
      CopyRangesAt(CopyRange(img, from, rs[0]), from, rs[1..], i);
      TouchedTail(rs, i);
    }
  }

  /** Copying one more range at the end. */
  lemma {:induction false} CopyRangesSnoc(img: Image, from: Image, rs: seq<Range>, r: Range)
    requires |from| == |img| && AllWithin(rs, |img|) && r.Within(|img|)
    ensures AllWithin(rs + [r], |img|)
    ensures CopyRanges(img, from, rs + [r]) == CopyRange(CopyRanges(img, from, rs), from, r)
    decreases |rs|
  {
    if rs == [] {
      assert rs + [r] == [r];
    } else {
      assert (rs + [r])[1..] == rs[1..] + [r];
      CopyRangesSnoc(CopyRange(img, from, rs[0]), from, rs[1..], r);
    }
  }

  lemma Regroup<T>(a: seq<T>, b: seq<T>, c: seq<T>)
    ensures a + (b + c) == (a + b) + c
  {
  }
}

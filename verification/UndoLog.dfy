/**
 The undo log as recovery uses it: a list of entries, oldest first, each holding
 the bytes a range had when it was logged, applied newest first.
 */
module UndoLog {
  import opened Bytes

  datatype Entry = Entry(addr: nat, content: seq<Byte>) {

    predicate Has(i: int) {
      addr <= i < addr + |content|
    }

    function Span(): Range {
      Range(addr, |content|)
    }
  }

  ghost predicate Fits(log: seq<Entry>, n: nat) {
    forall k :: 0 <= k < |log| ==> log[k].addr + |log[k].content| <= n
  }

  ghost predicate Covered(log: seq<Entry>, i: int) {
    exists k :: 0 <= k < |log| && log[k].Has(i)
  }

  /** The value the first entry that covers `i` holds for it. */
  ghost function Oldest(log: seq<Entry>, i: int): Byte
    requires Covered(log, i)
  {
    if log[0].Has(i) then log[0].content[i - log[0].addr]
    else (TailCovered(log, i); Oldest(log[1..], i))
  }

  lemma TailCovered(log: seq<Entry>, i: int)
    requires log != []
    ensures Covered(log, i) <==> log[0].Has(i) || Covered(log[1..], i)
  {
    if Covered(log, i) {
      var k :| 0 <= k < |log| && log[k].Has(i);
      if k > 0 { assert log[1..][k - 1].Has(i); }
    }
    if Covered(log[1..], i) {
      var k :| 0 <= k < |log[1..]| && log[1..][k].Has(i);
      assert log[k + 1].Has(i);
    }
  }

  /** Recovery's second loop: the last entry is written first. */
  function Replay(img: Image, log: seq<Entry>): (r: Image)
    requires Fits(log, |img|)
    ensures |r| == |img|
    decreases |log|
  {
    if log == [] then img
    else
      var last := log[|log| - 1];
      Replay(Blit(img, last.addr, last.content), log[..|log| - 1])
  }

  lemma CoveredConcat(a: seq<Entry>, b: seq<Entry>, i: int)
    ensures Covered(a + b, i) <==> Covered(a, i) || Covered(b, i)
  {
    if Covered(a + b, i) {
      var k :| 0 <= k < |a + b| && (a + b)[k].Has(i);
      if k < |a| { assert a[k].Has(i); } else { assert b[k - |a|].Has(i); }
    }
    if Covered(a, i) {
      var k :| 0 <= k < |a| && a[k].Has(i);
      assert (a + b)[k].Has(i);
    }
    if Covered(b, i) {
      var k :| 0 <= k < |b| && b[k].Has(i);
      assert (a + b)[|a| + k].Has(i);
    }
  }

  /** The oldest value in a concatenation comes from the older part if that covers the byte. */
  lemma {:induction false} OldestConcat(a: seq<Entry>, b: seq<Entry>, i: int)
    requires Covered(a + b, i)
    ensures Covered(a, i) || Covered(b, i)
    ensures Oldest(a + b, i) == if Covered(a, i) then Oldest(a, i) else Oldest(b, i)
  {
    CoveredConcat(a, b, i);
    if a == [] {
      assert a + b == b;
    } else {
      TailCovered(a, i);
      assert (a + b)[0] == a[0] && (a + b)[1..] == a[1..] + b;
      if !a[0].Has(i) {
        TailCovered(a + b, i);
        OldestConcat(a[1..], b, i);
      }
    }
  }

  /** Reverse replay is oldest-entry-wins, byte by byte. */
  lemma {:induction false} ReplayAt(img: Image, log: seq<Entry>, i: nat)
    requires Fits(log, |img|) && i < |img|
    ensures Replay(img, log)[i] == if Covered(log, i) then Oldest(log, i) else img[i]
    decreases |log|
  {
    if log != [] {
      var front, last := log[..|log| - 1], log[|log| - 1];
      assert log == front + [last];
      ReplayAt(Blit(img, last.addr, last.content), front, i);
      CoveredConcat(front, [last], i);
      assert Covered([last], i) <==> last.Has(i) by {
        if last.Has(i) { assert [last][0].Has(i); }
      }
      if Covered(log, i) {
        OldestConcat(front, [last], i);
      }
    }
  }

  /** Two images that agree wherever the log says nothing are replayed to the same image. */
  lemma {:induction false} ReplayDependsOnUncovered(a: Image, b: Image, log: seq<Entry>)
    requires |a| == |b| && Fits(log, |a|)
    requires forall i :: 0 <= i < |a| && !Covered(log, i) ==> a[i] == b[i]
    ensures Replay(a, log) == Replay(b, log)
  {
    forall i | 0 <= i < |a|
      ensures Replay(a, log)[i] == Replay(b, log)[i]
    {
      ReplayAt(a, log, i);
      ReplayAt(b, log, i);
    }
  }

  lemma {:induction false} FitsWithout(older: seq<Entry>, e: Entry, newer: seq<Entry>, n: nat)
    requires Fits(older + [e] + newer, n)
    ensures Fits(older + newer, n)
  {
    var with, without := older + [e] + newer, older + newer;
    forall k | 0 <= k < |without|
      ensures without[k].addr + |without[k].content| <= n
    {
      assert without[k] == with[if k < |older| then k else k + 1];
    }
  }

  lemma {:induction false} SuppressedAt(older: seq<Entry>, e: Entry, newer: seq<Entry>, i: int)
    requires e.Has(i) ==> Covered(older, i)
    ensures Covered(older + [e] + newer, i) <==> Covered(older + newer, i)
    ensures Covered(older + newer, i) ==> Oldest(older + [e] + newer, i) == Oldest(older + newer, i)
  {
    CoveredConcat(older + [e], newer, i);
    CoveredConcat(older, [e], i);
    CoveredConcat(older, newer, i);
    assert Covered([e], i) ==> e.Has(i);
    if Covered(older + newer, i) {
      OldestConcat(older + [e], newer, i);
      OldestConcat(older, newer, i);
      if Covered(older, i) {
        OldestConcat(older, [e], i);
      }
    }
  }

  /**
   An entry all of whose bytes are already covered by older entries can be left out.
   The back-to-back duplicate that log_range suppresses is the case where `older` ends
   with an entry for the same range.
   */
  lemma {:induction false} SuppressedEntryIsRedundant(img: Image, older: seq<Entry>, e: Entry, newer: seq<Entry>)
    requires Fits(older + [e] + newer, |img|)
    requires forall i :: e.Has(i) ==> Covered(older, i)
    ensures Fits(older + newer, |img|)
    ensures Replay(img, older + [e] + newer) == Replay(img, older + newer)
  {
    var with, without := older + [e] + newer, older + newer;
    FitsWithout(older, e, newer, |img|);
    forall i | 0 <= i < |img|
      ensures Replay(img, with)[i] == Replay(img, without)[i]
    {
      ReplayAt(img, with, i);
      ReplayAt(img, without, i);
      SuppressedAt(older, e, newer, i);
    }
  }

  /**
   An image some interrupted replay may leave behind: every byte is as it was
   or holds what some entry wrote there.
   */
  ghost predicate PartlyReplayed(img: Image, log: seq<Entry>, c: Image)
    requires Fits(log, |img|)
  {
    && |c| == |img|
    && forall i :: 0 <= i < |img| ==>
         c[i] == img[i] || exists k :: 0 <= k < |log| && log[k].Has(i) && c[i] == log[k].content[i - log[k].addr]
  }

  /** An attempt stays one when it writes a further entry. */
  lemma {:induction false} AttemptGoesOn(img: Image, log: seq<Entry>, c: Image, k: nat)
    requires Fits(log, |img|) && PartlyReplayed(img, log, c) && k < |log|
    ensures PartlyReplayed(img, log, Blit(c, log[k].addr, log[k].content))
  {
    var c' := Blit(c, log[k].addr, log[k].content);
    forall i | 0 <= i < |img|
      ensures c'[i] == img[i] || exists l :: 0 <= l < |log| && log[l].Has(i) && c'[i] == log[l].content[i - log[l].addr]
    {
      if log[k].Has(i) { assert c'[i] == log[k].content[i - log[k].addr]; } else { assert c'[i] == c[i]; }
    }
  }

  /** However many attempts at recovery are cut short, and wherever, the next complete one has the same result. */
  lemma {:induction false} InterruptedReplay(attempts: seq<Image>, log: seq<Entry>)
    requires |attempts| > 0 && Fits(log, |attempts[0]|)
    requires forall k :: 0 <= k < |attempts| ==> |attempts[k]| == |attempts[0]|
    requires forall k :: 0 < k < |attempts| ==> PartlyReplayed(attempts[k - 1], log, attempts[k])
    ensures Replay(attempts[|attempts| - 1], log) == Replay(attempts[0], log)
  {
    if |attempts| > 1 {
      var n := |attempts| - 1;
      InterruptedReplay(attempts[..n], log);
      assert PartlyReplayed(attempts[n - 1], log, attempts[n]);
      ReplayDependsOnUncovered(attempts[n - 1], attempts[n], log);
    }
  }

  /** Replaying a finished replay changes nothing. */
  lemma {:induction false} ReplayIdempotent(img: Image, log: seq<Entry>)
    requires Fits(log, |img|)
    ensures Replay(Replay(img, log), log) == Replay(img, log)
  {
    forall i | 0 <= i < |img| && !Covered(log, i)
      ensures Replay(img, log)[i] == img[i]
    {
      ReplayAt(img, log, i);
    }
    ReplayDependsOnUncovered(Replay(img, log), img, log);
  }

  /**
   recover() leaves the ACTIVE mark in place, so the same log is replayed again at the next
   start, over whatever was committed since. That is harmless exactly when the committed image
   still has, on every covered byte, the oldest value of the log.
   */
  lemma {:induction false} ReplayHarmlessIff(img: Image, log: seq<Entry>)
    requires Fits(log, |img|)
    ensures Replay(img, log) == img <==> forall i :: 0 <= i < |img| && Covered(log, i) ==> Oldest(log, i) == img[i]
  {
    forall i | 0 <= i < |img|
      ensures Replay(img, log)[i] == if Covered(log, i) then Oldest(log, i) else img[i]
    {
      ReplayAt(img, log, i);
    }
    if forall i :: 0 <= i < |img| && Covered(log, i) ==> Oldest(log, i) == img[i] {
      assert Replay(img, log) == img;
    }
  }
}

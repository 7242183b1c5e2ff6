/**
 What happens when a file with a backing copy is mapped again: the logs listed for it are
 searched for one marked ACTIVE, and that log is undone on the backing copy.
 */
module Recovery {
  import opened Bytes
  import opened UndoLog
  import opened LogFormat
  import L = Log

  /** A log named in the dependency file: its file may be gone. */
  datatype LogFile = Gone | Found(state: L.State) {
    predicate IsActive() {
      Found? && state == L.ACTIVE
    }
  }

  /** Stops at the first ACTIVE log. The result loses a log exactly when two of them are ACTIVE. */
  method NeedsRecovery(logs: seq<LogFile>) returns (result: seq<nat>)
    ensures |result| <= 1
    ensures result == [] <==> forall k :: 0 <= k < |logs| ==> !logs[k].IsActive()
    ensures result != [] ==>
              && result[0] < |logs| && logs[result[0]].IsActive()
              && forall k :: 0 <= k < result[0] ==> !logs[k].IsActive()
    ensures (forall k :: 0 <= k < |logs| && logs[k].IsActive() ==> k in result) <==>
            (forall j, k :: 0 <= j < k < |logs| ==> !(logs[j].IsActive() && logs[k].IsActive()))
  {
    result := [];
    for i := 0 to |logs|
      invariant result == []
      invariant forall k :: 0 <= k < i ==> !logs[k].IsActive()
    {
      if logs[i].Found? {
        if logs[i].state == L.ACTIVE {
          result := result + [i];
          return;
        }
      }
    }
  }

  /** The entries as offsets into a file mapped at `lo`. */
  function Rebase(log: seq<Entry>, lo: nat): (r: seq<Entry>)
    requires forall k :: 0 <= k < |log| ==> lo <= log[k].addr
  {
    seq(|log|, k requires 0 <= k < |log| => Entry(log[k].addr - lo, log[k].content))
  }

  lemma {:induction false} InFileBounds(log: seq<Entry>, lo: nat, len: nat)
    ensures forall k :: 0 <= k < |InFile(log, lo, len)| ==> lo <= InFile(log, lo, len)[k].addr < lo + len
    decreases |log|
  {
    if log != [] { InFileBounds(log[..|log| - 1], lo, len); }
  }

  /** What recovery undoes on a file of `len` bytes mapped at `lo`. */
  function Undoes(log: seq<Entry>, lo: nat, len: nat): seq<Entry> {
    InFileBounds(log, lo, len);
    Rebase(InFile(log, lo, len), lo)
  }

  lemma ReplayPeel(img: Image, log: seq<Entry>, k: nat)
    requires k < |log| && Fits(log, |img|)
    ensures Replay(img, log[..k + 1]) == Replay(Blit(img, log[k].addr, log[k].content), log[..k])
  {
    assert log[..k + 1][..k] == log[..k];
  }

  /** Recovery's second loop: the entries at the offsets are applied in reverse order, and stopping anywhere leaves an attempt. */
  method ApplyReversed(area: seq<Byte>, logEntries: seq<nat>, lo: nat, backing: array<Byte>, ghost found: seq<Entry>)
    requires ReadsAs(area, logEntries, found)
    requires forall k :: 0 <= k < |found| ==> lo <= found[k].addr
    requires Fits(Rebase(found, lo), backing.Length)
    modifies backing
    ensures backing[..] == Replay(old(backing[..]), Rebase(found, lo))
  {
    ghost var todo := Rebase(found, lo);
    var k := |logEntries|;
    assert todo[..k] == todo;
    while k > 0
      invariant 0 <= k <= |logEntries|
      invariant Replay(backing[..], todo[..k]) == Replay(old(backing[..]), todo)
      invariant PartlyReplayed(old(backing[..]), todo, backing[..])
    {
      k := k - 1;
      ReplayPeel(backing[..], todo, k);
      AttemptGoesOn(old(backing[..]), todo, backing[..], k);
      assert Readable(area, logEntries[k]) && EntryAt(area, logEntries[k]) == found[k];
      var entry := EntryAt(area, logEntries[k]);
      L.Poke(backing, entry.addr - lo, entry.content);
    }
  }

  /**
   Undoes one log on the backing copy of a file mapped at `lo`. `area` is the log's content and
   `logOffset` the length recovery finds in its header.
   */
  method Recover(area: seq<Byte>, logOffset: nat, lo: nat, backing: array<Byte>)
    requires Fits(Undoes(WalkFrom(area, 0, logOffset), lo, backing.Length), backing.Length)
    modifies backing
    ensures backing[..] == Replay(old(backing[..]), Undoes(WalkFrom(area, 0, logOffset), lo, backing.Length))
  {
    var logEntries, _ := Walk(area, logOffset, lo, backing.Length);
    InFileBounds(WalkFrom(area, 0, logOffset), lo, backing.Length);
    ApplyReversed(area, logEntries, lo, backing, InFile(WalkFrom(area, 0, logOffset), lo, backing.Length));
  }

  /** With a recorded length of zero, as snapshot() leaves it, recovery reads no entry and changes nothing. */
  lemma NothingToUndoAtZero(area: seq<Byte>, lo: nat, img: Image)
    ensures Undoes(WalkFrom(area, 0, 0), lo, |img|) == [] && Replay(img, Undoes(WalkFrom(area, 0, 0), lo, |img|)) == img
  {
  }
}

/**
 Which bytes snapshot() copies from the page cache to the backing file, and why the
 result is the same as copying every logged range exactly.
 */
module CopyPlan {
  import opened Bytes
  import opened WidenedWrite

  const U64: nat := 0x1_0000_0000_0000_0000

  /** size_t subtraction. */
  function Sub64(a: nat, b: nat): nat {
    (a - b) % U64
  }

  /** Where the tracked region and its backing copy are mapped, and which build this is. */
  datatype Mapping = Mapping(aligned: bool, startAddr: nat, pmBack: nat, size: nat) {

    ghost predicate Ok() {
      && startAddr + size < U64
      && pmBack % 4096 == 0 && size % 4096 == 0
    }

    /** The logged range lies in the tracked region. */
    predicate Tracks(e: Range) {
      startAddr <= e.addr && e.addr + e.bytes <= startAddr + size
    }

    predicate Contains(addr: nat) {
      startAddr <= addr < startAddr + size
    }

    /** The logged range as offsets into the region. */
    function Place(e: Range): Range
      requires Tracks(e)
    {
      Range(e.addr - startAddr, e.bytes)
    }

    /** The offsets actually written for the logged range: it may be widened. */
    function Copied(e: Range): (w: Range)
      requires Ok() && Tracks(e)
      ensures w.Within(size)
      ensures w.addr <= Place(e).addr && Place(e).addr + e.bytes <= w.addr + w.bytes
      ensures IsWriteFor(aligned, pmBack + Place(e).addr, e.bytes, Range(pmBack + w.addr, w.bytes))
    {
      var dst := pmBack + (e.addr - startAddr);
      WriteForBounds(aligned, dst, e.bytes);
      WriteForStaysInRegion(aligned, pmBack, size, dst, e.bytes);
      var w := WriteFor(aligned, dst, e.bytes);
      Range(w.addr - pmBack, w.bytes)
    }
  }

  ghost predicate AllTracked(m: Mapping, list: seq<Range>) {
    forall k :: 0 <= k < |list| ==> m.Tracks(list[k])
  }

  /** The test for entries inside the range snapshot() was called with, in wrapping arithmetic. */
  predicate Selected(e: Range, addr: nat, bytes: nat) {
    var start, end := addr, (addr + bytes) % U64;
    var diff := Sub64(end, start);
    Sub64(e.addr, start) <= diff
  }

  /** The wrapping test is the closed interval: an entry that starts just past the end is still taken. */
  lemma SelectedIff(e: Range, addr: nat, bytes: nat)
    requires e.addr < U64 && addr + bytes < U64
    ensures Selected(e, addr, bytes) <==> addr <= e.addr <= addr + bytes
  {
    assert Sub64((addr + bytes) % U64, addr) == bytes;
    if e.addr < addr { assert Sub64(e.addr, addr) == e.addr - addr + U64; }
  }

  /** snapshot() is called for the whole region, as msync and fsync on a mapping do; the region does not start at null. */
  ghost predicate WholeRegion(m: Mapping, addr: nat, bytes: nat) {
    0 < m.startAddr && addr <= m.startAddr && m.startAddr + m.size <= addr + bytes < U64
  }

  predicate Skipped(list: seq<Range>, i: nat)
    requires i < |list|
  {
    i > 0 && list[i].addr == list[i - 1].addr && list[i].bytes == list[i - 1].bytes
  }

  /** The writes the copy loop issues from index `i` on. */
  function WritesFrom(m: Mapping, list: seq<Range>, i: nat, addr: nat, bytes: nat): (ws: seq<Range>)
    requires m.Ok() && AllTracked(m, list) && i <= |list|
    ensures AllWithin(ws, m.size)
    decreases |list| - i
  {
    if i == |list| then []
    else if Selected(list[i], addr, bytes) && !Skipped(list, i) then
      [m.Copied(list[i])] + WritesFrom(m, list, i + 1, addr, bytes)
    else if list[i].addr == 0 then []
    else WritesFrom(m, list, i + 1, addr, bytes)
  }

  /** The entry gets a write of its own: the call selects it and it is not the same as the one before. */
  predicate Written(list: seq<Range>, k: nat, addr: nat, bytes: nat)
    requires k < |list|
  {
    Selected(list[k], addr, bytes) && (k == 0 || list[k] != list[k - 1])
  }

  function WrittenIn(list: seq<Range>, n: nat, addr: nat, bytes: nat): nat
    requires n <= |list|
  {
    if n == 0 then 0 else WrittenIn(list, n - 1, addr, bytes) + if Written(list, n - 1, addr, bytes) then 1 else 0
  }

  lemma WritesStep(m: Mapping, list: seq<Range>, i: nat, addr: nat, bytes: nat)
    requires m.Ok() && AllTracked(m, list) && 0 < m.startAddr && i < |list|
    ensures WritesFrom(m, list, i, addr, bytes) ==
            (if Written(list, i, addr, bytes) then [m.Copied(list[i])] else []) + WritesFrom(m, list, i + 1, addr, bytes)
  {
  }

  /** As many writes come before those of the entries from `k` on as there are such entries before `k`. */
  lemma {:induction false} WritesBefore(m: Mapping, list: seq<Range>, addr: nat, bytes: nat, k: nat) returns (front: seq<Range>)
    requires m.Ok() && AllTracked(m, list) && 0 < m.startAddr && k <= |list|
    ensures WritesFrom(m, list, 0, addr, bytes) == front + WritesFrom(m, list, k, addr, bytes) && |front| == WrittenIn(list, k, addr, bytes)
    decreases k
  {
    if k == 0 {
      front := [];
    } else {
      var before := WritesBefore(m, list, addr, bytes, k - 1);
      var step := if Written(list, k - 1, addr, bytes) then [m.Copied(list[k - 1])] else [];
      WritesStep(m, list, k - 1, addr, bytes);
      Regroup(before, step, WritesFrom(m, list, k, addr, bytes));
      front := before + step;
    }
  }

  /** The writes are those of these entries, each once and in their order. */
  lemma {:induction false} WritesInOrder(m: Mapping, list: seq<Range>, addr: nat, bytes: nat)
    requires m.Ok() && AllTracked(m, list) && 0 < m.startAddr
    ensures var writes := WritesFrom(m, list, 0, addr, bytes);
            && |writes| == WrittenIn(list, |list|, addr, bytes)
            && forall k :: 0 <= k < |list| && Written(list, k, addr, bytes) ==>
                 WrittenIn(list, k, addr, bytes) < |writes| && writes[WrittenIn(list, k, addr, bytes)] == m.Copied(list[k])
  {
    var all := WritesBefore(m, list, addr, bytes, |list|);
    forall k | 0 <= k < |list| && Written(list, k, addr, bytes)
      ensures var writes := WritesFrom(m, list, 0, addr, bytes);
              WrittenIn(list, k, addr, bytes) < |writes| && writes[WrittenIn(list, k, addr, bytes)] == m.Copied(list[k])
    {
      var front := WritesBefore(m, list, addr, bytes, k);
      WritesStep(m, list, k, addr, bytes);
    }
  }

  ghost predicate SameElements(a: seq<Range>, b: seq<Range>) {
    multiset(a) == multiset(b)
  }

  ghost predicate SortedByAddr(list: seq<Range>) {
    forall j, k :: 0 <= j < k < |list| ==> list[j].addr <= list[k].addr
  }

  /** The order in which the loop meets the entries: the list itself, or sorted when it is long. */
  ghost predicate LoopOrder(entries: seq<Range>, list: seq<Range>) {
    && SameElements(entries, list)
    && if |entries| > 10 then SortedByAddr(list) else list == entries
  }

  /** `writes` is a sequence of writes snapshot() may issue for the entries of one log. */
  ghost predicate IsCopyPlan(m: Mapping, entries: seq<Range>, addr: nat, bytes: nat, writes: seq<Range>)
    requires m.Ok() && AllTracked(m, entries)
  {
    exists list: seq<Range> :: LoopOrder(entries, list) && AllTracked(m, list) && writes == WritesFrom(m, list, 0, addr, bytes)
  }

  lemma SameElementsTracked(m: Mapping, a: seq<Range>, b: seq<Range>)
    requires SameElements(a, b) && AllTracked(m, a)
    ensures AllTracked(m, b)
  {
    forall k | 0 <= k < |b|
      ensures m.Tracks(b[k])
    {
      assert b[k] in multiset(a);
    }
  }

  /** Every write is the widened form of some selected entry. */
  lemma {:induction false} WritesComeFromEntries(m: Mapping, list: seq<Range>, i: nat, addr: nat, bytes: nat, w: Range)
    requires m.Ok() && AllTracked(m, list) && i <= |list|
    requires w in WritesFrom(m, list, i, addr, bytes)
    ensures exists k :: 0 <= k < |list| && Selected(list[k], addr, bytes) && w == m.Copied(list[k])
    decreases |list| - i
  {
    if !(Selected(list[i], addr, bytes) && w == m.Copied(list[i])) {
      WritesComeFromEntries(m, list, i + 1, addr, bytes, w);
    }
  }

  /** No selected entry is dropped, duplicates being written once. */
  lemma {:induction false} EntriesAreWritten(m: Mapping, list: seq<Range>, i: nat, addr: nat, bytes: nat, k: nat)
    requires m.Ok() && AllTracked(m, list) && 0 < m.startAddr
    requires i <= k < |list| && !Skipped(list, k) && Selected(list[k], addr, bytes)
    ensures m.Copied(list[k]) in WritesFrom(m, list, i, addr, bytes)
    decreases k - i
  {
    if i < k {
      EntriesAreWritten(m, list, i + 1, addr, bytes, k);
    }
  }

  lemma {:induction false} FirstOfItsKind(list: seq<Range>, k: nat) returns (j: nat)
    requires k < |list|
    ensures j <= k && list[j] == list[k] && !Skipped(list, j)
  {
    if Skipped(list, k) {
      j := FirstOfItsKind(list, k - 1);
    } else {
      j := k;
    }
  }

  /** The writes of a plan are exactly the widened entries that the range of the call selects, in some order. */
  lemma {:induction false} PlanCoversEntries(m: Mapping, entries: seq<Range>, addr: nat, bytes: nat, writes: seq<Range>)
    requires m.Ok() && AllTracked(m, entries) && 0 < m.startAddr
    requires IsCopyPlan(m, entries, addr, bytes, writes)
    ensures AllWithin(writes, m.size)
    ensures forall k :: 0 <= k < |entries| && Selected(entries[k], addr, bytes) ==> m.Copied(entries[k]) in writes
    ensures forall w :: w in writes ==> exists k :: 0 <= k < |entries| && Selected(entries[k], addr, bytes) && w == m.Copied(entries[k])
  {
    var list :| LoopOrder(entries, list) && AllTracked(m, list) && writes == WritesFrom(m, list, 0, addr, bytes);
    forall k | 0 <= k < |entries| && Selected(entries[k], addr, bytes)
      ensures m.Copied(entries[k]) in writes
    {
      assert entries[k] in multiset(list);
      var k' :| 0 <= k' < |list| && list[k'] == entries[k];
      var j := FirstOfItsKind(list, k');
      EntriesAreWritten(m, list, 0, addr, bytes, j);
    }
    forall w | w in writes
      ensures exists k :: 0 <= k < |entries| && Selected(entries[k], addr, bytes) && w == m.Copied(entries[k])
    {
      WritesComeFromEntries(m, list, 0, addr, bytes, w);
      var j :| 0 <= j < |list| && Selected(list[j], addr, bytes) && w == m.Copied(list[j]);
      assert list[j] in multiset(entries);
    }
  }

  /** A call for the whole region selects every tracked entry. */
  lemma WholeRegionSelects(m: Mapping, e: Range, addr: nat, bytes: nat)
    requires m.Ok() && m.Tracks(e) && WholeRegion(m, addr, bytes)
    ensures Selected(e, addr, bytes)
  {
    SelectedIff(e, addr, bytes);
  }

  /** The entries a call selects, and those it does not, in logged order. */
  function Chosen(entries: seq<Range>, addr: nat, bytes: nat, yes: bool): seq<Range> {
    if entries == [] then []
    else
      var last := entries[|entries| - 1];
      Chosen(entries[..|entries| - 1], addr, bytes, yes) + if Selected(last, addr, bytes) == yes then [last] else []
  }

  lemma {:induction false} ChosenIff(entries: seq<Range>, addr: nat, bytes: nat, yes: bool, e: Range)
    ensures e in Chosen(entries, addr, bytes, yes) <==> e in entries && Selected(e, addr, bytes) == yes
    decreases |entries|
  {
    if entries != [] {
      var n := |entries| - 1;
      ChosenIff(entries[..n], addr, bytes, yes, e);
      assert entries == entries[..n] + [entries[n]];
    }
  }

  lemma {:induction false} ChosenTracked(m: Mapping, entries: seq<Range>, addr: nat, bytes: nat, yes: bool)
    requires AllTracked(m, entries)
    ensures AllTracked(m, Chosen(entries, addr, bytes, yes))
  {
    var chosen := Chosen(entries, addr, bytes, yes);
    forall k | 0 <= k < |chosen|
      ensures m.Tracks(chosen[k])
    {
      ChosenIff(entries, addr, bytes, yes, chosen[k]);
    }
  }

  /** The logged ranges themselves, as offsets, in the order they were logged. */
  function Exact(m: Mapping, entries: seq<Range>): (r: seq<Range>)
    requires AllTracked(m, entries)
    ensures AllWithin(r, m.size)
  {
    seq(|entries|, k requires 0 <= k < |entries| => m.Place(entries[k]))
  }

  /** Cache and backing agree on every byte that no entry covers. */
  ghost predicate Parity(m: Mapping, cache: Image, backing: Image, entries: seq<Range>)
    requires AllTracked(m, entries) && |cache| == |backing|
  {
    forall i :: 0 <= i < |cache| && !Touched(Exact(m, entries), i) ==> cache[i] == backing[i]
  }

  /** A byte is in a range of the list exactly when some entry holds it. */
  lemma TouchedExact(m: Mapping, entries: seq<Range>, i: int)
    requires AllTracked(m, entries)
    ensures Touched(Exact(m, entries), i) <==> exists e :: e in entries && m.Tracks(e) && m.Place(e).Has(i)
  {
    if Touched(Exact(m, entries), i) {
      var k :| 0 <= k < |Exact(m, entries)| && Exact(m, entries)[k].Has(i);
      assert entries[k] in entries;
    }
    if e :| e in entries && m.Tracks(e) && m.Place(e).Has(i) {
      var k :| 0 <= k < |entries| && entries[k] == e;
      assert Exact(m, entries)[k].Has(i);
    }
  }

  lemma PlanTouchesEntries(m: Mapping, entries: seq<Range>, addr: nat, bytes: nat, writes: seq<Range>, e: Range, i: nat)
    requires m.Ok() && AllTracked(m, entries) && 0 < m.startAddr
    requires IsCopyPlan(m, entries, addr, bytes, writes)
    requires e in entries && Selected(e, addr, bytes) && m.Tracks(e) && m.Place(e).Has(i)
    ensures Touched(writes, i)
  {
    PlanCoversEntries(m, entries, addr, bytes, writes);
    var w := m.Copied(e);
    assert w.Has(i);
    var j :| 0 <= j < |writes| && writes[j] == w;
    assert writes[j].Has(i);
  }

  lemma {:induction false} ChosenAreTouched(m: Mapping, entries: seq<Range>, addr: nat, bytes: nat, writes: seq<Range>, i: nat)
    requires m.Ok() && AllTracked(m, entries) && 0 < m.startAddr && IsCopyPlan(m, entries, addr, bytes, writes)
    ensures AllTracked(m, Chosen(entries, addr, bytes, true))
    ensures Touched(Exact(m, Chosen(entries, addr, bytes, true)), i) ==> Touched(writes, i)
  {
    var chosen := Chosen(entries, addr, bytes, true);
    ChosenTracked(m, entries, addr, bytes, true);
    if Touched(Exact(m, chosen), i) {
      TouchedExact(m, chosen, i);
      var e :| e in chosen && m.Tracks(e) && m.Place(e).Has(i);
      ChosenIff(entries, addr, bytes, true, e);
      PlanTouchesEntries(m, entries, addr, bytes, writes, e, i);
    }
  }

  /**
   Sorting by address in any way, skipping adjacent duplicates and widening the writes gives the same
   backing image as copying each selected range exactly, in logged order, if and only if cache and backing
   agree on the bytes that only the widening takes along.
   */
  lemma {:induction false} FastCopyIff(m: Mapping, entries: seq<Range>, addr: nat, bytes: nat, writes: seq<Range>,
                                       cache: Image, backing: Image)
    requires m.Ok() && AllTracked(m, entries) && 0 < m.startAddr
    requires IsCopyPlan(m, entries, addr, bytes, writes) && |cache| == |backing| == m.size
    ensures AllWithin(writes, m.size) && AllTracked(m, Chosen(entries, addr, bytes, true))
    ensures var exact := Exact(m, Chosen(entries, addr, bytes, true));
            CopyRanges(backing, cache, writes) == CopyRanges(backing, cache, exact) <==>
            forall i :: 0 <= i < m.size && Touched(writes, i) && !Touched(exact, i) ==> cache[i] == backing[i]
  {
    PlanCoversEntries(m, entries, addr, bytes, writes);
    ChosenTracked(m, entries, addr, bytes, true);
    var exact := Exact(m, Chosen(entries, addr, bytes, true));
    var fast, simple := CopyRanges(backing, cache, writes), CopyRanges(backing, cache, exact);
    forall i | 0 <= i < m.size
      ensures fast[i] == (if Touched(writes, i) then cache[i] else backing[i])
      ensures simple[i] == (if Touched(exact, i) then cache[i] else backing[i])
      ensures Touched(exact, i) ==> Touched(writes, i)
    {
      CopyRangesAt(backing, cache, writes, i);
      CopyRangesAt(backing, cache, exact, i);
      ChosenAreTouched(m, entries, addr, bytes, writes, i);
    }
  }

  /** So it does whenever cache and backing agree outside the selected ranges. */
  lemma {:induction false} FastCopyIsSimpleCopy(m: Mapping, entries: seq<Range>, addr: nat, bytes: nat, writes: seq<Range>,
                                                cache: Image, backing: Image)
    requires m.Ok() && AllTracked(m, entries) && 0 < m.startAddr
    requires IsCopyPlan(m, entries, addr, bytes, writes)
    requires AllTracked(m, Chosen(entries, addr, bytes, true))
    requires |cache| == |backing| == m.size && Parity(m, cache, backing, Chosen(entries, addr, bytes, true))
    ensures AllWithin(writes, m.size)
    ensures CopyRanges(backing, cache, writes) == CopyRanges(backing, cache, Exact(m, Chosen(entries, addr, bytes, true)))
  {
    FastCopyIff(m, entries, addr, bytes, writes, cache, backing);
  }

  /** A copy for one of the entries that the call selects takes byte `i` along. */
  ghost predicate Reached(m: Mapping, entries: seq<Range>, call: Range, i: int)
    requires m.Ok()
  {
    exists e :: e in entries && m.Tracks(e) && Selected(e, call.addr, call.bytes) && m.Copied(e).Has(i)
  }

  /** Whatever the order of the copies, they touch just what the entries reach. */
  lemma {:induction false} PlanReaches(m: Mapping, entries: seq<Range>, call: Range, plan: seq<Range>, i: int)
    requires m.Ok() && 0 < m.startAddr && AllTracked(m, entries) && IsCopyPlan(m, entries, call.addr, call.bytes, plan)
    ensures Touched(plan, i) <==> Reached(m, entries, call, i)
  {
    PlanCoversEntries(m, entries, call.addr, call.bytes, plan);
    if Touched(plan, i) {
      var w :| w in plan && w.Has(i);
      var k :| 0 <= k < |entries| && Selected(entries[k], call.addr, call.bytes) && w == m.Copied(entries[k]);
      assert entries[k] in entries;
    }
    if Reached(m, entries, call, i) {
      var e :| e in entries && m.Tracks(e) && Selected(e, call.addr, call.bytes) && m.Copied(e).Has(i);
      var k :| 0 <= k < |entries| && entries[k] == e;
      assert m.Copied(entries[k]) in plan;
    }
  }
}

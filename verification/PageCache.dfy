/**
 The user-space page cache: a window of protected pages in front of a block device. Touching a
 page that is not mapped faults; the handler makes room if it has to, reads the page and unprotects it.

 What the program sees must be a flat memory, whatever is mapped, evicted, flushed or resized.
 */
module PageCache {
  import opened Bytes
  import opened BlockDevice

  const MAX_MAPPED_PG_LOOKUP: nat := 0x100

  /** An order in which a hash map with these keys may be iterated. */
  ghost predicate Enumerates(order: seq<nat>, keys: set<nat>) {
    && (forall k :: 0 <= k < |order| ==> order[k] in keys)
    && (forall p :: p in keys ==> p in order)
    && (forall j, k :: 0 <= j < k < |order| ==> order[j] != order[k])
  }

  /** Iteration over an unordered map: any order. */
  method Iterate(keys: set<nat>) returns (order: seq<nat>)
    ensures Enumerates(order, keys)
  {
    order := [];
    var rest := keys;
    while rest != {}
      invariant rest <= keys && Enumerates(order, keys - rest)
      decreases rest
    {
      var p :| p in rest;
      order := order + [p];
      rest := rest - {p};
    }
    assert keys - rest == keys;
  }

  /** The pages the victim search looks at: it stops after the counter has passed the limit. */
  function Scanned(order: seq<nat>): seq<nat> {
    order[..if |order| < MAX_MAPPED_PG_LOOKUP + 2 then |order| else MAX_MAPPED_PG_LOOKUP + 2]
  }

  /** The last scanned page outside the hot distribution, or any page of the order if all scanned ones are hot. */
  ghost predicate IsVictim(order: seq<nat>, dist: set<nat>, target: nat) {
    && target in order
    && ((exists p :: p in Scanned(order) && p !in dist) ==>
          exists k :: 0 <= k < |Scanned(order)| && target == Scanned(order)[k] && target !in dist &&
                      forall j :: k < j < |Scanned(order)| ==> Scanned(order)[j] in dist)
  }

  /** The hot set grows one eviction older; at its maximal age it is sampled again, and that age may be multiplied. */
  ghost predicate Aged(age: nat, max: nat, dist: set<nat>, age': nat, max': nat, dist': set<nat>) {
    if age == max then age' == 0 && exists f: nat :: f >= 1 && max' == max * f
    else age' == age + 1 && max' == max && dist' == dist
  }

  /** The page to go, for some order in which the mapped pages may be iterated. */
  ghost predicate Picked(mapped: set<nat>, dist: set<nat>, victim: nat) {
    exists order: seq<nat> :: Enumerates(order, mapped) && IsVictim(order, dist, victim)
  }

  /** What a fault on `page` makes of the mapped pages: it joins them, and only when there is no room one goes. */
  ghost predicate Faulted(was: set<nat>, now: set<nat>, page: nat, full: bool, dist: set<nat>) {
    if full then exists victim :: Picked(was, dist, victim) && now == was - {victim} + {page} else now == was + {page}
  }

  /** Whether a page has gone to make room for it. */
  ghost predicate Roomy(was: set<nat>, now: set<nat>, full: bool, dist: set<nat>) {
    if full then exists victim :: Picked(was, dist, victim) && now == was - {victim} else now == was
  }

  lemma RoomyThenFaulted(was: set<nat>, room: set<nat>, page: nat, full: bool, dist: set<nat>)
    requires Roomy(was, room, full, dist)
    ensures Faulted(was, room + {page}, page, full, dist)
  {
  }

  /**
   Chooses the page to evict: the last scanned page outside the hot distribution, or a random
   mapped page if all scanned ones are hot.
   */
  method ChooseVictim(order: seq<nat>, dist: set<nat>) returns (target: nat)
    requires order != []
    ensures IsVictim(order, dist, target)
  {
    var targetPageIdx: int := -1;
    var pgLookupCnt := 0;
    var i := 0;
    while i < |order|
      invariant 0 <= i <= |order| && i < MAX_MAPPED_PG_LOOKUP + 2 && pgLookupCnt == i
      invariant targetPageIdx == -1 ==> forall j :: 0 <= j < i ==> order[j] in dist
      invariant targetPageIdx != -1 ==>
                  exists k :: 0 <= k < i && targetPageIdx == order[k] && order[k] !in dist &&
                              forall j :: k < j < i ==> order[j] in dist
    {
      if order[i] !in dist {
        targetPageIdx := order[i];
      }
      pgLookupCnt := pgLookupCnt + 1;
      i := i + 1;
      if pgLookupCnt - 1 > MAX_MAPPED_PG_LOOKUP {
        break;
      }
    }
    assert i == |Scanned(order)|;
    if targetPageIdx == -1 {
      var r :| 0 <= r < |order|;
      targetPageIdx := order[r];
    }
    target := targetPageIdx;
  }

  function PageOf(start: nat, addr: nat): nat
    requires start <= addr
  {
    (addr - start) / 4096
  }

  /** Memory where a page is mapped, the device elsewhere. */
  ghost function ViewOf(mapped: set<nat>, shm: seq<Page>, disk: seq<Page>): (v: seq<Page>)
    requires |shm| == |disk|
    ensures |v| == |shm|
    ensures forall p :: 0 <= p < |shm| ==> v[p] == if p in mapped then shm[p] else disk[p]
  {
    seq(|shm|, p requires 0 <= p < |shm| => if p in mapped then shm[p] else disk[p])
  }

  lemma EvictionIsInvisible(mapped: set<nat>, shm: seq<Page>, disk: seq<Page>, victim: nat)
    requires |shm| == |disk| && victim in mapped && victim < |shm|
    ensures ViewOf(mapped - {victim}, shm, disk[victim := shm[victim]]) == ViewOf(mapped, shm, disk)
  {
  }

  class Controller {
    // Sizes and bookkeeping.
    var maxActivePgCnt: nat
    var shmPgCnt: nat
    var usedPages: nat
    var mappedPages: set<nat>
    var distAge: nat
    var maxDistAge: nat
    var dist: set<nat>

    // The window: where it is, its contents and which pages may be touched.
    var shmStart: nat
    var shm: seq<Page>
    var accessible: seq<bool>

    // The range the fault handler was told to watch.
    var watchStart: nat
    var watchLen: nat

    var ubd: Device

    ghost predicate Shaped()
      reads this
    {
      && shmStart % 4096 == 0 && watchStart == shmStart && watchLen == shmPgCnt * 4096
      && |shm| == |accessible| == |ubd.medium| == shmPgCnt && ubd.Valid()
      && (forall p :: p in mappedPages ==> p < shmPgCnt)
    }

    /** Accounting: the counter is the number of mapped pages, which are the accessible ones, and within the limit. */
    ghost predicate Valid()
      reads this
    {
      && Shaped()
      && 1 <= maxActivePgCnt && usedPages == |mappedPages| <= maxActivePgCnt
      && (forall p :: 0 <= p < shmPgCnt ==> (accessible[p] <==> p in mappedPages))
    }

    /** What the program sees. */
    ghost function View(): (v: seq<Page>)
      reads this
      requires Shaped()
      ensures |v| == shmPgCnt
    {
      ViewOf(mappedPages, shm, Effective(ubd))
    }

    /** The sampled hot pages are refreshed every so often; the clock decides how often. */
    method AgeDistribution()
      modifies `distAge, `maxDistAge, `dist
      ensures Aged(old(distAge), old(maxDistAge), old(dist), distAge, maxDistAge, dist)
    {
      if distAge == maxDistAge {
        dist := *;
        var ns: nat := *;
        ghost var f: nat := 1;
        if ns / 1024 > 1 {
          maxDistAge := maxDistAge * (ns / 1024);
          f := ns / 1024;
        }
        distAge := 0;
        assert maxDistAge == old(maxDistAge) * f;
      } else {
        distAge := distAge + 1;
      }
    }

    method PickVictim() returns (victim: nat)
      requires mappedPages != {}
      modifies `distAge, `maxDistAge, `dist
      ensures Aged(old(distAge), old(maxDistAge), old(dist), distAge, maxDistAge, dist) && Picked(mappedPages, dist, victim)
    {
      AgeDistribution();
      var order := Iterate(mappedPages);
      assert order != [] by {
        var p :| p in mappedPages;
        assert p in order;
      }
      victim := ChooseVictim(order, dist);
    }

    /** Writes one mapped page back, protects it and forgets it. */
    method EvictAPage() returns (victim: nat)
      requires Valid() && mappedPages != {}
      modifies `ubd, `accessible, `mappedPages, `usedPages, `distAge, `maxDistAge, `dist
      ensures Valid() && View() == old(View())
      ensures Picked(old(mappedPages), dist, victim) && victim in old(mappedPages) && mappedPages == old(mappedPages) - {victim}
      ensures usedPages == old(usedPages) - 1 && Aged(old(distAge), old(maxDistAge), old(dist), distAge, maxDistAge, dist)
      ensures forall k :: 1 <= k < |ubd.queue| ==> !ubd.queue[k].isCompleted
    {
      victim := PickVictim();
      WriteOut(victim);
      EvictionIsInvisible(mappedPages, shm, old(Effective(ubd)), victim);
      Forget(victim);
    }

    /** The write-back of a page that goes, and the clean-up of the completion queue. */
    method WriteOut(victim: nat)
      requires Shaped() && victim < shmPgCnt
      modifies `ubd
      ensures Shaped() && Effective(ubd) == old(Effective(ubd))[victim := shm[victim]]
      ensures forall k :: 1 <= k < |ubd.queue| ==> !ubd.queue[k].isCompleted
    {
      var d := Write(ubd, victim, shm[victim]);
      d := Reap(d);
      ubd := d;
    }

    method Forget(victim: nat)
      requires Valid() && victim in mappedPages
      modifies `accessible, `mappedPages, `usedPages
      ensures Valid() && mappedPages == old(mappedPages) - {victim} && usedPages == old(usedPages) - 1
    {
      accessible := accessible[victim := false];
      mappedPages := mappedPages - {victim};
      usedPages := usedPages - 1;
    }

    /** Reads the page that holds `pfAddr` into a buffer and notes it as mapped. */
    method MapPageFromBlkdev(pfAddr: nat) returns (buf: Page)
      requires Shaped() && shmStart <= pfAddr < shmStart + shmPgCnt * 4096
      modifies `ubd, `mappedPages
      ensures Shaped() && Effective(ubd) == old(Effective(ubd))
      ensures buf == Effective(ubd)[PageOf(shmStart, pfAddr)]
      ensures mappedPages == old(mappedPages) + {PageOf(shmStart, pfAddr)}
    {
      var aligned := pfAddr / 4096 * 4096;
      AlignedPage(shmStart, shmPgCnt, pfAddr);
      var addrOff := aligned - shmStart;
      var startLba := addrOff / 4096 * 8;
      var d, b := ReadBlocking(ubd, startLba / 8);
      ubd, buf := d, b;
      mappedPages := mappedPages + {PageOf(shmStart, aligned)};
    }

    /** When the cache is full a page has to go. */
    method MakeRoom()
      requires Valid()
      modifies `ubd, `accessible, `mappedPages, `usedPages, `distAge, `maxDistAge, `dist
      ensures Valid() && View() == old(View())
      ensures usedPages < maxActivePgCnt
      ensures Roomy(old(mappedPages), mappedPages, old(usedPages) == maxActivePgCnt, dist)
      ensures mappedPages <= old(mappedPages)
    {
      if usedPages == maxActivePgCnt {
        var victim := EvictAPage();
      }
    }

    /** The callback of the fault handler. The assertion it starts with always holds. */
    method NotifyPageFault(addr: nat) returns (buf: Page)
      requires Valid() && shmStart <= addr < shmStart + shmPgCnt * 4096
      requires PageOf(shmStart, addr) !in mappedPages
      modifies `ubd, `accessible, `mappedPages, `usedPages, `distAge, `maxDistAge, `dist
      ensures Shaped() && usedPages == |mappedPages| <= maxActivePgCnt
      ensures PageOf(shmStart, addr) in mappedPages
      ensures Faulted(old(mappedPages), mappedPages, PageOf(shmStart, addr), old(usedPages) == maxActivePgCnt, dist)
      ensures forall p :: 0 <= p < shmPgCnt ==> (accessible[p] <==> p in mappedPages && p != PageOf(shmStart, addr))
      ensures buf == old(View())[PageOf(shmStart, addr)]
      ensures forall p :: 0 <= p < shmPgCnt && p != PageOf(shmStart, addr) ==> View()[p] == old(View())[p]
    {
      assert usedPages <= maxActivePgCnt;
      MakeRoom();
      RoomyThenFaulted(old(mappedPages), mappedPages, PageOf(shmStart, addr), old(usedPages) == maxActivePgCnt, dist);
      buf := BringIn(addr);
    }

    /** The page is counted and read, and still protected. */
    method BringIn(addr: nat) returns (buf: Page)
      requires Valid() && usedPages < maxActivePgCnt && shmStart <= addr < shmStart + shmPgCnt * 4096
      requires PageOf(shmStart, addr) !in mappedPages
      modifies `ubd, `mappedPages, `usedPages
      ensures Shaped() && usedPages == |mappedPages| <= maxActivePgCnt && mappedPages == old(mappedPages) + {PageOf(shmStart, addr)}
      ensures buf == old(View())[PageOf(shmStart, addr)]
      ensures forall p :: 0 <= p < shmPgCnt && p != PageOf(shmStart, addr) ==> View()[p] == old(View())[p]
    {
      AlignedPage(shmStart, shmPgCnt, addr);
      usedPages := usedPages + 1;
      ghost var before, mapped := View(), mappedPages;
      buf := MapPageFromBlkdev(addr);
      assert before == ViewOf(mapped, shm, Effective(ubd));
    }

    /** The page is made accessible and filled with what was read. */
    method Unprotect(idx: nat, src: Page, ghost before: seq<Page>)
      requires Shaped() && idx < shmPgCnt && idx in mappedPages && 1 <= maxActivePgCnt && usedPages == |mappedPages| <= maxActivePgCnt
      requires forall p :: 0 <= p < shmPgCnt ==> (accessible[p] <==> p in mappedPages && p != idx)
      requires |before| == shmPgCnt && src == before[idx] && forall p :: 0 <= p < shmPgCnt && p != idx ==> View()[p] == before[p]
      modifies `accessible, `shm
      ensures Valid() && View() == before && accessible[idx]
    {
      accessible := accessible[idx := true];
      shm := shm[idx := src];
    }

    /** The signal handler: false when the fault is not ours, and then the process ends. */
    method Handler(place: nat) returns (handled: bool)
      requires Valid()
      requires shmStart <= place < shmStart + shmPgCnt * 4096 ==> !accessible[PageOf(shmStart, place)]
      modifies this
      ensures handled <==> old(shmStart) <= place < old(shmStart) + old(shmPgCnt) * 4096
      ensures Valid() && View() == old(View())
      ensures shmStart == old(shmStart) && shmPgCnt == old(shmPgCnt) && maxActivePgCnt == old(maxActivePgCnt)
      ensures handled ==> accessible[PageOf(shmStart, place)]
      ensures if handled then Faulted(old(mappedPages), mappedPages, PageOf(shmStart, place), old(usedPages) == maxActivePgCnt, dist) else unchanged(this)
    {
      if watchStart <= place < watchStart + watchLen {
        var pageAligned := place / 4096 * 4096;
        AlignedPage(shmStart, shmPgCnt, place);
        var idx := PageOf(shmStart, pageAligned);
        var src := NotifyPageFault(pageAligned);
        Unprotect(idx, src, old(View()));
        handled := true;
      } else {
        handled := false;
      }
    }

    /** Drops the window and maps a fresh, protected one. It forgets to forget the mapped pages. */
    method Init(maxActivePgCnt: nat, shmPgCnt: nat)
      requires shmStart % 4096 == 0 && ubd.Valid() && |ubd.medium| == shmPgCnt
      modifies this
      ensures this.maxActivePgCnt == maxActivePgCnt && this.shmPgCnt == shmPgCnt
      ensures mappedPages == old(mappedPages) && ubd == old(ubd) && shmStart == old(shmStart) && usedPages == 0
      ensures Shaped() <==> forall p :: p in mappedPages ==> p < shmPgCnt
      ensures Valid() <==> old(mappedPages) == {} && maxActivePgCnt >= 1
      ensures |accessible| == shmPgCnt && forall p :: 0 <= p < shmPgCnt ==> !accessible[p]
    {
      this.maxActivePgCnt := maxActivePgCnt;
      this.shmPgCnt := shmPgCnt;
      usedPages := 0;
      shm := seq(shmPgCnt, _ => ZEROS);
      accessible := seq(shmPgCnt, _ => false);
      watchStart, watchLen := shmStart, shmPgCnt * 4096;
      if mappedPages != {} {
        ghost var p :| p in mappedPages;
        assert p < shmPgCnt ==> !accessible[p];
      }
    }

    /** Writes every mapped page back and starts over with nothing mapped. */
    method FlushCache()
      requires Shaped() && shmPgCnt > 0
      modifies this
      ensures Shaped() && View() == old(View()) && mappedPages == {}
      ensures Effective(ubd) == old(View()) && forall p :: p in old(mappedPages) ==> ubd.medium[p] == old(View())[p]
      ensures shmStart == old(shmStart) && shmPgCnt == old(shmPgCnt) && maxActivePgCnt == old(maxActivePgCnt)
      ensures Valid() <==> maxActivePgCnt >= 1
    {
      ghost var disk := Effective(ubd);
      var order := Iterate(mappedPages);
      for k := 0 to |order|
        invariant Shaped() && unchanged(`mappedPages, `shm, `shmPgCnt, `shmStart, `maxActivePgCnt)
        invariant forall p :: 0 <= p < shmPgCnt ==> Effective(ubd)[p] == if p in order[..k] then shm[p] else disk[p]
        invariant forall p :: p in order[..k] ==> Settled(ubd, p) && ubd.medium[p] == shm[p]
      {
        var d := WriteBlocking(ubd, order[k], shm[order[k]]);
        ubd := d;
        assert order[..k + 1] == order[..k] + [order[k]];
      }
      assert order[..|order|] == order;
      mappedPages := {};
      Init(maxActivePgCnt, shmPgCnt);
    }

    /** No view changes. A cache of no pages is accepted, and then the next fault finds no page to evict. */
    method ResizeCache(pgCnt: nat)
      requires Valid() && shmPgCnt > 0
      modifies this
      ensures Shaped() && View() == old(View()) && maxActivePgCnt == pgCnt
      ensures shmStart == old(shmStart) && shmPgCnt == old(shmPgCnt)
      ensures pgCnt < old(maxActivePgCnt) ==> mappedPages == {}
      ensures pgCnt >= old(maxActivePgCnt) ==> mappedPages == old(mappedPages) && usedPages == old(usedPages) && unchanged(`shm, `accessible, `ubd)
      ensures Valid() <==> pgCnt >= 1
    {
      var shouldFlush := pgCnt < maxActivePgCnt;
      maxActivePgCnt := pgCnt;
      if shouldFlush {
        FlushCache();
      }
    }

    /** After one access to a page, starting over with init leaves the accounting wrong: the page counts as mapped, and is not. */
    method TouchThenInit(at: nat)
      requires Valid() && at < shmPgCnt * 4096
      modifies this
      ensures !Valid() && at / 4096 in mappedPages && usedPages == 0
    {
      Touch(at);
      Init(maxActivePgCnt, shmPgCnt);
    }

    /** A touch of byte `at` of the window by the program: a fault first if its page is protected. */
    method Touch(at: nat)
      requires Valid() && at < shmPgCnt * 4096
      modifies this
      ensures Valid() && View() == old(View()) && accessible[at / 4096]
      ensures if old(accessible[at / 4096]) then unchanged(this)
              else Faulted(old(mappedPages), mappedPages, at / 4096, old(usedPages) == maxActivePgCnt, dist)
      ensures shmPgCnt == old(shmPgCnt) && maxActivePgCnt == old(maxActivePgCnt)
    {
      if !accessible[at / 4096] {
        var handled := Handler(shmStart + at);
        assert handled;
      }
    }

    method Load(at: nat) returns (v: Byte)
      requires Valid() && at < shmPgCnt * 4096
      modifies this
      ensures Valid() && View() == old(View()) && v == View()[at / 4096][at % 4096]
      ensures if old(accessible[at / 4096]) then unchanged(this)
              else Faulted(old(mappedPages), mappedPages, at / 4096, old(usedPages) == maxActivePgCnt, dist)
      ensures shmPgCnt == old(shmPgCnt) && maxActivePgCnt == old(maxActivePgCnt)
    {
      Touch(at);
      v := shm[at / 4096][at % 4096];
    }

    method Store(at: nat, v: Byte)
      requires Valid() && at < shmPgCnt * 4096
      modifies this
      ensures Valid() && View() == Stored(old(View()), at, v)
      ensures if old(accessible[at / 4096]) then mappedPages == old(mappedPages) && ubd == old(ubd)
              else Faulted(old(mappedPages), mappedPages, at / 4096, old(usedPages) == maxActivePgCnt, dist)
      ensures shmPgCnt == old(shmPgCnt) && maxActivePgCnt == old(maxActivePgCnt)
    {
      Touch(at);
      var p := at / 4096;
      ghost var before := View();
      shm := shm[p := shm[p][at % 4096 := v]];
      assert View() == Stored(before, at, v);
    }

    /**
     Transparency of whole runs: any program with any flushes and resizes in between reads what it
     would read from a flat memory, and leaves what it would leave there; the accounting holds throughout.
     */
    method Run(ops: seq<Op>) returns (loads: seq<Byte>)
      requires Valid() && shmPgCnt > 0
      requires forall k :: 0 <= k < |ops| ==> ops[k].Fits(shmPgCnt)
      modifies this
      ensures Valid() && shmPgCnt == old(shmPgCnt)
      ensures View() == FlatMemory(old(View()), ops)
      ensures loads == FlatReads(old(View()), ops)
    {
      loads := [];
      for k := 0 to |ops|
        invariant Valid() && shmPgCnt == old(shmPgCnt)
        invariant View() == FlatMemory(old(View()), ops[..k])
        invariant loads == FlatReads(old(View()), ops[..k])
      {
        assert ops[..k + 1][..k] == ops[..k];
        match ops[k]
        case Load(at) =>
          var v := Load(at);
          loads := loads + [v];
        case Store(at, v) => Store(at, v);
        case Flush => FlushCache();
        case Resize(n) => ResizeCache(n);
      }
      assert ops[..|ops|] == ops;
    }
  }

  /** What a program and its environment do to the window. */
  datatype Op = Load(at: nat) | Store(at: nat, v: Byte) | Flush | Resize(n: nat) {

    predicate Fits(pages: nat) {
      match this
      case Load(at) => at < pages * 4096
      case Store(at, _) => at < pages * 4096
      case Flush => true
      case Resize(n) => n >= 1
    }
  }

  /** A store to a flat memory. */
  function Stored(mem: seq<Page>, at: nat, v: Byte): (r: seq<Page>)
    requires at < |mem| * 4096
    ensures |r| == |mem|
  {
    mem[at / 4096 := mem[at / 4096][at % 4096 := v]]
  }

  /** The flat memory after the operations. */
  function FlatMemory(mem: seq<Page>, ops: seq<Op>): (r: seq<Page>)
    requires forall k :: 0 <= k < |ops| ==> ops[k].Fits(|mem|)
    ensures |r| == |mem|
    decreases |ops|
  {
    if ops == [] then mem
    else
      var before, op := FlatMemory(mem, ops[..|ops| - 1]), ops[|ops| - 1];
      assert op.Fits(|mem|);
      if op.Store? then Stored(before, op.at, op.v) else before
  }

  /** What the loads among the operations return from the flat memory. */
  function FlatReads(mem: seq<Page>, ops: seq<Op>): seq<Byte>
    requires forall k :: 0 <= k < |ops| ==> ops[k].Fits(|mem|)
    decreases |ops|
  {
    if ops == [] then []
    else
      var before, op := FlatMemory(mem, ops[..|ops| - 1]), ops[|ops| - 1];
      assert op.Fits(|mem|);
      FlatReads(mem, ops[..|ops| - 1]) + if op.Load? then [before[op.at / 4096][op.at % 4096]] else []
  }

  /** How many of the first `n` operations are loads. */
  function LoadsIn(ops: seq<Op>, n: nat): nat
    requires n <= |ops|
  {
    if n == 0 then 0 else LoadsIn(ops, n - 1) + if ops[n - 1].Load? then 1 else 0
  }

  lemma {:induction false} LoadsInFront(ops: seq<Op>, n: nat, k: nat)
    requires k <= n <= |ops|
    ensures LoadsIn(ops[..n], k) == LoadsIn(ops, k)
  {
    if k > 0 { LoadsInFront(ops, n, k - 1); }
  }

  /** Every load returns, in its turn, what the flat memory holds at that moment, and nothing else is returned. */
  lemma {:induction false} FlatReadsAt(mem: seq<Page>, ops: seq<Op>, k: nat)
    requires k < |ops| && forall j :: 0 <= j < |ops| ==> ops[j].Fits(|mem|)
    ensures |FlatReads(mem, ops)| == LoadsIn(ops, |ops|)
    ensures ops[k].Load? ==>
              && LoadsIn(ops, k) < |FlatReads(mem, ops)|
              && FlatReads(mem, ops)[LoadsIn(ops, k)] == FlatMemory(mem, ops[..k])[ops[k].at / 4096][ops[k].at % 4096]
    decreases |ops|
  {
    var n := |ops| - 1;
    var front := ops[..n];
    LoadsInFront(ops, n, n);
    if n > 0 {
      FlatReadsAt(mem, front, if k < n then k else 0);
    }
    if k < n {
      LoadsInFront(ops, n, k);
      assert front[..k] == ops[..k] && front[k] == ops[k];
    }
  }

  lemma StoredAt(mem: seq<Page>, at: nat, v: Byte, a: nat)
    requires at < |mem| * 4096 && a < |mem| * 4096
    ensures Stored(mem, at, v)[a / 4096][a % 4096] == if a == at then v else mem[a / 4096][a % 4096]
  {
    if a != at { assert a / 4096 != at / 4096 || a % 4096 != at % 4096; }
  }

  /** The flat memory is a memory: a byte holds what was last stored to it. */
  lemma {:induction false} FlatMemoryAt(mem: seq<Page>, ops: seq<Op>, at: nat)
    requires forall k :: 0 <= k < |ops| ==> ops[k].Fits(|mem|)
    requires at < |mem| * 4096
    ensures var v := FlatMemory(mem, ops)[at / 4096][at % 4096];
            || (v == mem[at / 4096][at % 4096] && forall k :: 0 <= k < |ops| && ops[k].Store? ==> ops[k].at != at)
            || (exists k :: 0 <= k < |ops| && ops[k] == Store(at, v) && forall j :: k < j < |ops| && ops[j].Store? ==> ops[j].at != at)
    decreases |ops|
  {
    if ops != [] {
      var front, op := ops[..|ops| - 1], ops[|ops| - 1];
      FlatMemoryAt(mem, front, at);
      var v := FlatMemory(mem, front)[at / 4096][at % 4096];
      if op.Store? { StoredAt(FlatMemory(mem, front), op.at, op.v, at); }
      if op.Store? && op.at == at {
        assert ops[|ops| - 1] == Store(at, op.v);
      } else {
        if k :| 0 <= k < |front| && front[k] == Store(at, v) && forall j :: k < j < |front| && front[j].Store? ==> front[j].at != at {
          assert ops[k] == Store(at, v);
        }
      }
    }
  }

  /** Rounding an address down to a page does not leave its page of the window. */
  lemma AlignedPage(start: nat, pages: nat, addr: nat)
    requires start % 4096 == 0 && start <= addr < start + pages * 4096
    ensures start <= addr / 4096 * 4096 <= addr
    ensures PageOf(start, addr / 4096 * 4096) == PageOf(start, addr) < pages
  {
  }
}

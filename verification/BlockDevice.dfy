/**
 The block device under the page cache. A write is submitted with a copy of its data and completes
 later; requests for the same blocks take effect in the order they were submitted, others in any order.
 A page is eight 512-byte blocks, so page `p` is the blocks from `8 * p`.
 */
module BlockDevice {
  import opened Bytes

  type Page = p: seq<Byte> | |p| == 4096 witness seq(4096, _ => 0)

  const ZEROS: Page := seq(4096, _ => 0)

  /** A submitted write, with the mark that its completion sets. */
  datatype Request = Request(page: nat, data: Page, isCompleted: bool)

  /** What is on the medium, and the completion queue, oldest request first. */
  datatype Device = Device(medium: seq<Page>, queue: seq<Request>) {

    predicate Valid() {
      forall k :: 0 <= k < |queue| ==> queue[k].page < |medium|
    }
  }

  /** What a read submitted now would see: the medium with all outstanding writes applied. */
  function Effective(d: Device): (pages: seq<Page>)
    requires d.Valid()
    ensures |pages| == |d.medium|
    decreases |d.queue|
  {
    if d.queue == [] then d.medium
    else
      var r := d.queue[0];
      Effective(Device(if r.isCompleted then d.medium else d.medium[r.page := r.data], d.queue[1..]))
  }

  /** Request `k` is outstanding and no older one for the same page is. */
  predicate MayComplete(d: Device, k: nat) {
    k < |d.queue| && !d.queue[k].isCompleted &&
    forall j :: 0 <= j < k ==> d.queue[j].isCompleted || d.queue[j].page != d.queue[k].page
  }

  function Complete(d: Device, k: nat): (d': Device)
    requires d.Valid() && MayComplete(d, k)
    ensures d'.Valid() && |d'.medium| == |d.medium|
  {
    var r := d.queue[k];
    Device(d.medium[r.page := r.data], d.queue[k := r.(isCompleted := true)])
  }

  /** A completion changes what is on the medium but not what a read sees. */
  lemma {:induction false} CompletionIsInvisible(d: Device, k: nat)
    requires d.Valid() && MayComplete(d, k)
    ensures Effective(Complete(d, k)) == Effective(d)
    decreases k
  {
    var d' := Complete(d, k);
    var r, r0 := d.queue[k], d.queue[0];
    if k == 0 {
      assert d'.queue[1..] == d.queue[1..];
    } else {
      var rest := Device(if r0.isCompleted then d.medium else d.medium[r0.page := r0.data], d.queue[1..]);
      assert rest.queue[k - 1] == r;
      assert forall j :: 0 <= j < k - 1 ==> rest.queue[j] == d.queue[j + 1];
      CompletionIsInvisible(rest, k - 1);
      var rest' := Complete(rest, k - 1);
      assert d'.queue[1..] == rest'.queue;
      assert d'.queue[0] == r0;
      if !r0.isCompleted {
        assert d'.medium[r0.page := r0.data] == rest'.medium;
      }
    }
  }

  /** The device makes progress of its own: whichever of the polled requests may complete, do. */
  function Poll(d: Device, polled: seq<nat>): (d': Device)
    requires d.Valid()
    ensures d'.Valid() && |d'.medium| == |d.medium|
    decreases |polled|
  {
    if polled == [] then d
    else Poll(if MayComplete(d, polled[0]) then Complete(d, polled[0]) else d, polled[1..])
  }

  lemma {:induction false} PollIsInvisible(d: Device, polled: seq<nat>)
    requires d.Valid()
    ensures Effective(Poll(d, polled)) == Effective(d)
    decreases |polled|
  {
    if polled != [] {
      if MayComplete(d, polled[0]) {
        CompletionIsInvisible(d, polled[0]);
        PollIsInvisible(Complete(d, polled[0]), polled[1..]);
      } else {
        PollIsInvisible(d, polled[1..]);
      }
    }
  }

  lemma {:induction false} EffectiveSnoc(d: Device, r: Request)
    requires d.Valid() && r.page < |d.medium| && !r.isCompleted
    ensures Device(d.medium, d.queue + [r]).Valid()
    ensures Effective(Device(d.medium, d.queue + [r])) == Effective(d)[r.page := r.data]
    decreases |d.queue|
  {
    var d' := Device(d.medium, d.queue + [r]);
    if d.queue == [] {
      assert d'.queue == [r] && d'.queue[1..] == [];
    } else {
      var r0 := d.queue[0];
      assert d'.queue[0] == r0 && d'.queue[1..] == d.queue[1..] + [r];
      EffectiveSnoc(Device(if r0.isCompleted then d.medium else d.medium[r0.page := r0.data], d.queue[1..]), r);
    }
  }

  /** No request for the page is outstanding. */
  predicate Settled(d: Device, page: nat) {
    forall k :: 0 <= k < |d.queue| ==> d.queue[k].isCompleted || d.queue[k].page != page
  }

  lemma {:induction false} SettledIsOnMedium(d: Device, page: nat)
    requires d.Valid() && Settled(d, page) && page < |d.medium|
    ensures Effective(d)[page] == d.medium[page]
    decreases |d.queue|
  {
    if d.queue != [] {
      var r := d.queue[0];
      SettledIsOnMedium(Device(if r.isCompleted then d.medium else d.medium[r.page := r.data], d.queue[1..]), page);
    }
  }

  lemma {:induction false} WriteSettled(d: Device, page: nat, data: Page)
    requires d.Valid() && Settled(d, page) && page < |d.medium|
    ensures Effective(Device(d.medium[page := data], d.queue)) == Effective(d)[page := data]
    decreases |d.queue|
  {
    if d.queue != [] {
      var r := d.queue[0];
      var rest := Device(if r.isCompleted then d.medium else d.medium[r.page := r.data], d.queue[1..]);
      WriteSettled(rest, page, data);
      assert r.isCompleted || d.medium[page := data][r.page := r.data] == rest.medium[page := data];
    }
  }

  /** Pages other than this one that had no outstanding request still have none, and are on the medium as they were. */
  ghost predicate KeepsSettled(d: Device, d': Device, page: nat)
    requires |d'.medium| == |d.medium|
  {
    forall q :: 0 <= q < |d.medium| && q != page && Settled(d, q) ==> Settled(d', q) && d'.medium[q] == d.medium[q]
  }

  /** Waiting for a request means that the older ones for the same page complete first. */
  method Settle(d: Device, page: nat) returns (d': Device)
    requires d.Valid() && page < |d.medium|
    ensures d'.Valid() && |d'.medium| == |d.medium| && |d'.queue| == |d.queue|
    ensures Settled(d', page) && Effective(d') == Effective(d) && KeepsSettled(d, d', page)
  {
    d' := d;
    for k := 0 to |d.queue|
      invariant d'.Valid() && |d'.medium| == |d.medium| && |d'.queue| == |d.queue| && KeepsSettled(d, d', page)
      invariant forall j :: 0 <= j < k ==> d'.queue[j].isCompleted || d'.queue[j].page != page
      invariant Effective(d') == Effective(d)
    {
      if d'.queue[k].page == page && !d'.queue[k].isCompleted {
        CompletionIsInvisible(d', k);
        d' := Complete(d', k);
      }
    }
  }

  /** read_blocking of one page. */
  method ReadBlocking(d: Device, page: nat) returns (d': Device, buf: Page)
    requires d.Valid() && page < |d.medium|
    ensures d'.Valid() && |d'.medium| == |d.medium|
    ensures buf == Effective(d)[page] && Effective(d') == Effective(d)
  {
    d' := Settle(d, page);
    SettledIsOnMedium(d', page);
    buf := d'.medium[page];
  }

  /** write_blocking of one page: when it returns the page is on the medium. */
  method WriteBlocking(d: Device, page: nat, buf: Page) returns (d': Device)
    requires d.Valid() && page < |d.medium|
    ensures d'.Valid() && |d'.medium| == |d.medium|
    ensures Effective(d') == Effective(d)[page := buf]
    ensures Settled(d', page) && d'.medium[page] == buf && KeepsSettled(d, d', page)
  {
    d' := Settle(d, page);
    WriteSettled(d', page, buf);
    d' := Device(d'.medium[page := buf], d'.queue);
  }

  /** write: submit, and let the device poll. The new request is the queue's last. */
  method Write(d: Device, page: nat, buf: Page) returns (d': Device)
    requires d.Valid() && page < |d.medium|
    ensures d'.Valid() && |d'.medium| == |d.medium|
    ensures SameRequests(d'.queue, d.queue + [Request(page, buf, false)])
    ensures Effective(d') == Effective(d)[page := buf]
  {
    EffectiveSnoc(d, Request(page, buf, false));
    d' := Device(d.medium, d.queue + [Request(page, buf, false)]);
    var polled: seq<nat> := *;
    PollIsInvisible(d', polled);
    PollKeepsRequests(d', polled);
    d' := Poll(d', polled);
  }

  /** The same requests in the same order, of which some more may have completed. */
  ghost predicate SameRequests(now: seq<Request>, was: seq<Request>) {
    |now| == |was| && forall k :: 0 <= k < |was| ==> now[k].page == was[k].page && now[k].data == was[k].data && (was[k].isCompleted ==> now[k].isCompleted)
  }

  lemma {:induction false} PollKeepsRequests(d: Device, polled: seq<nat>)
    requires d.Valid()
    ensures SameRequests(Poll(d, polled).queue, d.queue)
    decreases |polled|
  {
    if polled != [] {
      PollKeepsRequests(if MayComplete(d, polled[0]) then Complete(d, polled[0]) else d, polled[1..]);
    }
  }

  lemma {:induction false} ErasureIsInvisible(d: Device, k: nat)
    requires d.Valid() && k < |d.queue| && d.queue[k].isCompleted
    ensures Device(d.medium, d.queue[..k] + d.queue[k + 1..]).Valid()
    ensures Effective(Device(d.medium, d.queue[..k] + d.queue[k + 1..])) == Effective(d)
    decreases k
  {
    var q := d.queue[..k] + d.queue[k + 1..];
    assert forall j :: 0 <= j < |q| ==> q[j] == d.queue[if j < k then j else j + 1];
    if k == 0 {
      assert q == d.queue[1..];
    } else {
      var r0 := d.queue[0];
      var rest := Device(if r0.isCompleted then d.medium else d.medium[r0.page := r0.data], d.queue[1..]);
      assert q[0] == r0 && q[1..] == rest.queue[..k - 1] + rest.queue[k..];
      ErasureIsInvisible(rest, k - 1);
    }
  }

  /** The outstanding requests of a queue. */
  function Outstanding(q: seq<Request>): seq<Request> {
    if q == [] then [] else (if q[0].isCompleted then [] else [q[0]]) + Outstanding(q[1..])
  }

  lemma {:induction false} OutstandingErase(q: seq<Request>, k: nat)
    requires k < |q| && q[k].isCompleted
    ensures Outstanding(q[..k] + q[k + 1..]) == Outstanding(q)
    decreases k
  {
    var q' := q[..k] + q[k + 1..];
    if k == 0 {
      assert q' == q[1..];
    } else {
      assert q'[0] == q[0] && q'[1..] == q[1..][..k - 1] + q[1..][k..];
      OutstandingErase(q[1..], k - 1);
    }
  }

  /**
   The clean-up at the end of an eviction: completed requests leave the queue, scanning down from
   the newest and stopping before the oldest. No outstanding request is ever dropped.
   */
  method Reap(d: Device) returns (d': Device)
    requires d.Valid() && |d.queue| > 0
    ensures d'.Valid() && d'.medium == d.medium
    ensures |d'.queue| > 0 && d'.queue[0] == d.queue[0]
    ensures forall k :: 1 <= k < |d'.queue| ==> !d'.queue[k].isCompleted
    ensures Outstanding(d'.queue) == Outstanding(d.queue)
    ensures Effective(d') == Effective(d)
  {
    d' := d;
    var iter := |d.queue| - 1;
    while iter > 0
      invariant 0 <= iter < |d'.queue|
      invariant d'.Valid() && d'.medium == d.medium && d'.queue[..iter + 1] == d.queue[..iter + 1]
      invariant forall k :: iter < k < |d'.queue| ==> !d'.queue[k].isCompleted
      invariant Outstanding(d'.queue) == Outstanding(d.queue)
      invariant Effective(d') == Effective(d)
    {
      if d'.queue[iter].isCompleted {
        ErasureIsInvisible(d', iter);
        OutstandingErase(d'.queue, iter);
        ghost var q := d'.queue;
        d' := Device(d'.medium, d'.queue[..iter] + d'.queue[iter + 1..]);
        assert forall k :: iter <= k < |d'.queue| ==> d'.queue[k] == q[k + 1];
        assert d'.queue[..iter] == d.queue[..iter + 1][..iter];
      } else {
        assert d'.queue[..iter] == d'.queue[..iter + 1][..iter];
      }
      assert d.queue[..iter + 1][..iter] == d.queue[..iter];
      iter := iter - 1;
    }
    assert d'.queue[0] == d'.queue[..1][0] == d.queue[..1][0];
  }
}

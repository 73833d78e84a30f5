/**
 The life of a request from the virtqueue to the used ring, over the objects themselves: taken
 by serve_ctrl or drain_once, answered at once or parked on async_cmds with a second reference,
 and answered from there (src/rvgpu-proxy/gpu/rvgpu-gpu-device.c, src/rvgpu-proxy/gpu/rvgpu-vqueue.c).
 */
module Requests {
  import opened Bytes
  import opened Vqueue
  import opened AsyncCommands

  const OK_NODATA := 0x1100  // VIRTIO_GPU_RESP_OK_NODATA
  const FENCE := 1           // VIRTIO_GPU_FLAG_FENCE

  type u64 = x: int | 0 <= x < 0x1_0000_0000_0000_0000

  /** struct virtio_gpu_ctrl_hdr */
  datatype Header = Header(kind: u32, flags: u32, fence: u64, ctx: u32)

  function HeaderBytes(h: Header): (b: seq<byte>)
    ensures |b| == 24
  {
    U32Bytes(h.kind) + U32Bytes(h.flags) + U32Bytes(h.fence % 0x1_0000_0000) + U32Bytes(h.fence / 0x1_0000_0000)
    + U32Bytes(h.ctx) + [0, 0, 0, 0]
  }

  /** The guest reads each field where section 5.7.6.7 of VIRTIO 1.2 has it. */
  lemma HeaderFields(h: Header)
    ensures var b := HeaderBytes(h);
            U32At(b, 0) == h.kind && U32At(b, 4) == h.flags && U64At(b, 8) == h.fence && U32At(b, 16) == h.ctx
  {
    hide U32At, U32Bytes;
    var b := HeaderBytes(h);
    var low, high := h.fence % 0x1_0000_0000, h.fence / 0x1_0000_0000;
    assert b[0..4] == U32Bytes(h.kind) && b[4..8] == U32Bytes(h.flags) && b[8..12] == U32Bytes(low);
    assert b[12..16] == U32Bytes(high) && b[16..20] == U32Bytes(h.ctx);
    U32RoundTrip(b, 0, h.kind);
    U32RoundTrip(b, 4, h.flags);
    U32RoundTrip(b, 8, low);
    U32RoundTrip(b, 12, high);
    U32RoundTrip(b, 16, h.ctx);
  }

  /** A parked request with the header of its answer. */
  type Cmd = Parked<Request, Header>

  /** What is written to the guest for the parked requests. */
  function Replies(cmds: seq<Cmd>): (r: seq<seq<byte>>)
    ensures |r| == |cmds|
  {
    if cmds == [] then [] else [HeaderBytes(cmds[0].info)] + Replies(cmds[1..])
  }

  lemma {:induction false} RepliesSnoc(cmds: seq<Cmd>, c: Cmd)
    ensures Replies(cmds + [c]) == Replies(cmds) + [HeaderBytes(c.info)]
  {
    if cmds == [] {
      assert [c][1..] == [] && cmds + [c] == [c];
    } else {
      assert (cmds + [c])[1..] == cmds[1..] + [c];
      RepliesSnoc(cmds[1..], c);
    }
  }

  lemma {:induction false} RepliesAt(cmds: seq<Cmd>, i: nat)
    requires i < |cmds|
    ensures Replies(cmds)[i] == HeaderBytes(cmds[i].info)
  {
    if i > 0 {
      RepliesAt(cmds[1..], i - 1);
    }
  }

  ghost predicate Distinct(a: seq<Request>) {
    forall i, j :: 0 <= i < j < |a| ==> a[i] != a[j]
  }

  /** Each request taken is either answered or parked, and is so once. */
  ghost predicate Sorted(taken: seq<Request>, answered: seq<Request>, parked: seq<Request>) {
    && Distinct(taken) && Distinct(answered + parked)
    && (forall x <- taken :: x in answered + parked)
    && (forall x <- answered + parked :: x in taken)
  }

  lemma SortedMore(taken: seq<Request>, answered: seq<Request>, parked: seq<Request>, x: Request)
    requires Sorted(taken, answered, parked) && x !in taken
    ensures Sorted(taken + [x], answered + [x], parked)
    ensures Sorted(taken + [x], answered, parked + [x])
  {
    assert answered + (parked + [x]) == (answered + parked) + [x];
    DistinctInsert(answered, parked, x);
  }

  lemma DistinctInsert(a: seq<Request>, b: seq<Request>, x: Request)
    requires Distinct(a + b) && x !in a + b
    ensures Distinct(a + [x] + b)
  {
    var c := a + [x] + b;
    forall i, j | 0 <= i < j < |c|
      ensures c[i] != c[j]
    {
      assert i < |a| ==> c[i] == (a + b)[i];
      assert i > |a| ==> c[i] == (a + b)[i - 1];
      assert j < |a| ==> c[j] == (a + b)[j];
      assert j > |a| ==> c[j] == (a + b)[j - 1];
    }
  }

  lemma SortedMove(taken: seq<Request>, answered: seq<Request>, kept: seq<Request>, x: Request, todo: seq<Request>)
    requires Sorted(taken, answered, kept + [x] + todo)
    ensures Sorted(taken, answered + [x], kept + todo)
    ensures x !in answered && x !in kept + todo && x in taken
  {
    var a, b := answered + (kept + [x] + todo), (answered + [x]) + (kept + todo);
    var n, m := |answered|, |answered| + |kept|;
    assert a[m] == x;
    forall i | 0 <= i < |b|
      ensures b[i] == a[Back(n, m, i)]
    {
    }
    forall i, j | 0 <= i < j < |b|
      ensures b[i] != b[j]
    {
      assert Back(n, m, i) != Back(n, m, j);
    }
    forall y <- a
      ensures y in b
    {
      var i: nat :| i < |a| && a[i] == y;
      var k := if i < n then i else if i < m then i + 1 else if i == m then n else i;
      assert Back(n, m, k) == i && b[k] == y;
    }
    assert forall y <- b :: y in a;
    assert forall i :: 0 <= i < |answered| ==> answered[i] == b[i] != b[n];
    assert forall i :: 0 <= i < |kept + todo| ==> (kept + todo)[i] == b[n + 1 + i] != b[n];
  }

  /** Where the i-th entry was before the one at m was moved forward to n. */
  function Back(n: nat, m: nat, i: nat): nat
    requires n <= m
  {
    if i < n then i else if i == n then m else if i <= m then i - 1 else i
  }

  function ParkedSet(cmds: seq<Cmd>): set<Request> {
    set c <- cmds :: c.req
  }

  /** The loop of process_fences with left still to look at. */
  ghost predicate Halfway(cmds: seq<Cmd>, fence: nat, kept: seq<Cmd>, done: seq<Cmd>, left: seq<Cmd>) {
    && Above(cmds, fence) == kept + Above(left, fence)
    && Due(cmds, fence) == done + Due(left, fence)
    && (forall c <- left :: c in cmds)
  }

  lemma HalfwayStart(cmds: seq<Cmd>, fence: nat)
    ensures Halfway(cmds, fence, [], [], cmds) && [] + cmds == cmds
  {
  }

  lemma HalfwayEnd(cmds: seq<Cmd>, fence: nat, kept: seq<Cmd>, done: seq<Cmd>, left: seq<Cmd>)
    requires Halfway(cmds, fence, kept, done, left) && left == []
    ensures Above(cmds, fence) == kept == kept + left && Due(cmds, fence) == done
  {
  }

  lemma NextCmd(cmds: seq<Cmd>, fence: nat, kept: seq<Cmd>, done: seq<Cmd>, left: seq<Cmd>)
    requires Halfway(cmds, fence, kept, done, left) && left != []
    ensures var c := left[0];
            && c.req in ParkedSet(cmds) && kept + left == kept + [c] + left[1..] == (kept + [c]) + left[1..]
            && Reqs(done + [c]) == Reqs(done) + [c.req] && Replies(done + [c]) == Replies(done) + [HeaderBytes(c.info)]
            && if c.fence > fence then Halfway(cmds, fence, kept + [c], done, left[1..])
               else Halfway(cmds, fence, kept, done + [c], left[1..])
  {
    assert left == [left[0]] + left[1..];
    ReqsAppend(done, [left[0]]);
    ReqsOne(left[0]);
    RepliesSnoc(done, left[0]);
  }

  lemma Without(kept: seq<Cmd>, c: Cmd, left: seq<Cmd>)
    ensures var all := kept + [c] + left; all[..|kept|] + all[|kept| + 1..] == kept + left
  {
  }

  lemma FirstCmd(cmds: seq<Cmd>, done: seq<Cmd>, left: seq<Cmd>)
    requires left != [] && cmds == done + left
    ensures left == [] + [left[0]] + left[1..] && [] + left[1..] == left[1..]
    ensures cmds == (done + [left[0]]) + left[1..]
    ensures left[0].req in ParkedSet(cmds) && Reqs(done + [left[0]]) == Reqs(done) + [left[0].req]
    ensures Replies(done + [left[0]]) == Replies(done) + [HeaderBytes(left[0].info)]
  {
    hide *;
    Shift(done, left);
    InParkedSet(cmds, |done|);
    RepliesSnoc(done, left[0]);
    ReqsAppend(done, [left[0]]);
    ReqsOne(left[0]);
  }

  lemma Shift(done: seq<Cmd>, left: seq<Cmd>)
    requires left != []
    ensures left == [] + [left[0]] + left[1..] && [] + left[1..] == left[1..]
    ensures done + left == (done + [left[0]]) + left[1..] && (done + left)[|done|] == left[0]
  {
  }

  lemma InParkedSet(cmds: seq<Cmd>, i: nat)
    requires i < |cmds|
    ensures cmds[i].req in ParkedSet(cmds)
  {
  }

  /** The writable memory of a chain. */
  ghost predicate Collected(table: seq<Desc>, head: nat, mem: seq<byte>)
    requires |table| == NUM
  {
    exists seen: seq<nat> :: Gathered(table, head, seen) && mem == Flat(Pick(Descs(table, seen), true))
  }

  class Control {
    const q: Queue
    var asyncCmds: seq<Cmd>
    ghost var taken: seq<Request>     // every request ever taken, in order
    ghost var answered: seq<Request>  // those in the used ring, in order
    ghost var replies: seq<seq<byte>> // what each of them was answered with

    /**
     Every request taken is either parked, with its memory mapped and one reference, or answered, with its memory
     unmapped once and itself freed; and the used ring names the answered ones in order, and how much of its reply
     each has, which is in the guest's memory.
     */
    ghost predicate Settled()
      reads this, q, q.availRing, q.usedRing, taken
    {
      && q.Valid()
      && Sorted(taken, answered, Reqs(asyncCmds))
      && |taken| <= q.fetched
      && (forall k :: 0 <= k < |taken| ==> taken[k].idx == q.offered[k])
      && (forall x <- answered :: x in taken && x.Done())
      && (forall x <- Reqs(asyncCmds) :: x in taken && x.Live())
      && |q.history| == |answered|
      && |replies| == |answered|
      && (forall i :: 0 <= i < |answered| ==> answered[i] in taken && answered[i].Got(replies[i], q.history[i]))
      && (forall c <- asyncCmds :: c.info.kind == OK_NODATA && c.fence == c.info.fence)
    }

    ghost predicate Valid()
      reads this, q, q.availRing, q.usedRing, taken
    {
      Settled() && |taken| == q.fetched
    }

    /** Between taking a request and disposing of it. */
    ghost predicate Holding(req: Request)
      reads this, q, q.availRing, q.usedRing, taken, req
    {
      && Settled() && |taken| + 1 == q.fetched
      && req !in taken && req.Live() && req.idx == q.offered[|taken|]
    }

    constructor ()
      ensures Valid() && taken == [] && fresh(q) && fresh(q.availRing) && fresh(q.usedRing)
    {
      q := new Queue();
      asyncCmds, taken, answered, replies := [], [], [], [];
    }

    /** add_resp, and the reference that serve_ctrl gives up. */
    method Park(req: Request, hdr: Header)
      requires Holding(req) && hdr.kind == OK_NODATA
      modifies this`asyncCmds, this`taken, req`refcount, req`freed
      ensures Valid() && taken == old(taken) + [req]
      ensures asyncCmds == old(asyncCmds) + [Parked(req, hdr.fence, hdr)]
    {
      hide Sorted, Reqs, Request.Got, Request.Done;
      req.Ref();
      SortedMore(taken, answered, Reqs(asyncCmds), req);
      ReqsAppend(asyncCmds, [Parked(req, hdr.fence, hdr)]);
      ReqsOne(Parked(req, hdr.fence, hdr));
      asyncCmds := asyncCmds + [Parked(req, hdr.fence, hdr)];
      taken := taken + [req];
      req.Unref();
    }

    method Answer(req: Request, resp: seq<byte>)
      requires Holding(req)
      modifies this`taken, this`answered, this`replies, q`usedIdx, q`history, q.usedRing
      modifies req`w, req`unmaps, req`mapped, req`refcount, req`freed
      ensures Valid() && taken == old(taken) + [req] && answered == old(answered) + [req]
      ensures replies == old(replies) + [resp]
    {
      hide Request.Live, Request.Done, Request.Got, Sorted, Reqs;
      q.SendResponse(req, resp);
      SortedMore(taken, answered, Reqs(asyncCmds), req);
      answered, replies := answered + [req], replies + [resp];
      taken := taken + [req];
    }

    method Take(table: seq<Desc>) returns (req: Request)
      requires Valid() && q.fetched < |q.offered| && |table| == NUM && !TrapAhead(table, q.offered[q.fetched])
      modifies q`fetched, q`lastAvailIdx
      ensures Holding(req) && fresh(req) && q.fetched == old(q.fetched) + 1
      ensures Collected(table, old(q.offered[q.fetched]), req.given)
    {
      ghost var seen;
      req, seen := q.GetRequest(table);
    }

    /**
     One turn of gpu_device_serve_ctrl, as far as the request goes: with the fence and context of a fenced command, or
     with the response to one without.
     */
    method ServeOne(table: seq<Desc>, fenced: Option<(u64, u32)>, resp: seq<byte>) returns (req: Request)
      requires Valid() && q.fetched < |q.offered| && |table| == NUM && !TrapAhead(table, q.offered[q.fetched])
      modifies this, q, q.usedRing
      ensures Valid() && fresh(req) && taken == old(taken) + [req] && q.offered == old(q.offered)
      ensures Collected(table, old(q.offered[q.fetched]), req.given)
      ensures fenced.None? ==>
                asyncCmds == old(asyncCmds) && answered == old(answered) + [req] && replies == old(replies) + [resp]
      ensures fenced.Some? ==>
                var h := Header(OK_NODATA, FENCE, fenced.value.0, fenced.value.1);
                && asyncCmds == old(asyncCmds) + [Parked(req, fenced.value.0, h)]
                && answered == old(answered) && replies == old(replies)
    {
      req := Take(table);
      if fenced.Some? {
        Park(req, Header(OK_NODATA, FENCE, fenced.value.0, fenced.value.1));
      } else {
        Answer(req, resp);
      }
    }

    /** Nothing that happens later takes an answer away again. */
    lemma AnsweredWith(i: nat)
      requires Valid() && i < |answered|
      ensures |replies| == |q.history| == |answered|
      ensures var x, n := answered[i], Min(|replies[i]|, |answered[i].given|);
              && q.history[i] == Used(x.idx, n) && Flat(x.w) == replies[i][..n] + x.given[n..]
    {
    }

    lemma ParkedHeader(c: Cmd)
      requires Valid() && c in asyncCmds
      ensures c.info.kind == OK_NODATA
    {
    }

    /** vqueue_send_response and TAILQ_REMOVE on the parked command behind kept. */
    method AnswerParked(i: nat, ghost kept: seq<Cmd>, c: Cmd, ghost left: seq<Cmd>, hdr: Header)
      requires Valid() && asyncCmds == kept + [c] + left && i == |kept|
      modifies this`asyncCmds, this`answered, this`replies, q`usedIdx, q`history, q.usedRing
      modifies c.req`w, c.req`unmaps, c.req`mapped, c.req`refcount, c.req`freed
      ensures Valid() && answered == old(answered) + [c.req] && asyncCmds == kept + left
      ensures replies == old(replies) + [HeaderBytes(hdr)]
    {
      hide Reqs, Request.Live, Request.Done, Request.Got, Sorted;
      ReqsAppend(kept + [c], left);
      ReqsAppend(kept, [c]);
      ReqsAppend(kept, left);
      ReqsOne(c);
      ReqsAt(asyncCmds, i);
      SortedMove(taken, answered, Reqs(kept), c.req, Reqs(left));
      q.SendResponse(c.req, HeaderBytes(hdr));
      Without(kept, c, left);
      asyncCmds := asyncCmds[..i] + asyncCmds[i + 1..];
      answered, replies := answered + [c.req], replies + [HeaderBytes(hdr)];
      forall x <- Reqs(asyncCmds)
        ensures x in taken && x.Live()
      {
        assert x in Reqs(kept) + Reqs(left) && x != c.req;
        assert x in old(Reqs(asyncCmds));
      }
    }

    /** Exactly the parked commands with a fence up to the given one are answered, oldest first, each with its header. */
    method ProcessFences(fence: nat) returns (processed: nat)
      requires Valid()
      modifies this`asyncCmds, this`answered, this`replies, q`usedIdx, q`history, q.usedRing
      modifies ParkedSet(asyncCmds)`w, ParkedSet(asyncCmds)`unmaps, ParkedSet(asyncCmds)`mapped
      modifies ParkedSet(asyncCmds)`refcount, ParkedSet(asyncCmds)`freed
      ensures Valid()
      ensures asyncCmds == Above(old(asyncCmds), fence)
      ensures answered == old(answered) + Reqs(Due(old(asyncCmds), fence))
      ensures replies == old(replies) + Replies(Due(old(asyncCmds), fence))
      ensures processed == |Due(old(asyncCmds), fence)|
    {
      hide Settled, Due, Above, Reqs, Replies, HeaderBytes, Sorted;
      ghost var cmds, kept, left, done := asyncCmds, [], asyncCmds, [];
      HalfwayStart(cmds, fence);
      processed := 0;
      var i := 0;
      while i < |asyncCmds|
        invariant Valid() && asyncCmds == kept + left && i == |kept|
        invariant Halfway(cmds, fence, kept, done, left)
        invariant answered == old(answered) + Reqs(done) && processed == |done|
        invariant replies == old(replies) + Replies(done)
        decreases |left|
      {
        var c := asyncCmds[i];
        NextCmd(cmds, fence, kept, done, left);
        if c.fence > fence {
          kept := kept + [c];
          i := i + 1;
        } else {
          AnswerParked(i, kept, c, left[1..], c.info);
          done := done + [c];
          processed := processed + 1;
        }
        left := left[1..];
      }
      HalfwayEnd(cmds, fence, kept, done, left);
    }

    /** The parked commands are answered first, then every request still waiting in this queue. */
    method DrainOnce(table: seq<Desc>) returns (flushed: nat)
      requires Valid() && |table| == NUM
      requires forall k :: q.fetched <= k < |q.offered| ==> !TrapAhead(table, q.offered[k])
      modifies this, q, q.usedRing
      modifies ParkedSet(asyncCmds)`w, ParkedSet(asyncCmds)`unmaps, ParkedSet(asyncCmds)`mapped
      modifies ParkedSet(asyncCmds)`refcount, ParkedSet(asyncCmds)`freed
      ensures Valid() && asyncCmds == [] && q.offered == old(q.offered) && q.fetched == |q.offered|
      ensures |taken| >= |old(taken)| && taken[..|old(taken)|] == old(taken)
      ensures answered == old(answered) + Reqs(old(asyncCmds)) + taken[|old(taken)|..]
      ensures replies == old(replies) + Replies(old(asyncCmds)) + Plain(|taken| - |old(taken)|)
      ensures flushed == |old(asyncCmds)| + |taken| - |old(taken)|
    {
      hide Settled, Reqs, Replies, HeaderBytes;
      flushed := AnswerAll();
      ghost var first, firstReplies, n := answered, replies, flushed;
      var available := Available();
      while available
        invariant Valid() && asyncCmds == [] && q.offered == old(q.offered)
        invariant q.fetched <= |q.offered| && (available <==> q.fetched < |q.offered|)
        invariant old(q.fetched) <= q.fetched
        invariant |taken| >= |old(taken)| && taken[..|old(taken)|] == old(taken)
        invariant answered == first + taken[|old(taken)|..]
        invariant replies == firstReplies + Plain(|taken| - |old(taken)|)
        invariant flushed == n + |taken| - |old(taken)|
        decreases |q.offered| - q.fetched
      {
        ghost var before := taken;
        var req := ServeOne(table, None, HeaderBytes(Header(OK_NODATA, 0, 0, 0)));
        assert taken[|old(taken)|..] == before[|old(taken)|..] + [req];
        flushed := flushed + 1;
        available := Available();
      }
    }

    method Available() returns (available: bool)
      requires Valid()
      ensures available <==> q.fetched < |q.offered|
      ensures q.fetched <= |q.offered|
    {
      available := q.AreRequestsAvailable();
    }

    method AnswerAll() returns (flushed: nat)
      requires Valid()
      modifies this`asyncCmds, this`answered, this`replies, q`usedIdx, q`history, q.usedRing
      modifies ParkedSet(asyncCmds)`w, ParkedSet(asyncCmds)`unmaps, ParkedSet(asyncCmds)`mapped
      modifies ParkedSet(asyncCmds)`refcount, ParkedSet(asyncCmds)`freed
      ensures Valid() && asyncCmds == [] && answered == old(answered) + Reqs(old(asyncCmds))
      ensures replies == old(replies) + Replies(old(asyncCmds))
      ensures flushed == |old(asyncCmds)|
    {
      hide Settled, Reqs, Replies, HeaderBytes, ParkedSet, Sorted;
      flushed := 0;
      ghost var cmds, done := asyncCmds, [];
      while asyncCmds != []
        invariant Valid() && cmds == done + asyncCmds
        invariant answered == old(answered) + Reqs(done) && flushed == |done|
        invariant replies == old(replies) + Replies(done)
        decreases |asyncCmds|
      {
        ghost var left := asyncCmds[1..];
        FirstCmd(cmds, done, asyncCmds);
        done := done + [asyncCmds[0]];
        ParkedHeader(asyncCmds[0]);
        var h := asyncCmds[0].info;
        AnswerParked(0, [], asyncCmds[0], left, Header(OK_NODATA, h.flags, h.fence, h.ctx));
        flushed := flushed + 1;
      }
      assert done + [] == done;
    }
  }

  /** The header drain_once writes for a request that was waiting. */
  function Plain(n: nat): (r: seq<seq<byte>>)
    ensures |r| == n
  {
    seq(n, _ => HeaderBytes(Header(OK_NODATA, 0, 0, 0)))
  }

  lemma ParkedTaken(ctrl: Control)
    requires ctrl.Valid()
    ensures forall x <- ParkedSet(ctrl.asyncCmds) :: x in ctrl.taken
  {
    forall x <- ParkedSet(ctrl.asyncCmds)
      ensures x in ctrl.taken
    {
      var c :| c in ctrl.asyncCmds && c.req == x;
      var i :| 0 <= i < |ctrl.asyncCmds| && ctrl.asyncCmds[i] == c;
      ReqsAt(ctrl.asyncCmds, i);
    }
  }

  /** The two queues of the device share nothing. */
  ghost predicate Apart(ctrl: Control, cursor: Control)
    reads ctrl, cursor
  {
    && ctrl != cursor && ctrl.q != cursor.q
    && ctrl.q.availRing != cursor.q.availRing && ctrl.q.usedRing != cursor.q.usedRing
    && forall x <- ctrl.taken :: x !in cursor.taken
  }

  /** gpu_device_drain_once: what is parked, which is all from the control queue, and then both queues; a queue is
      kicked if anything was answered on it. */
  method DrainDevice(ctrl: Control, cursor: Control, ctrlTable: seq<Desc>, cursorTable: seq<Desc>)
    returns (flushed: nat, kickCtrl: bool, kickCursor: bool)
    requires ctrl.Valid() && cursor.Valid() && Apart(ctrl, cursor) && cursor.asyncCmds == []
    requires |ctrlTable| == |cursorTable| == NUM
    requires forall k :: ctrl.q.fetched <= k < |ctrl.q.offered| ==> !TrapAhead(ctrlTable, ctrl.q.offered[k])
    requires forall k :: cursor.q.fetched <= k < |cursor.q.offered| ==> !TrapAhead(cursorTable, cursor.q.offered[k])
    modifies ctrl, ctrl.q, ctrl.q.usedRing, cursor, cursor.q, cursor.q.usedRing
    modifies ParkedSet(ctrl.asyncCmds)`w, ParkedSet(ctrl.asyncCmds)`unmaps, ParkedSet(ctrl.asyncCmds)`mapped
    modifies ParkedSet(ctrl.asyncCmds)`refcount, ParkedSet(ctrl.asyncCmds)`freed
    ensures ctrl.Valid() && ctrl.asyncCmds == [] && ctrl.q.fetched == |ctrl.q.offered| == |old(ctrl.q.offered)|
    ensures cursor.Valid() && cursor.asyncCmds == [] && cursor.q.fetched == |cursor.q.offered| == |old(cursor.q.offered)|
    ensures ctrl.answered == old(ctrl.answered) + Reqs(old(ctrl.asyncCmds)) + ctrl.taken[|old(ctrl.taken)|..]
    ensures cursor.answered == old(cursor.answered) + cursor.taken[|old(cursor.taken)|..]
    ensures ctrl.replies == old(ctrl.replies) + Replies(old(ctrl.asyncCmds)) + Plain(|ctrl.taken| - |old(ctrl.taken)|)
    ensures cursor.replies == old(cursor.replies) + Plain(|cursor.taken| - |old(cursor.taken)|)
    ensures flushed == |ctrl.answered| - |old(ctrl.answered)| + |cursor.answered| - |old(cursor.answered)|
    ensures kickCtrl == (ctrl.answered != old(ctrl.answered)) && kickCursor == (cursor.answered != old(cursor.answered))
  {
    hide Control.Settled;
    ParkedTaken(ctrl);
    var first := ctrl.DrainOnce(ctrlTable);
    var second := cursor.DrainOnce(cursorTable);
    assert old(cursor.answered) + Reqs(old(cursor.asyncCmds)) == old(cursor.answered);
    assert old(cursor.replies) + Replies(old(cursor.asyncCmds)) == old(cursor.replies);
    flushed, kickCtrl, kickCursor := first + second, first > 0, second > 0;
  }
}

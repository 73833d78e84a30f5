/**
 The command stream end to end. Nothing on the wire says whether patches follow a command:
 the proxy (gpu_device_serve_ctrl) and the renderer (rvgpu_pr_dispatch) each decide it from
 their own resource table, so the stream can be parsed only while the tables mirror each
 other.
 */
module CommandStream {
  import opened Bytes
  import opened Commands
  import opened PatchCodec
  import opened ProxyResources
  import opened TransferSize

  const RVGPU_HEADER_SIZE := 16
  const RVGPU_CURSOR: byte := 16

  /** Guest memory at one moment, all of it mapped, the format tables, and what a command union held before. */
  type Memory = nat -> byte
  type Formats = u32 -> FormatInfo
  type Stale = nat -> u32

  // ----- the proxy -----

  /** struct rvgpu_header */
  function RvgpuHeader(size: u32, cursor: bool, bpp: u32, stride: u32): (h: seq<byte>)
    ensures |h| == RVGPU_HEADER_SIZE
  {
    U32Bytes(size) + [0, 0, if cursor then RVGPU_CURSOR else 0, 0] + U32Bytes(bpp) + U32Bytes(stride)
  }

  function Fragment(mem: Memory, v: Iov): (f: seq<byte>)
    ensures |f| == v.len
  {
    seq(v.len, i requires 0 <= i < v.len => mem(v.base + i))
  }

  function Fragments(mem: Memory, iovs: seq<Iov>): seq<seq<byte>> {
    if iovs == [] then [] else [Fragment(mem, iovs[0])] + Fragments(mem, iovs[1..])
  }

  lemma {:induction false} FragmentsLength(mem: Memory, iovs: seq<Iov>)
    ensures |Flat(Fragments(mem, iovs))| == Total(iovs)
  {
    if iovs != [] {
      FragmentsLength(mem, iovs[1..]);
      assert Fragments(mem, iovs)[1..] == Fragments(mem, iovs[1..]);
    }
  }

  function LengthOf(r: Res, fmt: Formats, args: TransferArgs): nat {
    TransferLength(r.target, r.width, r.height, fmt(r.format), args)
  }

  /** gpu_device_send_res: patches only for a resource with a backing. */
  function XferBytes(s: Resources, mem: Memory, fmt: Formats, x: Xfer): seq<byte> {
    match Find(s.list, x.id)
    case None => []
    case Some(r) =>
      if r.backing.None? then []
      else Transfer(Fragments(mem, r.backing.value), x.args.offset, LengthOf(r, fmt, x.args))
  }

  function XfersBytes(s: Resources, mem: Memory, fmt: Formats, xs: seq<Xfer>): seq<byte> {
    if xs == [] then [] else XferBytes(s, mem, fmt, xs[0]) + XfersBytes(s, mem, fmt, xs[1..])
  }

  function Iovs(entries: seq<MemEntry>): (iovs: seq<Iov>)
    ensures |iovs| == |entries|
  {
    seq(|entries|, i requires 0 <= i < |entries| => Iov(entries[i].addr, entries[i].length))
  }

  function XferResponse(s: Resources, id: u32): Response {
    match Find(s.list, id)
    case None => ErrResourceId
    case Some(r) => if r.backing.None? then ErrParameter else OkNodata
  }

  /** The response of SUBMIT_3D is that of its last transfer. */
  function XfersResponse(s: Resources, xs: seq<Xfer>): Response {
    if xs == [] then OkNodata else XferResponse(s, xs[|xs| - 1].id)
  }

  /** What serving one request leaves behind: the table, the bytes sent and to whom, the answer. */
  datatype Served = Served(s: Resources, sent: seq<byte>, toAll: bool, resp: Response)

  /** get_meta_res_from_cmd, for a resource that exists. */
  function MetaBpp(r: Res, fmt: Formats): u32 {
    var f := fmt(r.format);
    if f.Plain? then f.bpp else 0
  }

  /** What the header of a read back says of the resource. */
  datatype Meta = Meta(bpp: u32, stride: u32)

  function MetaOf(r: Res, fmt: Formats, args: TransferArgs): Meta {
    Meta(MetaBpp(r, fmt), Stride(Shr(r.width, args.level), MetaBpp(r, fmt), args.stride))
  }

  function Serve(s: Resources, b: seq<byte>, cursor: bool, mem: Memory, fmt: Formats, stale: Stale): Served {
    if !Passes(b, cursor) then
      Served(s, [], true, Sanity(Seen(b, cursor), cursor, true))
    else
      SaneOnBothEnds(b, cursor);
      ServeCmd(s, CmdOf(b, cursor), |Seen(b, cursor)|, b, cursor, mem, fmt, stale)
  }

  function Changed(after: (Resources, Response), sent: seq<byte>): Served {
    Served(after.0, sent, true, after.1)
  }

  /** The header says the size that was checked; the whole request follows it. */
  function ServeCmd(s: Resources, c: Cmd, size: u32, b: seq<byte>, cursor: bool, mem: Memory, fmt: Formats,
                    stale: Stale): Served
  {
    var plain := RvgpuHeader(size, cursor, 0, 0) + b;
    match c
    case Create(id, target, format, width, height) =>
      Changed(AddRes(s, Res(id, target, format, width, height, None)), plain)
    case Unref(id) => Changed(DropRes(s, id), plain)
    case Attach(id, entries) => Changed(AttachRes(s, id, Iovs(entries)), plain)
    case Detach(id) => Changed(DetachRes(s, id), plain)
    case ToHost(id, args) =>
      Served(s, plain + XferBytes(s, mem, fmt, Xfer(id, args)), true, XferResponse(s, id))
    case FromHost(id, args) =>
      (match Find(s.list, id)
       case Some(r) =>
         var meta := MetaOf(r, fmt, args);
         Served(s, RvgpuHeader(size, cursor, meta.bpp, meta.stride) + b, false, OkNodata)
       case None => Served(s, plain, false, OkNodata))  // the code would dereference NULL
    case Submit(words) =>
      var xs := Walk(words, stale, 0);
      Served(s, plain + XfersBytes(s, mem, fmt, xs), true, XfersResponse(s, xs))
    case SetScanout(_, _, _) => Served(s, plain, true, OkNodata)
    case Other => Served(s, plain, true, OkNodata)
  }

  // ----- the renderer -----

  /** A virgl resource: its size, and the one flat iovec attached to it, if any. */
  datatype VRes = VRes(width: u32, height: u32, buf: Option<seq<byte>>)
  type Table = map<u32, VRes>

  /** loaded is what load_resource returns; without it the caller looks at nothing more. */
  datatype Loading = Going(t: Table, rest: seq<byte>, loaded: bool) | Died

  /** load_resource: when the stream ends inside a patch, what has come is kept all the same. */
  function LoadRes(t: Table, id: u32, s: seq<byte>): (l: Loading)
    ensures l.Going? ==> |l.rest| <= |s|
  {
    if id !in t || t[id].buf.None? then Going(t, s, false)
    else match Load(t[id].buf.value, s)
      case Loaded(buf, rest) => Going(t[id := t[id].(buf := Some(buf))], rest, true)
      case WrongPatch => Died
      case Closed(buf) => Going(t[id := t[id].(buf := Some(buf))], [], false)
  }

  /** rvgpu_handle_submit_3d: it uses the resource ids only. */
  function LoadEach(t: Table, ids: seq<u32>, s: seq<byte>): (l: Loading)
    ensures l.Going? ==> |l.rest| <= |s|
    decreases |ids|
  {
    if ids == [] then Going(t, s, true)
    else match LoadRes(t, ids[0], s)
      case Died => Died
      case Going(t', rest, _) => LoadEach(t', ids[1..], rest)
  }

  lemma {:induction false} LoadEachAppend(t: Table, a: seq<u32>, b: seq<u32>, s: seq<byte>)
    requires LoadEach(t, a, s).Going?
    ensures var l := LoadEach(t, a, s); LoadEach(t, a + b, s) == LoadEach(l.t, b, l.rest)
    decreases |a|
  {
    if a == [] {
      assert a + b == b;
    } else {
      var l := LoadRes(t, a[0], s);
      assert (a + b)[1..] == a[1..] + b;
      LoadEachAppend(l.t, a[1..], b, l.rest);
    }
  }

  /** sanity_check_resource_rect and sanity_check_resource_box: depth is not looked at. */
  predicate BoxInside(box: Box, width: u32, height: u32) {
    box.x + box.w <= width && box.y + box.h <= height
  }

  /** upload_resource would send what does not lie in the buffer. The write then fails, which ends the renderer, or
      takes memory that is not the resource's, which is taken for its end here too. */
  predicate ReadsOutside(args: TransferArgs, total: nat, meta: Meta) {
    Cut32(args.offset) > total && Length2d(meta.stride, meta.bpp, args.box) != 0
  }

  /** rvgpu_render enables scanout 0 and no other. */
  predicate ScanoutEnabled(scanout: u32) {
    scanout == 0
  }

  function Zeros(n: nat): seq<byte> {
    seq(n, i => 0)
  }

  function TotalLength(entries: seq<MemEntry>): nat {
    Total(Iovs(entries))
  }

  datatype Step =
    | Dispatched(t: Table, b: seq<byte>, cursor: bool, rest: seq<byte>)
    | EndOfStream
    | Exit  // err() or errx(): the renderer process ends

  function ToStep(l: Loading, b: seq<byte>, cursor: bool): Step {
    match l
    case Died => Exit
    case Going(t, rest, _) => Dispatched(t, b, cursor, rest)
  }

  datatype Fetching = Fetched(b: seq<byte>, cursor: bool, meta: Meta, rest: seq<byte>) | NoMore | Bad

  /** The head of the loop of rvgpu_pr_dispatch: header, command, sanity check. */
  function Fetch(s: seq<byte>): (r: Fetching)
    ensures r.Fetched? ==> |r.rest| < |s| && |r.b| <= MAX_CMD_SIZE && Sanity(r.b, r.cursor, false) == OkNodata
  {
    if |s| < RVGPU_HEADER_SIZE then NoMore
    else
      var size := U32At(s, 0);
      var cursor := (s[6] as int / 16) % 2 == 1;
      var after := s[RVGPU_HEADER_SIZE..];
      if size > MAX_CMD_SIZE then Bad
      else if |after| < size then (if after == [] then NoMore else Bad)
      else if Sanity(after[..size], cursor, false) != OkNodata then Bad
      else Fetched(after[..size], cursor, Meta(U32At(s, 8), U32At(s, 12)), after[size..])
  }

  /** One turn of the loop. */
  function Dispatch(t: Table, s: seq<byte>, stale: Stale): (r: Step)
    ensures r.Dispatched? ==> |r.rest| < |s| && |r.b| <= MAX_CMD_SIZE
  {
    match Fetch(s)
    case NoMore => EndOfStream
    case Bad => Exit
    case Fetched(b, cursor, meta, rest) => Execute(t, Parse(b, cursor), b, cursor, meta, rest, stale)
  }

  /** The switch of rvgpu_pr_dispatch on the command c read from b. */
  function Execute(t: Table, c: Cmd, b: seq<byte>, cursor: bool, meta: Meta, rest: seq<byte>, stale: Stale): (r: Step)
    ensures r.Dispatched? ==> |r.rest| <= |rest| && r.b == b && r.cursor == cursor
  {
    match c
    case Create(id, _, _, width, height) => Dispatched(t[id := VRes(width, height, None)], b, cursor, rest)
    case Unref(id) => Dispatched(t - {id}, b, cursor, rest)
    case Attach(id, entries) =>
      if TotalLength(entries) == 0 || id !in t || t[id].buf.Some? then Exit
      else Dispatched(t[id := t[id].(buf := Some(Zeros(TotalLength(entries))))], b, cursor, rest)
    case Detach(id) =>
      Dispatched(if id in t then t[id := t[id].(buf := None)] else t, b, cursor, rest)
    case ToHost(id, args) =>
      (match LoadRes(t, id, rest)
       case Died => Exit
       case Going(t', rest', loaded) =>
         if loaded && id in t && !BoxInside(args.box, t[id].width, t[id].height) then Exit
         else Dispatched(t', b, cursor, rest'))
    case FromHost(id, args) =>
      if id !in t || !BoxInside(args.box, t[id].width, t[id].height) || t[id].buf.None?
         || ReadsOutside(args, |t[id].buf.value|, meta)
      then Exit
      else Dispatched(t, b, cursor, rest)
    case Submit(words) => ToStep(LoadEach(t, Ids(Walk(words, stale, 0)), rest), b, cursor)
    case SetScanout(scanout, id, box) =>
      if ScanoutEnabled(scanout) && id != 0 && id in t && !BoxInside(box, t[id].width, t[id].height) then Exit
      else Dispatched(t, b, cursor, rest)
    case Other => Dispatched(t, b, cursor, rest)
  }

  // ----- the mirror -----

  function Lookup(t: Table, id: u32): Option<VRes> {
    if id in t then Some(t[id]) else None
  }

  /** The proxy's entry for a resource and the renderer's agree. */
  ghost predicate Agree(r: Option<Res>, v: Option<VRes>) {
    match (r, v)
    case (None, None) => true
    case (Some(r), Some(v)) =>
      && r.width == v.width && r.height == v.height
      && (match (r.backing, v.buf)
          case (None, None) => true
          case (Some(iovs), Some(buf)) => Total(iovs) == |buf| < U32_LIMIT
          case _ => false)
    case _ => false
  }

  /** For every resource: backing on the proxy iff an iovec on the renderer, of equal length. */
  ghost predicate Mirror(s: Resources, t: Table) {
    forall id: u32 :: Agree(Find(s.list, id), Lookup(t, id))
  }

  // ----- what is asked of the driver -----

  /** Ids are created once, read back only while live, and the 32-bit fields do not overflow. */
  ghost predicate Fits(s: Resources, c: Cmd) {
    match c
    case Create(id, _, _, _, _) => Find(s.list, id).None?
    case Attach(id, entries) => TotalLength(entries) < U32_LIMIT
    case FromHost(id, _) => Find(s.list, id).Some?
    case _ => true
  }

  ghost predicate Backed(s: Resources, id: u32) {
    Find(s.list, id).Some? && Find(s.list, id).value.backing.Some?
  }

  /** No backing is 2^32 bytes long or longer. */
  ghost predicate Small(s: Resources) {
    forall id: u32 :: Backed(s, id) ==> Total(Find(s.list, id).value.backing.value) < U32_LIMIT
  }

  predicate Pixel(box: Box, px: nat, py: nat) {
    box.x <= px < box.x + box.w && box.y <= py < box.y + box.h
  }

  /** Every pixel of the box is one of a resource of this size. */
  ghost predicate PixelsInside(box: Box, width: u32, height: u32) {
    forall px: nat, py: nat :: Pixel(box, px, py) ==> px < width && py < height
  }

  /** So the renderer's check says, of a box that has any. */
  lemma BoxInsidePixels(box: Box, width: u32, height: u32)
    requires 1 <= box.w && 1 <= box.h
    ensures BoxInside(box, width, height) <==> PixelsInside(box, width, height)
  {
    assert Pixel(box, box.x + box.w - 1, box.y + box.h - 1);
  }

  /** The sanity check lets no other through. */
  lemma BoxesNotEmpty(b: seq<byte>, cursor: bool)
    requires Passes(b, cursor)
    ensures var c := CmdOf(b, cursor);
            && (c.ToHost? || c.FromHost? ==> 1 <= c.args.box.w && 1 <= c.args.box.h)
            && (c.SetScanout? && c.id != 0 ==> 1 <= c.box.w && 1 <= c.box.h)
  {
  }

  ghost predicate Inbounds(s: Resources, id: u32, box: Box) {
    Find(s.list, id).Some? && PixelsInside(box, Find(s.list, id).value.width, Find(s.list, id).value.height)
  }

  /**
   The condition under which the two ends stay together: a guest can check it before the
   call, and the proxy does not.
   */
  ghost predicate Proper(s: Resources, fmt: Formats, c: Cmd) {
    match c
    case Attach(id, entries) =>
      && Find(s.list, id).Some? && !Backed(s, id)
      && 0 < TotalLength(entries)
      && (s.max != 0 ==> s.curr + TotalLength(entries) <= s.max)
    case ToHost(id, args) => Backed(s, id) ==> Inbounds(s, id, args.box)
    case FromHost(id, args) =>
      && Backed(s, id) && Inbounds(s, id, args.box)
      && var r := Find(s.list, id).value;
         !ReadsOutside(args, Total(r.backing.value), MetaOf(r, fmt, args))
    case Submit(words) => IdsEnclosed(words, 0) || forall id: u32 :: !Backed(s, id)
    case SetScanout(scanout, id, box) =>
      scanout == 0 && id != 0 && Find(s.list, id).Some? ==> Inbounds(s, id, box)
    case _ => true
  }

  /** And the request is shorter than 2^32 bytes, so that all of it was checked. */
  ghost predicate ProperRequest(s: Resources, fmt: Formats, b: seq<byte>, cursor: bool)
    requires Passes(b, cursor)
  {
    |b| < U32_LIMIT && Proper(s, fmt, CmdOf(b, cursor))
  }

  // ----- one command -----

  lemma XferSync(s: Resources, t: Table, mem: Memory, fmt: Formats, x: Xfer, rest: seq<byte>)
    requires Mirror(s, t)
    ensures var l := LoadRes(t, x.id, XferBytes(s, mem, fmt, x) + rest);
            l.Going? && l.rest == rest && Mirror(s, l.t) && (l.loaded <==> Backed(s, x.id))
  {
    assert Agree(Find(s.list, x.id), Lookup(t, x.id));
    if Backed(s, x.id) {
      var r := Find(s.list, x.id).value;
      FragmentsLength(mem, r.backing.value);
      PatchRoundTrip(Fragments(mem, r.backing.value), x.args.offset, LengthOf(r, fmt, x.args), t[x.id].buf.value, rest);
      var l := LoadRes(t, x.id, XferBytes(s, mem, fmt, x) + rest);
      forall id: u32
        ensures Agree(Find(s.list, id), Lookup(l.t, id))
      {
        assert Agree(Find(s.list, id), Lookup(t, id));
      }
    } else {
      assert [] + rest == rest;
    }
  }

  lemma {:induction false} XfersSync(s: Resources, t: Table, mem: Memory, fmt: Formats, xs: seq<Xfer>,
                                     rest: seq<byte>)
    requires Mirror(s, t)
    ensures var l := LoadEach(t, Ids(xs), XfersBytes(s, mem, fmt, xs) + rest);
            l.Going? && l.rest == rest && Mirror(s, l.t)
    decreases |xs|
  {
    if xs == [] {
      assert [] + rest == rest;
    } else {
      var tail := XfersBytes(s, mem, fmt, xs[1..]) + rest;
      Assoc(XferBytes(s, mem, fmt, xs[0]), XfersBytes(s, mem, fmt, xs[1..]), rest);
      XferSync(s, t, mem, fmt, xs[0], tail);
      XfersSync(s, LoadRes(t, xs[0].id, XferBytes(s, mem, fmt, xs[0]) + tail).t, mem, fmt, xs[1..], rest);
    }
  }

  lemma RvgpuHeaderFields(size: u32, cursor: bool, bpp: u32, stride: u32, tail: seq<byte>)
    ensures var s := RvgpuHeader(size, cursor, bpp, stride) + tail;
            && U32At(s, 0) == size && U32At(s, 8) == bpp && U32At(s, 12) == stride && s[RVGPU_HEADER_SIZE..] == tail
            && ((s[6] as int / 16) % 2 == 1 <==> cursor)
  {
    var s := RvgpuHeader(size, cursor, bpp, stride) + tail;
    assert s[0..4] == U32Bytes(size) && s[8..12] == U32Bytes(bpp) && s[12..16] == U32Bytes(stride);
    U32RoundTrip(s, 0, size);
    U32RoundTrip(s, 8, bpp);
    U32RoundTrip(s, 12, stride);
    assert s[6] == if cursor then RVGPU_CURSOR else 0;
  }

  /** The renderer takes as many bytes off the stream as were checked, and they pass its own check. */
  lemma HeaderParsed(b: seq<byte>, cursor: bool, bpp: u32, stride: u32, tail: seq<byte>)
    requires Passes(b, cursor)
    ensures var c := Seen(b, cursor);
            && Sanity(c, cursor, false) == OkNodata && |c| <= |b| && |c| < U32_LIMIT
            && Fetch(RvgpuHeader(|c|, cursor, bpp, stride) + b + tail)
               == Fetched(c, cursor, Meta(bpp, stride), b[|c|..] + tail)
  {
    hide Sanity;
    var c := Seen(b, cursor);
    SaneOnBothEnds(b, cursor);
    RvgpuHeaderFields(|c|, cursor, bpp, stride, b + tail);
    Assoc(RvgpuHeader(|c|, cursor, bpp, stride), b, tail);
    assert (b + tail)[..|c|] == c && (b + tail)[|c|..] == b[|c|..] + tail;
  }

  /** A request that was checked as a whole is taken as a whole. */
  lemma WholeParsed(b: seq<byte>, cursor: bool, bpp: u32, stride: u32, tail: seq<byte>)
    requires Passes(b, cursor) && |b| < U32_LIMIT
    ensures Sanity(b, cursor, false) == OkNodata && CmdOf(b, cursor) == Parse(b, cursor) && Seen(b, cursor) == b
    ensures Fetch(RvgpuHeader(|b|, cursor, bpp, stride) + b + tail) == Fetched(b, cursor, Meta(bpp, stride), tail)
  {
    hide Sanity, Parse;
    SeenAll(b, cursor);
    HeaderParsed(b, cursor, bpp, stride, tail);
    assert b[|b|..] + tail == tail;
  }

  /** The resources the driver's command leaves, and what the renderer then finds. */
  lemma FrameAgree(s: Resources, t: Table, s': Resources, t': Table, id: u32)
    requires Mirror(s, t) && Agree(Find(s'.list, id), Lookup(t', id))
    requires forall other: u32 :: other != id ==>
               Find(s'.list, other) == Find(s.list, other) && Lookup(t', other) == Lookup(t, other)
    ensures Mirror(s', t')
  {
    forall other: u32
      ensures Agree(Find(s'.list, other), Lookup(t', other))
    {
      if other != id {
        assert Agree(Find(s.list, other), Lookup(t, other));
      }
    }
  }

  lemma AttachSync(s: Resources, t: Table, id: u32, entries: seq<MemEntry>, b: seq<byte>, cursor: bool,
                   meta: Meta, fmt: Formats, rest: seq<byte>, stale: Stale)
    requires Accounted(s) && Mirror(s, t) && TotalLength(entries) < U32_LIMIT
    ensures var r, s' := Execute(t, Attach(id, entries), b, cursor, meta, rest, stale), AttachRes(s, id, Iovs(entries)).0;
            (r.Dispatched? && r.b == b && r.cursor == cursor && r.rest == rest && Mirror(s', r.t))
            <==> Proper(s, fmt, Attach(id, entries))
  {
    var r, s' := Execute(t, Attach(id, entries), b, cursor, meta, rest, stale), AttachRes(s, id, Iovs(entries)).0;
    assert Agree(Find(s.list, id), Lookup(t, id));
    if r.Dispatched? {
      if s' == s {
        assert !Agree(Find(s'.list, id), Lookup(r.t, id));
      } else {
        SetBackingEffect(s.list, id, Some(Iovs(entries)));
        FrameAgree(s, t, s', r.t, id);
      }
    }
  }

  /** Both ends drop or change the entry for one resource alike. */
  lemma TableSync(s: Resources, t: Table, b: seq<byte>, cursor: bool, meta: Meta, mem: Memory, fmt: Formats,
                  rest: seq<byte>, mine: Stale, stale: Stale)
    requires Accounted(s) && Mirror(s, t) && Passes(b, cursor)
    requires var c := CmdOf(b, cursor); c.Unref? || c.Detach? || (c.Create? && Find(s.list, c.id).None?)
    ensures var r := Execute(t, CmdOf(b, cursor), b, cursor, meta, rest, stale);
            && r.Dispatched? && r.b == b && r.cursor == cursor && r.rest == rest
            && Mirror(Serve(s, b, cursor, mem, fmt, mine).s, r.t)
  {
    var c := CmdOf(b, cursor);
    var s', t' := Serve(s, b, cursor, mem, fmt, mine).s, Execute(t, c, b, cursor, meta, rest, stale).t;
    assert Agree(Find(s.list, c.id), Lookup(t, c.id));
    if Find(s.list, c.id).Some? {
      if c.Unref? {
        RemoveEffect(s.list, c.id);
      } else if Find(s.list, c.id).value.backing.Some? {
        SetBackingEffect(s.list, c.id, None);
      }
    }
    FrameAgree(s, t, s', t', c.id);
  }

  lemma ToHostSync(s: Resources, t: Table, id: u32, args: TransferArgs, b: seq<byte>, cursor: bool,
                   meta: Meta, mem: Memory, fmt: Formats, rest: seq<byte>, stale: Stale)
    requires Mirror(s, t) && 1 <= args.box.w && 1 <= args.box.h
    ensures var r := Execute(t, ToHost(id, args), b, cursor, meta, XferBytes(s, mem, fmt, Xfer(id, args)) + rest, stale);
            (r.Dispatched? && r.b == b && r.cursor == cursor && r.rest == rest && Mirror(s, r.t))
            <==> Proper(s, fmt, ToHost(id, args))
  {
    XferSync(s, t, mem, fmt, Xfer(id, args), rest);
    assert Agree(Find(s.list, id), Lookup(t, id));
    if Find(s.list, id).Some? {
      BoxInsidePixels(args.box, Find(s.list, id).value.width, Find(s.list, id).value.height);
    }
  }

  lemma FromHostSync(s: Resources, t: Table, id: u32, args: TransferArgs, b: seq<byte>, cursor: bool,
                     fmt: Formats, rest: seq<byte>, stale: Stale)
    requires Mirror(s, t) && 1 <= args.box.w && 1 <= args.box.h && Find(s.list, id).Some?
    ensures var r := Execute(t, FromHost(id, args), b, cursor, MetaOf(Find(s.list, id).value, fmt, args), rest, stale);
            if Proper(s, fmt, FromHost(id, args)) then r == Dispatched(t, b, cursor, rest) else r == Exit
  {
    hide ReadsOutside, MetaOf, PixelsInside, BoxInside;
    BoxInsidePixels(args.box, Find(s.list, id).value.width, Find(s.list, id).value.height);
    assert Agree(Find(s.list, id), Lookup(t, id));
  }

  lemma ScanoutSync(s: Resources, t: Table, scanout: u32, id: u32, box: Box, b: seq<byte>, cursor: bool,
                    meta: Meta, fmt: Formats, rest: seq<byte>, stale: Stale)
    requires Mirror(s, t) && (id != 0 ==> 1 <= box.w && 1 <= box.h)
    ensures var r := Execute(t, SetScanout(scanout, id, box), b, cursor, meta, rest, stale);
            if Proper(s, fmt, SetScanout(scanout, id, box)) then r == Dispatched(t, b, cursor, rest) else r == Exit
  {
    hide PixelsInside, BoxInside;
    if id != 0 && Find(s.list, id).Some? {
      BoxInsidePixels(box, Find(s.list, id).value.width, Find(s.list, id).value.height);
    }
    assert Agree(Find(s.list, id), Lookup(t, id));
  }

  /** The renderer took exactly this command off the stream and the tables still mirror each other. */
  ghost predicate InSync(r: Step, b: seq<byte>, cursor: bool, rest: seq<byte>, s: Resources) {
    r.Dispatched? && r.b == b && r.cursor == cursor && r.rest == rest && Mirror(s, r.t)
  }

  /** Serving a command and dispatching it keeps the two ends in step, with this left in the two command unions. */
  ghost predicate Keeps(s: Resources, t: Table, b: seq<byte>, cursor: bool, mem: Memory, fmt: Formats,
                        rest: seq<byte>, mine: Stale, yours: Stale) {
    var served := Serve(s, b, cursor, mem, fmt, mine);
    InSync(Dispatch(t, served.sent + rest, yours), b, cursor, rest, served.s)
  }

  lemma {:induction false} XfersBytesSnoc(s: Resources, mem: Memory, fmt: Formats, xs: seq<Xfer>, x: Xfer)
    ensures XfersBytes(s, mem, fmt, xs + [x]) == XfersBytes(s, mem, fmt, xs) + XferBytes(s, mem, fmt, x)
    decreases |xs|
  {
    if xs == [] {
      assert XfersBytes(s, mem, fmt, [x]) == XferBytes(s, mem, fmt, x) + [];
    } else {
      assert (xs + [x])[1..] == xs[1..] + [x];
      XfersBytesSnoc(s, mem, fmt, xs[1..], x);
      Assoc(XferBytes(s, mem, fmt, xs[0]), XfersBytes(s, mem, fmt, xs[1..]), XferBytes(s, mem, fmt, x));
    }
  }

  /** Without any backing no patches are sent and none are expected, whatever the ids. */
  lemma {:induction false} NoneSent(s: Resources, mem: Memory, fmt: Formats, xs: seq<Xfer>)
    requires forall id: u32 :: !Backed(s, id)
    ensures XfersBytes(s, mem, fmt, xs) == []
  {
    if xs != [] {
      NoneSent(s, mem, fmt, xs[1..]);
      assert !Backed(s, xs[0].id);
    }
  }

  lemma {:induction false} NoneLoaded(s: Resources, t: Table, ids: seq<u32>, rest: seq<byte>)
    requires Mirror(s, t) && forall id: u32 :: !Backed(s, id)
    ensures LoadEach(t, ids, rest) == Going(t, rest, true)
  {
    if ids != [] {
      assert Agree(Find(s.list, ids[0]), Lookup(t, ids[0])) && !Backed(s, ids[0]);
      NoneLoaded(s, t, ids[1..], rest);
    }
  }

  lemma SubmitKeeps(s: Resources, t: Table, words: seq<u32>, mem: Memory, fmt: Formats, rest: seq<byte>,
                    mine: Stale, yours: Stale)
    requires Mirror(s, t) && Proper(s, fmt, Submit(words))
    ensures var l := LoadEach(t, Ids(Walk(words, yours, 0)), XfersBytes(s, mem, fmt, Walk(words, mine, 0)) + rest);
            l.Going? && l.rest == rest && Mirror(s, l.t)
  {
    if IdsEnclosed(words, 0) {
      IdsAgree(words, mine, yours, 0);
      XfersSync(s, t, mem, fmt, Walk(words, mine, 0), rest);
    } else {
      NoneSent(s, mem, fmt, Walk(words, mine, 0));
      NoneLoaded(s, t, Ids(Walk(words, yours, 0)), rest);
      assert [] + rest == rest;
    }
  }

  lemma PatchesNotEmpty(s: Resources, mem: Memory, fmt: Formats, x: Xfer)
    requires Backed(s, x.id)
    ensures |XferBytes(s, mem, fmt, x)| > 0
  {
  }

  /** The proxy reads the id of a backed resource behind the end of the buffer, and the renderer one of no resource:
      the patches stay in the stream, where the renderer takes them for its next command. */
  lemma SubmitBreaks(s: Resources, t: Table, words: seq<u32>, id: u32, mem: Memory, fmt: Formats, rest: seq<byte>)
    requires Mirror(s, t) && !IdsEnclosed(words, 0) && Backed(s, id) && Find(s.list, 0).None?
    ensures var l := LoadEach(t, Ids(Walk(words, _ => 0, 0)), XfersBytes(s, mem, fmt, Walk(words, _ => id, 0)) + rest);
            l.Going? && |l.rest| > |rest|
  {
    hide Walk, XfersBytes, IdsBefore, IdsEnclosed, Transfer;
    var mine: Stale, yours: Stale := _ => id, _ => 0;
    var xs, before := Walk(words, mine, 0), IdsBefore(words, 0);
    IdsDisagree(words, mine, id, 0);
    IdsDisagree(words, yours, 0, 0);
    var head, last := xs[..|xs| - 1], xs[|xs| - 1];
    assert xs == head + [last];
    IdsAppend(head, [last]);
    assert Ids([last]) == [last.id];
    assert Ids(head) == before && last.id == id by {
      assert (Ids(head) + [last.id])[|before|] == (before + [id])[|before|];
      assert Ids(head) == (Ids(head) + [last.id])[..|before|];
    }
    var patches := XferBytes(s, mem, fmt, last);
    XfersBytesSnoc(s, mem, fmt, head, last);
    Assoc(XfersBytes(s, mem, fmt, head), patches, rest);
    XfersSync(s, t, mem, fmt, head, patches + rest);
    LoadEachAppend(t, before, [0], XfersBytes(s, mem, fmt, xs) + rest);
    var l := LoadEach(t, before, XfersBytes(s, mem, fmt, xs) + rest);
    assert Agree(Find(s.list, 0), Lookup(l.t, 0));
    PatchesNotEmpty(s, mem, fmt, last);
  }

  /** A proper request keeps the two ends in step, whatever the command unions held before. */
  lemma ProperKeeps(s: Resources, t: Table, b: seq<byte>, cursor: bool, mem: Memory, fmt: Formats,
                    rest: seq<byte>, mine: Stale, yours: Stale)
    requires Accounted(s) && Mirror(s, t) && Passes(b, cursor)
    requires Fits(s, CmdOf(b, cursor)) && ProperRequest(s, fmt, b, cursor)
    ensures Keeps(s, t, b, cursor, mem, fmt, rest, mine, yours)
  {
    if CmdOf(b, cursor).Submit? {
      var words := CmdOf(b, cursor).words;
      var sent := XfersBytes(s, mem, fmt, Walk(words, mine, 0));
      Assoc(RvgpuHeader(|b|, cursor, 0, 0) + b, sent, rest);
      WholeParsed(b, cursor, 0, 0, sent + rest);
      SubmitKeeps(s, t, words, mem, fmt, rest, mine, yours);
    } else {
      OtherInSync(s, t, b, cursor, mem, fmt, rest, mine, yours);
    }
  }

  /** For all but SUBMIT_3D they do not matter either way. */
  lemma OtherInSync(s: Resources, t: Table, b: seq<byte>, cursor: bool, mem: Memory, fmt: Formats,
                    rest: seq<byte>, mine: Stale, yours: Stale)
    requires Accounted(s) && Mirror(s, t) && Passes(b, cursor) && |b| < U32_LIMIT
    requires Fits(s, CmdOf(b, cursor)) && !CmdOf(b, cursor).Submit?
    ensures Keeps(s, t, b, cursor, mem, fmt, rest, mine, yours) <==> Proper(s, fmt, CmdOf(b, cursor))
  {
    BoxesNotEmpty(b, cursor);
    hide Sanity, Parse, Fetch, RvgpuHeader, BoxInside, PixelsInside, ReadsOutside, XferBytes;
    var c, none := CmdOf(b, cursor), Meta(0, 0);
    WholeParsed(b, cursor, 0, 0, rest);
    match c {
      case Create(_, _, _, _, _) => TableSync(s, t, b, cursor, none, mem, fmt, rest, mine, yours);
      case Unref(_) => TableSync(s, t, b, cursor, none, mem, fmt, rest, mine, yours);
      case Detach(_) => TableSync(s, t, b, cursor, none, mem, fmt, rest, mine, yours);
      case Attach(id, entries) => AttachSync(s, t, id, entries, b, cursor, none, fmt, rest, yours);
      case ToHost(id, args) =>
        var patches := XferBytes(s, mem, fmt, Xfer(id, args));
        Assoc(RvgpuHeader(|b|, cursor, 0, 0) + b, patches, rest);
        WholeParsed(b, cursor, 0, 0, patches + rest);
        ToHostSync(s, t, id, args, b, cursor, none, mem, fmt, rest, yours);
      case FromHost(id, args) =>
        var meta := MetaOf(Find(s.list, id).value, fmt, args);
        WholeParsed(b, cursor, meta.bpp, meta.stride, rest);
        FromHostSync(s, t, id, args, b, cursor, fmt, rest, yours);
      case SetScanout(scanout, id, box) => ScanoutSync(s, t, scanout, id, box, b, cursor, none, fmt, rest, yours);
      case Other =>
    }
  }

  /** A transfer of the whole resource is proper, in either direction. */
  lemma WholeProper(s: Resources, fmt: Formats, id: u32, args: TransferArgs)
    requires Backed(s, id)
    requires var r := Find(s.list, id).value;
             args.box.x == args.box.y == 0 && args.box.w == r.width && args.box.h == r.height
    ensures Proper(s, fmt, ToHost(id, args))
    ensures Cut32(args.offset) <= Total(Find(s.list, id).value.backing.value) ==> Proper(s, fmt, FromHost(id, args))
  {
  }

  /** Of a request of 2^32 bytes or more the renderer takes no more than a command can be long. */
  lemma OversizeBreaks(s: Resources, t: Table, b: seq<byte>, cursor: bool, mem: Memory, fmt: Formats,
                       rest: seq<byte>, mine: Stale, yours: Stale)
    requires |b| >= U32_LIMIT
    ensures !Keeps(s, t, b, cursor, mem, fmt, rest, mine, yours)
  {
    hide Serve;
    assert |b| > MAX_CMD_SIZE;
  }

  /**
   One request. For every request the proxy forwards that fits, in every mirrored state, the
   two ends stay in step, whatever their command unions held before, exactly when the request is
   proper; an improper one makes the renderer exit or breaks the mirror or the framing.
   */
  lemma CommandInSync(s: Resources, t: Table, b: seq<byte>, cursor: bool, mem: Memory, fmt: Formats, rest: seq<byte>)
    requires Accounted(s) && Mirror(s, t) && Find(s.list, 0).None?
    requires Passes(b, cursor) && Fits(s, CmdOf(b, cursor))
    ensures (forall mine: Stale, yours: Stale :: Keeps(s, t, b, cursor, mem, fmt, rest, mine, yours))
            <==> ProperRequest(s, fmt, b, cursor)
  {
    hide Keeps, ProperRequest;
    if ProperRequest(s, fmt, b, cursor) {
      forall mine: Stale, yours: Stale
        ensures Keeps(s, t, b, cursor, mem, fmt, rest, mine, yours)
      {
        ProperKeeps(s, t, b, cursor, mem, fmt, rest, mine, yours);
      }
    } else {
      var mine, yours := ImproperBreaks(s, t, b, cursor, mem, fmt, rest);
    }
  }

  lemma ImproperBreaks(s: Resources, t: Table, b: seq<byte>, cursor: bool, mem: Memory, fmt: Formats, rest: seq<byte>)
    returns (mine: Stale, yours: Stale)
    requires Accounted(s) && Mirror(s, t) && Find(s.list, 0).None?
    requires Passes(b, cursor) && Fits(s, CmdOf(b, cursor)) && !ProperRequest(s, fmt, b, cursor)
    ensures !Keeps(s, t, b, cursor, mem, fmt, rest, mine, yours)
  {
    mine, yours := _ => 0, _ => 0;
    if |b| >= U32_LIMIT {
      OversizeBreaks(s, t, b, cursor, mem, fmt, rest, mine, yours);
    } else if CmdOf(b, cursor).Submit? {
      var words := CmdOf(b, cursor).words;
      var id: u32 :| Backed(s, id);
      mine := _ => id;
      var sent := XfersBytes(s, mem, fmt, Walk(words, mine, 0));
      Assoc(RvgpuHeader(|b|, cursor, 0, 0) + b, sent, rest);
      WholeParsed(b, cursor, 0, 0, sent + rest);
      SubmitBreaks(s, t, words, id, mem, fmt, rest);
    } else {
      OtherInSync(s, t, b, cursor, mem, fmt, rest, mine, yours);
    }
  }

  lemma ZeroRefused(b: seq<byte>, cursor: bool)
    requires Passes(b, cursor)
    ensures CmdOf(b, cursor).Create? ==> CmdOf(b, cursor).id != 0
  {
  }

  /** The sanity check keeps id 0 out of the table. */
  lemma ZeroNeverCreated(s: Resources, b: seq<byte>, cursor: bool, mem: Memory, fmt: Formats, stale: Stale)
    requires Accounted(s) && Find(s.list, 0).None?
    ensures Find(Serve(s, b, cursor, mem, fmt, stale).s.list, 0).None?
  {
    if Passes(b, cursor) {
      ZeroRefused(b, cursor);
      hide Passes, CmdOf;
      match CmdOf(b, cursor) {
        case Unref(id) =>
          if Find(s.list, id).Some? {
            RemoveEffect(s.list, id);
          }
        case Attach(id, entries) =>
          if Find(s.list, id).Some? {
            SetBackingEffect(s.list, id, Some(Iovs(entries)));
          }
        case Detach(id) =>
          if Find(s.list, id).Some? {
            SetBackingEffect(s.list, id, None);
          }
        case _ =>
      }
    }
  }

  /** A transfer is answered with success exactly if its resource has a backing, and then patches, or at least their
      terminator, are sent; else the answer says what is missing. */
  lemma TransferAnswered(s: Resources, mem: Memory, fmt: Formats, x: Xfer)
    ensures XferResponse(s, x.id) == OkNodata <==> Backed(s, x.id)
    ensures Backed(s, x.id) <==> XferBytes(s, mem, fmt, x) != []
    ensures !Backed(s, x.id) ==>
              XferResponse(s, x.id) == if Find(s.list, x.id).None? then ErrResourceId else ErrParameter
  {
  }

  /** The bytes of a backing are the guest's, piece by piece. */
  lemma {:induction false} FragmentsAt(mem: Memory, iovs: seq<Iov>, k: nat, j: nat)
    requires k < |iovs| && j < iovs[k].len
    ensures var full, before := Flat(Fragments(mem, iovs)), Total(iovs[..k]);
            before + j < |full| && full[before + j] == mem(iovs[k].base + j)
    decreases k
  {
    var first, tail := Fragment(mem, iovs[0]), Fragments(mem, iovs[1..]);
    assert Fragments(mem, iovs)[1..] == tail;
    if k > 0 {
      FragmentsAt(mem, iovs[1..], k - 1, j);
      assert iovs[..k][1..] == iovs[1..][..k - 1];
      var at := Total(iovs[1..][..k - 1]) + j;
      assert Flat(Fragments(mem, iovs))[|first| + at] == Flat(tail)[at];
    }
  }

  /** And its pieces are the entries of the attach that went through. */
  lemma AttachedAt(s: Resources, id: u32, entries: seq<MemEntry>, i: nat)
    requires Unique(s.list) && AttachRes(s, id, Iovs(entries)).1 == OkNodata && i < |entries|
    ensures var after := AttachRes(s, id, Iovs(entries)).0;
            && Backed(after, id) && |Find(after.list, id).value.backing.value| == |entries|
            && var v := Find(after.list, id).value.backing.value[i];
               v.base == entries[i].addr && v.len == entries[i].length
  {
    SetBackingEffect(s.list, id, Some(Iovs(entries)));
  }

  /** A request is answered with what the check finds wrong with it; else with success exactly if its resource is there,
      or for a create is not, and has or has not a backing, as the command needs. */
  lemma AnsweredWell(s: Resources, q: Request, fmt: Formats)
    ensures !Sane(q) ==> ServeRequest(s, q, fmt).resp == Sanity(Seen(q.b, q.cursor), q.cursor, true)
    ensures Sane(q) ==>
              (ServeRequest(s, q, fmt).resp == OkNodata <==>
                 match CmdOf(q.b, q.cursor)
                 case Create(id, _, _, _, _) => Find(s.list, id).None?
                 case Unref(id) => Find(s.list, id).Some?
                 case Attach(id, entries) =>
                   && Find(s.list, id).Some? && !Backed(s, id)
                   && (s.max != 0 ==> s.curr + Total(Iovs(entries)) <= s.max)
                 case Detach(id) => Backed(s, id)
                 case ToHost(id, _) => Backed(s, id)
                 case Submit(words) =>
                   var xs := Walk(words, q.stale, 0);
                   xs == [] || Backed(s, xs[|xs| - 1].id)
                 case _ => true)
  {
    hide Sanity, CmdOf, Walk, XferBytes, XfersBytes;
  }

  /** SUBMIT_3D is answered as its last transfer is, and with success if there is none. */
  lemma SubmitAnswered(s: Resources, xs: seq<Xfer>, x: Xfer)
    ensures XfersResponse(s, []) == OkNodata
    ensures XfersResponse(s, xs + [x]) == XferResponse(s, x.id)
  {
  }

  /** How a stream can end: before a command, which is the end, or inside one, which is an error; and so are a command
      that is too long or that the check refuses. */
  lemma StreamEnds(t: Table, size: u32, cursor: bool, bpp: u32, stride: u32, part: seq<byte>, stale: Stale)
    ensures var s := RvgpuHeader(size, cursor, bpp, stride) + part;
            && (size <= 266272 && part == [] && 0 < size ==> Dispatch(t, s, stale) == EndOfStream)
            && (0 < |part| < size ==> Dispatch(t, s, stale) == Exit)
            && (size > 266272 ==> Dispatch(t, s, stale) == Exit)
            && (size <= |part| && Sanity(part[..size], cursor, false) != OkNodata ==> Dispatch(t, s, stale) == Exit)
  {
    hide Sanity, RvgpuHeader, Execute;
    RvgpuHeaderFields(size, cursor, bpp, stride, part);
  }

  lemma HeaderCutOff(t: Table, s: seq<byte>, stale: Stale)
    requires |s| < 16
    ensures Dispatch(t, s, stale) == EndOfStream
  {
  }

  /** When the stream ends inside a patch of a transfer, what has come of it is kept, and its box is not looked at. */
  lemma TransferCutOff(t: Table, id: u32, args: TransferArgs, b: seq<byte>, meta: Meta, offset: u32, len: u32,
                       part: seq<byte>, stale: Stale)
    requires id in t && t[id].buf.Some? && offset + len <= |t[id].buf.value| && |part| < len
    ensures var buf := t[id].buf.value;
            Execute(t, ToHost(id, args), b, false, meta, HeaderBytes(offset, len, RVGPU_PATCH_RES) + part, stale)
            == Dispatched(t[id := t[id].(buf := Some(buf[..offset] + part + buf[offset + |part|..]))], b, false, [])
  {
    HeaderFields(offset, len, RVGPU_PATCH_RES, part);
  }

  /** A patch that does not fit its resource ends the renderer. */
  lemma PatchOutside(t: Table, id: u32, args: TransferArgs, b: seq<byte>, meta: Meta, offset: u32, len: u32,
                     rest: seq<byte>, stale: Stale)
    requires id in t && t[id].buf.Some? && offset + len > |t[id].buf.value| && 0 < len
    ensures Execute(t, ToHost(id, args), b, false, meta, HeaderBytes(offset, len, RVGPU_PATCH_RES) + rest, stale) == Exit
  {
    HeaderFields(offset, len, RVGPU_PATCH_RES, rest);
  }

  /** An attach that goes through gives the resource as many zero bytes as the entries are long together. */
  lemma AttachZeroed(t: Table, id: u32, entries: seq<MemEntry>, b: seq<byte>, meta: Meta, rest: seq<byte>, stale: Stale)
    ensures var r := Execute(t, Attach(id, entries), b, false, meta, rest, stale);
            r.Dispatched? ==>
              && id in t && id in r.t && r.t[id].buf.Some? && |r.t[id].buf.value| == Total(Iovs(entries))
              && (forall i :: 0 <= i < |r.t[id].buf.value| ==> r.t[id].buf.value[i] == 0)
              && r.t - {id} == t - {id} && r.t[id].width == t[id].width && r.t[id].height == t[id].height
  {
  }

  // ----- whole runs -----

  /** A request the driver queued, and guest memory when it is served. */
  datatype Request = Request(b: seq<byte>, cursor: bool, mem: Memory, stale: Stale)

  function ServeRequest(s: Resources, q: Request, fmt: Formats): Served {
    Serve(s, q.b, q.cursor, q.mem, fmt, q.stale)
  }

  predicate Sane(q: Request) {
    Passes(q.b, q.cursor)
  }

  /** At every request of a run the backings are small. */
  ghost predicate SmallAlong(s: Resources, qs: seq<Request>, fmt: Formats)
    decreases |qs|
  {
    Small(s) && (qs != [] ==> SmallAlong(ServeRequest(s, qs[0], fmt).s, qs[1..], fmt))
  }

  lemma {:induction false} WellBehavedSmall(s: Resources, qs: seq<Request>, fmt: Formats)
    requires Accounted(s) && Small(s) && WellBehaved(s, qs, fmt)
    ensures SmallAlong(s, qs, fmt)
    decreases |qs|
  {
    if qs != [] {
      ServedAccounted(s, qs[0], fmt);
      ServedSmall(s, qs[0], fmt);
      WellBehavedSmall(ServeRequest(s, qs[0], fmt).s, qs[1..], fmt);
    }
  }

  /** The resource table after all the requests. */
  function ServeAll(s: Resources, qs: seq<Request>, fmt: Formats): Resources
    decreases |qs|
  {
    if qs == [] then s else ServeAll(ServeRequest(s, qs[0], fmt).s, qs[1..], fmt)
  }

  /** Requests not answered with an error code are forwarded, some of them to renderer 0 only. */
  predicate ForwardedTo(s: Resources, q: Request, fmt: Formats, k: nat) {
    Sane(q) && (ServeRequest(s, q, fmt).toAll || k == 0)
  }

  function BytesTo(s: Resources, qs: seq<Request>, fmt: Formats, k: nat): seq<byte>
    decreases |qs|
  {
    if qs == [] then []
    else
      (if ForwardedTo(s, qs[0], fmt, k) then ServeRequest(s, qs[0], fmt).sent else [])
      + BytesTo(ServeRequest(s, qs[0], fmt).s, qs[1..], fmt, k)
  }

  function CommandsTo(s: Resources, qs: seq<Request>, fmt: Formats, k: nat): seq<(seq<byte>, bool)>
    decreases |qs|
  {
    if qs == [] then []
    else
      (if ForwardedTo(s, qs[0], fmt, k) then [(qs[0].b, qs[0].cursor)] else [])
      + CommandsTo(ServeRequest(s, qs[0], fmt).s, qs[1..], fmt, k)
  }

  /** What was asked of the device, in order: all of it, or all but the read backs. */
  function Asked(qs: seq<Request>, readBacks: bool): seq<(seq<byte>, bool)> {
    if qs == [] then []
    else
      (if Sane(qs[0]) && (readBacks || !IsReadBack(qs[0])) then [(qs[0].b, qs[0].cursor)] else [])
      + Asked(qs[1..], readBacks)
  }

  /** TRANSFER_FROM_HOST_3D on the control queue. */
  predicate IsReadBack(q: Request) {
    !q.cursor && |q.b| >= 4 && q.b[..4] == [0x06, 0x02, 0, 0]
  }

  lemma ReadBackType(q: Request)
    requires Sane(q)
    ensures CmdOf(q.b, q.cursor).FromHost? <==> IsReadBack(q)
  {
    var c := Seen(q.b, q.cursor);
    SaneOnBothEnds(q.b, q.cursor);
    assert c[..4] == q.b[..4];
    if IsReadBack(q) {
      assert c[0] == 0x06 && c[1] == 0x02 && c[2] == 0 && c[3] == 0;
      assert U32At(c, 0) == 0x0206;
    }
    if U32At(c, 0) == 0x0206 {
      TypeBytes(c);
    }
  }

  lemma TypeBytes(c: seq<byte>)
    requires |c| >= 4 && U32At(c, 0) == 0x0206
    ensures c[..4] == [0x06, 0x02, 0, 0]
  {
  }

  /** Renderer 0 gets every sane command, each other renderer all but the read backs, whatever the resources. */
  lemma {:induction false} CommandsToIs(s: Resources, qs: seq<Request>, fmt: Formats, k: nat)
    ensures CommandsTo(s, qs, fmt, k) == Asked(qs, k == 0)
    decreases |qs|
  {
    if qs != [] {
      CommandsToIs(ServeRequest(s, qs[0], fmt).s, qs[1..], fmt, k);
      if Sane(qs[0]) {
        ReadBackType(qs[0]);
        OnlyReadBacks(s, qs[0], fmt);
      }
    }
  }

  lemma OnlyReadBacks(s: Resources, q: Request, fmt: Formats)
    requires Sane(q)
    ensures ServeRequest(s, q, fmt).toAll <==> !CmdOf(q.b, q.cursor).FromHost?
  {
    hide Passes, CmdOf;
  }

  ghost predicate WellBehaved(s: Resources, qs: seq<Request>, fmt: Formats)
    decreases |qs|
  {
    qs != [] ==>
      && (Sane(qs[0]) ==>
            && Fits(s, CmdOf(qs[0].b, qs[0].cursor))
            && ProperRequest(s, fmt, qs[0].b, qs[0].cursor))
      && WellBehaved(ServeRequest(s, qs[0], fmt).s, qs[1..], fmt)
  }

  /**
   How rvgpu_pr_dispatch ends on a whole stream: what it dispatched, its table, and whether it
   exited. stale(n) is what the static command union holds when the n-th command is read.
   */
  datatype Outcome = Outcome(cmds: seq<(seq<byte>, bool)>, t: Table, exited: bool)

  function DispatchAll(t: Table, s: seq<byte>, stale: nat -> Stale, n: nat): Outcome
    decreases |s|
  {
    match Dispatch(t, s, stale(n))
    case Exit => Outcome([], t, true)
    case EndOfStream => Outcome([], t, false)
    case Dispatched(t', b, cursor, rest) =>
      var o := DispatchAll(t', rest, stale, n + 1);
      Outcome([(b, cursor)] + o.cmds, o.t, o.exited)
  }

  lemma DispatchAllStep(t: Table, s: seq<byte>, stale: nat -> Stale, n: nat)
    ensures DispatchAll(t, s, stale, n) == match Dispatch(t, s, stale(n))
                                            case Exit => Outcome([], t, true)
                                            case EndOfStream => Outcome([], t, false)
                                            case Dispatched(t', b, cursor, rest) =>
                                              var o := DispatchAll(t', rest, stale, n + 1);
                                              Outcome([(b, cursor)] + o.cmds, o.t, o.exited)
  {
  }

  lemma ServedAccounted(s: Resources, q: Request, fmt: Formats)
    requires Accounted(s)
    ensures Accounted(ServeRequest(s, q, fmt).s)
  {
    if Sane(q) {
      match CmdOf(q.b, q.cursor) {
        case Create(id, target, format, width, height) =>
          ApplyAccounted(s, DoCreate(Res(id, target, format, width, height, None)));
        case Unref(id) => ApplyAccounted(s, DoDestroy(id));
        case Attach(id, entries) => ApplyAccounted(s, DoAttach(id, Iovs(entries)));
        case Detach(id) => ApplyAccounted(s, DoDetach(id));
        case _ =>
      }
    }
  }

  /** What fits keeps every backing small. */
  lemma ServedSmall(s: Resources, q: Request, fmt: Formats)
    requires Accounted(s) && Small(s) && (Sane(q) ==> Fits(s, CmdOf(q.b, q.cursor)))
    ensures Small(ServeRequest(s, q, fmt).s)
  {
    if Sane(q) {
      hide Passes, CmdOf;
      var c, s' := CmdOf(q.b, q.cursor), ServeRequest(s, q, fmt).s;
      if s' != s {
        forall id: u32 | Backed(s', id)
          ensures Total(Find(s'.list, id).value.backing.value) < U32_LIMIT
        {
          match c {
            case Create(_, _, _, _, _) => assert Backed(s, id);
            case Unref(other) =>
              RemoveEffect(s.list, other);
              assert Backed(s, id);
            case Attach(other, entries) =>
              SetBackingEffect(s.list, other, Some(Iovs(entries)));
              assert id != other ==> Backed(s, id);
            case Detach(other) =>
              SetBackingEffect(s.list, other, None);
              assert Backed(s, id);
            case _ =>
          }
        }
      }
    }
  }

  /** A command for renderer 0 only changes no table. */
  lemma NotForwarded(s: Resources, t: Table, q: Request, fmt: Formats, k: nat)
    requires Mirror(s, t) && !ForwardedTo(s, q, fmt, k)
    ensures Mirror(ServeRequest(s, q, fmt).s, t)
  {
  }

  lemma RequestInSync(s: Resources, t: Table, q: Request, fmt: Formats, rest: seq<byte>, yours: Stale)
    requires Accounted(s) && Mirror(s, t) && Sane(q)
    requires Fits(s, CmdOf(q.b, q.cursor)) && ProperRequest(s, fmt, q.b, q.cursor)
    ensures var served := ServeRequest(s, q, fmt);
            InSync(Dispatch(t, served.sent + rest, yours), q.b, q.cursor, rest, served.s)
  {
    hide Serve, Dispatch, InSync, Mirror, Accounted, CmdOf, Fits, ProperRequest;
    ProperKeeps(s, t, q.b, q.cursor, q.mem, fmt, rest, q.stale, yours);
  }

  /**
   End to end. For every well-behaved run of requests, every renderer k, every guest memory
   and every format table, the renderer dispatches exactly the commands forwarded to it, in
   order, reads to the end without exiting, and its resource table mirrors the proxy's.
   */
  lemma {:induction false} EndToEnd(s: Resources, t: Table, qs: seq<Request>, fmt: Formats, k: nat,
                                    stale: nat -> Stale, n: nat)
    requires Accounted(s) && Mirror(s, t) && WellBehaved(s, qs, fmt)
    ensures var o := DispatchAll(t, BytesTo(s, qs, fmt, k), stale, n);
            && o.cmds == CommandsTo(s, qs, fmt, k) && !o.exited
            && Mirror(ServeAll(s, qs, fmt), o.t)
    decreases |qs|
  {
    if qs != [] {
      hide *;
      var q, served := qs[0], ServeRequest(s, qs[0], fmt);
      var rest := BytesTo(served.s, qs[1..], fmt, k);
      ServedAccounted(s, q, fmt);
      RunStep(s, qs, fmt, k);
      if ForwardedTo(s, q, fmt, k) {
        var bytes := served.sent + rest;
        RequestForwarded(s, t, qs, fmt, k, rest, stale(n));
        DispatchAllStep(t, bytes, stale, n);
        EndToEnd(served.s, Dispatch(t, bytes, stale(n)).t, qs[1..], fmt, k, stale, n + 1);
      } else {
        NotForwarded(s, t, q, fmt, k);
        EndToEnd(served.s, t, qs[1..], fmt, k, stale, n);
      }
    } else {
      hide Mirror, Accounted;
    }
  }

  /** What the first request adds, if it is forwarded. */
  lemma RunStep(s: Resources, qs: seq<Request>, fmt: Formats, k: nat)
    requires qs != []
    ensures var q, after := qs[0], ServeRequest(s, qs[0], fmt).s;
            var rest, cmds := BytesTo(after, qs[1..], fmt, k), CommandsTo(after, qs[1..], fmt, k);
            && ServeAll(s, qs, fmt) == ServeAll(after, qs[1..], fmt)
            && (WellBehaved(s, qs, fmt) ==> WellBehaved(after, qs[1..], fmt))
            && (ForwardedTo(s, q, fmt, k) ==>
                  && BytesTo(s, qs, fmt, k) == ServeRequest(s, q, fmt).sent + rest
                  && CommandsTo(s, qs, fmt, k) == [(q.b, q.cursor)] + cmds)
            && (!ForwardedTo(s, q, fmt, k) ==> BytesTo(s, qs, fmt, k) == rest && CommandsTo(s, qs, fmt, k) == cmds)
  {
    hide ServeRequest, ForwardedTo;
    var after := ServeRequest(s, qs[0], fmt).s;
    assert [] + BytesTo(after, qs[1..], fmt, k) == BytesTo(after, qs[1..], fmt, k);
    assert [] + CommandsTo(after, qs[1..], fmt, k) == CommandsTo(after, qs[1..], fmt, k);
  }

  lemma RequestForwarded(s: Resources, t: Table, qs: seq<Request>, fmt: Formats, k: nat, rest: seq<byte>, yours: Stale)
    requires qs != [] && Accounted(s) && Mirror(s, t) && WellBehaved(s, qs, fmt) && ForwardedTo(s, qs[0], fmt, k)
    ensures var served := ServeRequest(s, qs[0], fmt);
            var r := Dispatch(t, served.sent + rest, yours);
            r.Dispatched? && r.b == qs[0].b && r.cursor == qs[0].cursor && r.rest == rest && Mirror(served.s, r.t)
  {
    hide ServeRequest, Dispatch, Mirror, Accounted, Fits, ProperRequest;
    RequestInSync(s, t, qs[0], fmt, rest, yours);
  }

  /** RESOURCE_CREATE_2D of a resource 1 with 64 by 64 pixels. */
  function CreateBytes(): seq<byte> {
    WordsBytes([0x0101, 0, 0, 0, 0, 0, 1, 1, 64, 64])
  }

  /** SET_SCANOUT of scanout 0 to a rectangle of resource 1 that is 128 pixels wide. */
  function ScanoutBytes(): seq<byte> {
    WordsBytes([0x0103, 0, 0, 0, 0, 0, 0, 0, 128, 64, 0, 1])
  }

  lemma CreateFields()
    ensures var b := CreateBytes();
            && |b| == 40 && U32At(b, 0) == 0x0101 && U32At(b, 24) == 1 && U32At(b, 28) == 1
            && U32At(b, 32) == 64 && U32At(b, 36) == 64
  {
    hide WordsBytes, U32At;
    var c: seq<u32> := [0x0101, 0, 0, 0, 0, 0, 1, 1, 64, 64];
    WordAt(c, 0); WordAt(c, 6); WordAt(c, 7); WordAt(c, 8); WordAt(c, 9);
  }

  lemma ScanoutFields()
    ensures var b := ScanoutBytes();
            && |b| == 48 && U32At(b, 0) == 0x0103 && U32At(b, 24) == 0 && U32At(b, 28) == 0
            && U32At(b, 32) == 128 && U32At(b, 36) == 64 && U32At(b, 40) == 0 && U32At(b, 44) == 1
  {
    hide WordsBytes, U32At;
    var c: seq<u32> := [0x0103, 0, 0, 0, 0, 0, 0, 0, 128, 64, 0, 1];
    WordAt(c, 0); WordAt(c, 6); WordAt(c, 7); WordAt(c, 8); WordAt(c, 9); WordAt(c, 10); WordAt(c, 11);
  }

  lemma CreateParses()
    ensures |CreateBytes()| == 40 && Passes(CreateBytes(), false)
    ensures CmdOf(CreateBytes(), false) == Create(1, 2, 1, 64, 64)
  {
    hide CreateBytes, WordsBytes, U32At, Seen;
    CreateFields();
    SeenAll(CreateBytes(), false);
  }

  lemma ScanoutParses()
    ensures |ScanoutBytes()| == 48 && Passes(ScanoutBytes(), false)
    ensures CmdOf(ScanoutBytes(), false) == SetScanout(0, 1, Box(0, 0, 0, 128, 64, 1))
  {
    hide ScanoutBytes, WordsBytes, U32At, Seen;
    ScanoutFields();
    SeenAll(ScanoutBytes(), false);
  }

  /** A command that is the last one, and after which the renderer exits. */
  lemma LastExits(s: Resources, t: Table, q: Request, fmt: Formats, k: nat, stale: nat -> Stale, n: nat)
    requires ForwardedTo(s, q, fmt, k) && Dispatch(t, ServeRequest(s, q, fmt).sent, stale(n)).Exit?
    ensures DispatchAll(t, BytesTo(s, [q], fmt, k), stale, n).exited
  {
    hide Dispatch, ServeRequest;
    assert BytesTo(s, [q], fmt, k) == ServeRequest(s, q, fmt).sent + BytesTo(ServeRequest(s, q, fmt).s, [], fmt, k);
    assert BytesTo(s, [q], fmt, k) == ServeRequest(s, q, fmt).sent;
  }

  lemma CreateServed(mem: Memory, fmt: Formats, mine: Stale, rest: seq<byte>, stale: Stale)
    ensures Sane(Request(CreateBytes(), false, mem, mine))
    ensures var served := ServeRequest(Resources([], 0, 0), Request(CreateBytes(), false, mem, mine), fmt);
            && served.toAll && served.s == Resources([Res(1, 2, 1, 64, 64, None)], 0, 0)
            && Dispatch(map[], served.sent + rest, stale)
               == Dispatched(map[1 := VRes(64, 64, None)], CreateBytes(), false, rest)
  {
    hide CreateBytes, Fetch, RvgpuHeader, Passes, CmdOf, Parse, Seen;
    CreateParses();
    WholeParsed(CreateBytes(), false, 0, 0, rest);
  }

  lemma ScanoutServed(s: Resources, mem: Memory, fmt: Formats, mine: Stale, stale: Stale)
    ensures Sane(Request(ScanoutBytes(), false, mem, mine))
    ensures var served := ServeRequest(s, Request(ScanoutBytes(), false, mem, mine), fmt);
            served.toAll && Dispatch(map[1 := VRes(64, 64, None)], served.sent, stale) == Exit
  {
    hide ScanoutBytes, Fetch, RvgpuHeader, Passes, CmdOf, Parse, Seen;
    ScanoutParses();
    WholeParsed(ScanoutBytes(), false, 0, 0, []);
    var sent := RvgpuHeader(|ScanoutBytes()|, false, 0, 0) + ScanoutBytes();
    assert sent + [] == sent;
  }

  /** Two commands that pass the sanity check on both ends, after which every renderer has exited. */
  lemma ScanoutExits(mem: Memory, fmt: Formats, k: nat, mine: Stale, stale: nat -> Stale)
    ensures var qs := [Request(CreateBytes(), false, mem, mine), Request(ScanoutBytes(), false, mem, mine)];
            && Sane(qs[0]) && Sane(qs[1])
            && DispatchAll(map[], BytesTo(Resources([], 0, 0), qs, fmt, k), stale, 0).exited
  {
    hide Dispatch, ServeRequest, Sane, CreateBytes, ScanoutBytes;
    var s0, q1, q2 := Resources([], 0, 0), Request(CreateBytes(), false, mem, mine), Request(ScanoutBytes(), false, mem, mine);
    var s1 := ServeRequest(s0, q1, fmt).s;
    var rest := BytesTo(s1, [q2], fmt, k);
    CreateServed(mem, fmt, mine, rest, stale(0));
    ScanoutServed(s1, mem, fmt, mine, stale(1));
    LastExits(s1, map[1 := VRes(64, 64, None)], q2, fmt, k, stale, 1);
    assert [q1, q2][1..] == [q2];
  }

  /** GET_DISPLAY_INFO in a request of 2^32 + 24 bytes. */
  function OversizeBytes(): (b: seq<byte>)
    ensures |b| == 0x1_0000_0018
  {
    WordsBytes([0x0100, 0, 0, 0, 0, 0]) + Zeros(0x1_0000_0000)
  }

  lemma OversizeParses()
    ensures Passes(OversizeBytes(), false) && CmdOf(OversizeBytes(), false) == Other
    ensures |Seen(OversizeBytes(), false)| == 24
    ensures OversizeBytes()[24..] == Zeros(0x1_0000_0000)
  {
    hide WordsBytes, U32At;
    var c: seq<u32> := [0x0100, 0, 0, 0, 0, 0];
    WordAt(c, 0);
    assert Seen(OversizeBytes(), false) == WordsBytes(c);
  }

  lemma ZerosExit(t: Table, n: nat, tail: seq<byte>, stale: Stale)
    requires RVGPU_HEADER_SIZE <= n
    ensures Dispatch(t, Zeros(n) + tail, stale) == Exit
  {
    var s := Zeros(n) + tail;
    assert s[0] == s[1] == s[2] == s[3] == 0;
    assert U32At(s, 0) == 0;
  }

  /** The whole of it is forwarded, and every renderer takes 24 bytes of it for the command. */
  lemma OversizeServed(s: Resources, t: Table, mem: Memory, fmt: Formats, rest: seq<byte>, mine: Stale, yours: Stale)
    ensures var q := Request(OversizeBytes(), false, mem, mine);
            var served := ServeRequest(s, q, fmt);
            && Sane(q) && served.toAll && served.sent == RvgpuHeader(24, false, 0, 0) + OversizeBytes()
            && Dispatch(t, served.sent + rest, yours)
               == Dispatched(t, Seen(OversizeBytes(), false), false, Zeros(0x1_0000_0000) + rest)
  {
    hide OversizeBytes, Zeros, Fetch, RvgpuHeader, Passes, CmdOf, Seen;
    OversizeParses();
    HeaderParsed(OversizeBytes(), false, 0, 0, rest);
  }

  /** So each exits on what follows. */
  lemma OversizeExits(s: Resources, t: Table, mem: Memory, fmt: Formats, qs: seq<Request>, k: nat, mine: Stale,
                      stale: nat -> Stale)
    ensures var q := Request(OversizeBytes(), false, mem, mine);
            Sane(q) && DispatchAll(t, BytesTo(s, [q] + qs, fmt, k), stale, 0).exited
  {
    hide OversizeBytes, Zeros, Dispatch, RvgpuHeader, Sane, ServeRequest;
    var q := Request(OversizeBytes(), false, mem, mine);
    var served := ServeRequest(s, q, fmt);
    var rest := BytesTo(served.s, qs, fmt, k);
    assert ([q] + qs)[1..] == qs;
    OversizeServed(s, t, mem, fmt, rest, mine, stale(0));
    ZerosExit(t, 0x1_0000_0000, rest, stale(1));
  }

  /** TRANSFER_FROM_HOST_3D of the first pixel of resource 1. */
  function ReadBytes(offset: u32): (b: seq<byte>)
    ensures |b| == 72
  {
    WordsBytes([0x0206, 0, 0, 0, 1, 0, 0, 0, 0, 1, 1, 1, offset, 0, 1, 0, 4, 0])
  }

  lemma ReadFields(offset: u32)
    ensures var b := ReadBytes(offset);
            && U32At(b, 0) == 0x0206 && U32At(b, 16) == 1
            && U32At(b, 24) == U32At(b, 28) == U32At(b, 32) == 0 && U32At(b, 36) == U32At(b, 40) == U32At(b, 44) == 1
            && U64At(b, 48) == offset && U32At(b, 56) == 1 && U32At(b, 60) == 0 && U32At(b, 64) == 4 && U32At(b, 68) == 0
  {
    hide WordsBytes, U32At;
    var c: seq<u32> := [0x0206, 0, 0, 0, 1, 0, 0, 0, 0, 1, 1, 1, offset, 0, 1, 0, 4, 0];
    WordAt(c, 0); WordAt(c, 4); WordAt(c, 6); WordAt(c, 7); WordAt(c, 8); WordAt(c, 9); WordAt(c, 10); WordAt(c, 11);
    WordAt(c, 12); WordAt(c, 13); WordAt(c, 14); WordAt(c, 15); WordAt(c, 16); WordAt(c, 17);
  }

  lemma ReadParses(offset: u32)
    ensures Passes(ReadBytes(offset), false)
    ensures CmdOf(ReadBytes(offset), false) == FromHost(1, TransferArgs(Box(0, 0, 0, 1, 1, 1), 0, 4, 0, offset))
  {
    hide ReadBytes, WordsBytes, U32At, U64At, Seen;
    ReadFields(offset);
    SeenAll(ReadBytes(offset), false);
  }

  /** With an offset behind the end of a 64 by 64 pixel resource the renderer cannot go on. */
  lemma ReadBackExits(s: Resources, t: Table, r: Res, mem: Memory, fmt: Formats, rest: seq<byte>, mine: Stale,
                      yours: Stale)
    requires Mirror(s, t) && Find(s.list, 1) == Some(r) && r.backing.Some?
    requires r.width == r.height == 64 && Total(r.backing.value) == 16384 && fmt(r.format) == Plain(4)
    ensures Passes(ReadBytes(0x4000_0000), false) && Fits(s, CmdOf(ReadBytes(0x4000_0000), false))
    ensures Dispatch(t, Serve(s, ReadBytes(0x4000_0000), false, mem, fmt, mine).sent + rest, yours) == Exit
  {
    hide ReadBytes, Fetch, RvgpuHeader, Passes, CmdOf, Parse, Seen;
    ReadParses(0x4000_0000);
    var args := CmdOf(ReadBytes(0x4000_0000), false).args;
    var meta := MetaOf(r, fmt, args);
    assert meta == Meta(4, 4);
    WholeParsed(ReadBytes(0x4000_0000), false, meta.bpp, meta.stride, rest);
    assert Agree(Find(s.list, 1), Lookup(t, 1));
  }

  /** Both ends start with empty tables. */
  lemma StartMirrored(max: nat)
    ensures Accounted(Resources([], 0, max)) && Mirror(Resources([], 0, max), map[])
  {
  }

  /** A transfer to the host brings the renderer's copy up to date on its range, and only there. */
  lemma TransferCopies(s: Resources, t: Table, mem: Memory, fmt: Formats, x: Xfer, rest: seq<byte>, i: nat)
    requires Mirror(s, t) && Backed(s, x.id) && x.id in t
    requires var r := Find(s.list, x.id).value; i < Total(r.backing.value)
    ensures var r := Find(s.list, x.id).value;
            var l := LoadRes(t, x.id, XferBytes(s, mem, fmt, x) + rest);
            && l.Going? && x.id in l.t && l.t[x.id].buf.Some? && t[x.id].buf.Some?
            && |l.t[x.id].buf.value| == |Flat(Fragments(mem, r.backing.value))| == |t[x.id].buf.value| == Total(r.backing.value)
            && l.t[x.id].buf.value[i] ==
                 if x.args.offset <= i < x.args.offset + LengthOf(r, fmt, x.args)
                 then Flat(Fragments(mem, r.backing.value))[i] else t[x.id].buf.value[i]
  {
    assert Agree(Find(s.list, x.id), Lookup(t, x.id));
    var r := Find(s.list, x.id).value;
    FragmentsLength(mem, r.backing.value);
    PatchRoundTrip(Fragments(mem, r.backing.value), x.args.offset, LengthOf(r, fmt, x.args), t[x.id].buf.value, rest);
  }

  /** Every byte the box asks for, as far as the backing has it, is the guest's afterwards, for every target and format,
      as long as the length is not cut. */
  lemma BoxCopied(s: Resources, t: Table, mem: Memory, fmt: Formats, x: Xfer, rest: seq<byte>, q: nat)
    requires Mirror(s, t) && Backed(s, x.id) && x.id in t
    requires 1 <= x.args.box.w && 1 <= x.args.box.h && 1 <= x.args.box.d
    requires var r := Find(s.list, x.id).value;
             && x.args.offset + q < Total(r.backing.value)
             && Uncut(r.target, r.width, r.height, fmt(r.format), x.args)
             && Wanted(r.target, r.width, r.height, fmt(r.format), x.args, q)
    ensures var r := Find(s.list, x.id).value;
            var l := LoadRes(t, x.id, XferBytes(s, mem, fmt, x) + rest);
            && l.Going? && x.id in l.t && l.t[x.id].buf.Some?
            && x.args.offset + q < |Flat(Fragments(mem, r.backing.value))| == |l.t[x.id].buf.value|
            && l.t[x.id].buf.value[x.args.offset + q] == Flat(Fragments(mem, r.backing.value))[x.args.offset + q]
  {
    hide LoadRes, XferBytes, Wanted, Uncut, TransferLength, Flat;
    var r := Find(s.list, x.id).value;
    assert Agree(Find(s.list, x.id), Lookup(t, x.id));
    WantedSent(r.target, r.width, r.height, fmt(r.format), x.args, q);
    TransferCopies(s, t, mem, fmt, x, rest, x.args.offset + q);
  }
}

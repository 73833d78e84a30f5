/**
 The patch stream that carries guest memory to the renderers: how the proxy cuts a
 fragmented backing into patches (src/librvgpu/res/rvgpu-res.c) and how the renderer
 puts them back into one flat buffer (src/rvgpu-renderer/virgl/rvgpu-virgl.c).
 */
module PatchCodec {
  import opened Bytes

  /** struct patch_data holds __IOV_MAX iovecs; the first one is the header's. */
  const IOV_MAX := 1024
  const PATCH_HEADER_SIZE := 12
  const RVGPU_PATCH_RES: byte := 1

  datatype Patch = Patch(offset: nat, payload: seq<byte>)

  /** The fields of struct patch_data that matter: hdr.offset and iov[1..niov]. */
  datatype Builder = Builder(offset: nat, chunks: seq<seq<byte>>)

  const EMPTY_BUILDER := Builder(0, [])

  function PatchOf(b: Builder): Patch {
    Patch(b.offset, Flat(b.chunks))
  }

  /** write_patch: nothing when only the header slot is used. */
  function Flush(b: Builder): seq<Patch> {
    if b.chunks == [] then [] else [PatchOf(b)]
  }

  predicate Full(b: Builder) {
    |b.chunks| == IOV_MAX - 1
  }

  /** add_patch writes a builder out when it has no slot left. */
  function Spill(b: Builder): seq<Patch> {
    if Full(b) then Flush(b) else []
  }

  function Extend(b: Builder, offset: nat, data: seq<byte>): Builder {
    if b.chunks == [] || Full(b) then Builder(offset, [data]) else b.(chunks := b.chunks + [data])
  }

  /** The locals of gpu_device_send_data. */
  datatype Cursor = Cursor(skip: nat, length: nat, offset: nat, b: Builder)

  /** One turn of its loop on the fragment f. */
  function Step(f: seq<byte>, c: Cursor): Cursor {
    if c.skip >= |f| then
      Cursor(c.skip - |f|, c.length, c.offset + |f|, c.b)
    else
      var l := Min(|f| - c.skip, c.length);
      Cursor(0, c.length - l, c.offset + |f|, Extend(c.b, c.offset + c.skip, f[c.skip..c.skip + l]))
  }

  /** The patches it emits for the remaining fragments. */
  function Gather(frags: seq<seq<byte>>, c: Cursor): seq<Patch>
    decreases |frags|
  {
    if frags == [] || c.length == 0 then
      Flush(c.b)
    else
      (if c.skip < |frags[0]| then Spill(c.b) else []) + Gather(frags[1..], Step(frags[0], c))
  }

  function Start(skip: nat, length: nat): Cursor {
    Cursor(skip, length, 0, EMPTY_BUILDER)
  }

  function HeaderBytes(offset: u32, len: u32, kind: byte): (h: seq<byte>)
    ensures |h| == PATCH_HEADER_SIZE
  {
    [kind, 0, 0, 0] + U32Bytes(offset) + U32Bytes(len)
  }

  const TERMINATOR: seq<byte> := HeaderBytes(0, 0, 0)

  /** A patch that fits the 32-bit fields of struct rvgpu_patch. */
  predicate Encodable(p: Patch) {
    p.offset + |p.payload| < U32_LIMIT
  }

  /** The header's offset and length are uint32_t: larger values are cut. */
  function Encode(p: Patch): seq<byte> {
    HeaderBytes(Cut32(p.offset), Cut32(|p.payload|), RVGPU_PATCH_RES) + p.payload
  }

  function EncodeAll(ps: seq<Patch>): seq<byte> {
    if ps == [] then [] else Encode(ps[0]) + EncodeAll(ps[1..])
  }

  lemma {:induction false} EncodeAllAppend(a: seq<Patch>, b: seq<Patch>)
    ensures EncodeAll(a + b) == EncodeAll(a) + EncodeAll(b)
  {
    if a == [] {
      assert a + b == b;
    } else {
      assert (a + b)[1..] == a[1..] + b;
      EncodeAllAppend(a[1..], b);
    }
  }

  // ----- what the patches mean -----

  /** The patches cut full[start..stop] into consecutive, non-empty pieces. */
  ghost predicate Tiles(ps: seq<Patch>, full: seq<byte>, start: nat, stop: nat) {
    if ps == [] then
      start == stop <= |full|
    else
      && ps[0].offset == start
      && 0 < |ps[0].payload|
      && start + |ps[0].payload| <= stop <= |full|
      && ps[0].payload == full[start..start + |ps[0].payload|]
      && Tiles(ps[1..], full, start + |ps[0].payload|, stop)
  }

  lemma {:induction false} TilesEncodable(ps: seq<Patch>, full: seq<byte>, start: nat, stop: nat)
    requires Tiles(ps, full, start, stop) && |full| < U32_LIMIT
    ensures forall p <- ps :: Encodable(p) && 0 < |p.payload|
  {
    if ps != [] {
      TilesEncodable(ps[1..], full, start + |ps[0].payload|, stop);
    }
  }

  /**
   What is pending in the builder is a slice of the backing; while bytes are still wanted,
   it ends where the next fragment byte begins.
   */
  ghost predicate Pending(c: Cursor, full: seq<byte>) {
    && (forall x <- c.b.chunks :: 0 < |x|)
    && (c.b.chunks != [] ==>
          && End(c.b) <= |full|
          && Flat(c.b.chunks) == full[c.b.offset..End(c.b)]
          && (0 < c.length ==> c.skip == 0 && End(c.b) == c.offset))
  }

  ghost function End(b: Builder): nat {
    b.offset + |Flat(b.chunks)|
  }

  /** Where the bytes not yet written out begin, and where the transfer will end. */
  ghost function First(c: Cursor, full: seq<byte>): nat {
    if c.b.chunks == [] then Min(c.offset + c.skip, |full|) else c.b.offset
  }

  ghost function Last(c: Cursor, full: seq<byte>): nat {
    if c.length == 0 && c.b.chunks != [] then End(c.b) else Min(c.offset + c.skip + c.length, |full|)
  }

  lemma ExtendPending(c: Cursor, full: seq<byte>, l: nat)
    requires Pending(c, full) && 0 < l <= c.length && c.offset + c.skip + l <= |full|
    ensures var at := c.offset + c.skip;
            var e := Extend(c.b, at, full[at..at + l]);
            && (forall x <- e.chunks :: 0 < |x|)
            && End(e) == at + l && Flat(e.chunks) == full[e.offset..at + l]
            && e.offset == if c.b.chunks == [] || Full(c.b) then at else c.b.offset
  {
    var data := full[c.offset + c.skip..c.offset + c.skip + l];
    if c.b.chunks == [] || Full(c.b) {
      assert Flat([data]) == data + Flat([]);
    } else {
      FlatSnoc(c.b.chunks, data);
    }
  }

  lemma SliceOfSlice(f: seq<byte>, full: seq<byte>, offset: nat, skip: nat, l: nat)
    requires offset + |f| <= |full| && full[offset..offset + |f|] == f && skip + l <= |f|
    ensures f[skip..skip + l] == full[offset + skip..offset + skip + l]
  {
    var a, b := f[skip..skip + l], full[offset + skip..offset + skip + l];
    forall k | 0 <= k < |a|
      ensures a[k] == b[k]
    {
      assert f[skip + k] == full[offset..offset + |f|][skip + k];
    }
  }

  lemma StepPending(f: seq<byte>, c: Cursor, full: seq<byte>)
    requires Pending(c, full) && 0 < c.length
    requires c.offset + |f| <= |full| && full[c.offset..c.offset + |f|] == f
    ensures var d := Step(f, c);
            && Pending(d, full) && Last(d, full) == Last(c, full)
            && First(d, full) == if c.skip < |f| && Full(c.b) then End(c.b) else First(c, full)
  {
    hide Extend;
    if c.skip < |f| {
      var l := Min(|f| - c.skip, c.length);
      SliceOfSlice(f, full, c.offset, c.skip, l);
      ExtendPending(c, full, l);
    }
  }

  lemma TilesCons(b: Builder, rest: seq<Patch>, full: seq<byte>, stop: nat)
    requires b.chunks != [] && (forall x <- b.chunks :: 0 < |x|)
    requires End(b) <= |full| && Flat(b.chunks) == full[b.offset..End(b)]
    requires End(b) <= stop <= |full| && Tiles(rest, full, End(b), stop)
    ensures Tiles(Flush(b) + rest, full, b.offset, stop)
  {
    assert b.chunks[0] in b.chunks;
    assert (Flush(b) + rest)[1..] == rest;
  }

  lemma FirstFragment(frags: seq<seq<byte>>, full: seq<byte>, offset: nat)
    requires frags != [] && offset <= |full| && full[offset..] == Flat(frags)
    ensures offset + |frags[0]| <= |full|
    ensures full[offset..offset + |frags[0]|] == frags[0]
    ensures full[offset + |frags[0]|..] == Flat(frags[1..])
  {
    var f := frags[0];
    assert full[offset..][..|f|] == f;
    assert full[offset..][|f|..] == Flat(frags[1..]);
  }

  lemma {:induction false} TilesOrdered(ps: seq<Patch>, full: seq<byte>, start: nat, stop: nat)
    requires Tiles(ps, full, start, stop)
    ensures start <= stop <= |full|
  {
  }

  /**
   For every fragmentation, skip and length, and however often a full header forces a
   flush, the patches tile the wanted slice of the concatenated backing: the slice is
   covered once, in order, with the guest's bytes, and no patch is empty.
   */
  lemma {:induction false} GatherTiles(frags: seq<seq<byte>>, c: Cursor, full: seq<byte>)
    requires c.offset <= |full| && full[c.offset..] == Flat(frags) && Pending(c, full)
    ensures Tiles(Gather(frags, c), full, First(c, full), Last(c, full))
    decreases |frags|
  {
    if frags == [] || c.length == 0 {
      if c.b.chunks != [] {
        TilesCons(c.b, [], full, End(c.b));
        assert Flush(c.b) + [] == Flush(c.b);
      }
    } else {
      hide Tiles, Pending, Flat, Step, First, Last;
      var f, d := frags[0], Step(frags[0], c);
      FirstFragment(frags, full, c.offset);
      StepPending(f, c, full);
      GatherTiles(frags[1..], d, full);
      TilesOrdered(Gather(frags[1..], d), full, First(d, full), Last(d, full));
      if c.skip < |f| && Full(c.b) {
        TilesCons(c.b, Gather(frags[1..], d), full, Last(c, full));
      } else {
        assert Gather(frags, c) == [] + Gather(frags[1..], d) == Gather(frags[1..], d);
      }
    }
  }

  /** How many fragments hold bytes that are wanted. */
  function Pieces(frags: seq<seq<byte>>, skip: nat, length: nat): nat
    decreases |frags|
  {
    if frags == [] || length == 0 then 0
    else if skip >= |frags[0]| then Pieces(frags[1..], skip - |frags[0]|, length)
    else 1 + Pieces(frags[1..], 0, length - Min(|frags[0]| - skip, length))
  }

  /** A patch is closed only when its 1023 slots are used or nothing more comes. */
  lemma {:induction false} GatherCount(frags: seq<seq<byte>>, c: Cursor)
    requires |c.b.chunks| <= 1023
    ensures |Gather(frags, c)| == (|c.b.chunks| + Pieces(frags, c.skip, c.length) + 1022) / 1023
    decreases |frags|
  {
    if frags != [] && c.length > 0 {
      GatherCount(frags[1..], Step(frags[0], c));
    }
  }

  // ----- the renderer's side -----

  datatype LoadResult =
    | Loaded(buf: seq<byte>, rest: seq<byte>)  // reader stopped: terminator, or stream ended at a header
    | WrongPatch                               // "Wrong patch format!", the renderer exits
    | Closed(buf: seq<byte>)                   // stream ended inside a patch

  /** load_resource_patched on the bytes still to come. */
  function Load(buf: seq<byte>, s: seq<byte>): (r: LoadResult)
    ensures r.Loaded? ==> |r.rest| <= |s| && |r.buf| == |buf|
    ensures r.Closed? ==> |r.buf| == |buf|
    decreases |s|
  {
    if |s| < PATCH_HEADER_SIZE then
      Loaded(buf, [])
    else
      var offset, len := U32At(s, 4), U32At(s, 8);
      var body := s[PATCH_HEADER_SIZE..];
      if len == 0 then
        Loaded(buf, body)
      else if offset + len > |buf| then
        WrongPatch
      else if |body| < len then
        Closed(Overlay(buf, offset, body))
      else
        Load(Overlay(buf, offset, body[..len]), body[len..])
  }

  lemma HeaderFields(offset: u32, len: u32, kind: byte, tail: seq<byte>)
    ensures var s := HeaderBytes(offset, len, kind) + tail;
            U32At(s, 4) == offset && U32At(s, 8) == len && s[PATCH_HEADER_SIZE..] == tail
  {
    var s := HeaderBytes(offset, len, kind) + tail;
    assert s[4..8] == U32Bytes(offset);
    assert s[8..12] == U32Bytes(len);
    U32RoundTrip(s, 4, offset);
    U32RoundTrip(s, 8, len);
  }

  lemma LoadPayload(buf: seq<byte>, offset: u32, len: u32, payload: seq<byte>, tail: seq<byte>)
    requires 0 < len == |payload| && offset + len <= |buf|
    ensures Load(buf, (HeaderBytes(offset, len, RVGPU_PATCH_RES) + payload) + tail)
         == Load(Overlay(buf, offset, payload), tail)
  {
    var h := HeaderBytes(offset, len, RVGPU_PATCH_RES);
    HeaderFields(offset, len, RVGPU_PATCH_RES, payload + tail);
    Assoc(h, payload, tail);
    assert (payload + tail)[..len] == payload;
    assert (payload + tail)[len..] == tail;
  }

  lemma LoadOne(buf: seq<byte>, p: Patch, tail: seq<byte>)
    requires Encodable(p) && 0 < |p.payload| && p.offset + |p.payload| <= |buf|
    ensures Load(buf, Encode(p) + tail) == Load(Overlay(buf, p.offset, p.payload), tail)
  {
    LoadPayload(buf, p.offset, |p.payload|, p.payload, tail);
  }

  lemma LoadEnd(buf: seq<byte>, rest: seq<byte>)
    ensures Load(buf, TERMINATOR + rest) == Loaded(buf, rest)
  {
    HeaderFields(0, 0, 0, rest);
  }

  lemma OverlayNothing(buf: seq<byte>, full: seq<byte>, start: nat)
    requires start <= |full| == |buf|
    ensures Overlay(buf, start, full[start..start]) == buf
  {
  }

  lemma OverlaySplit(buf: seq<byte>, full: seq<byte>, start: nat, mid: nat, stop: nat)
    requires start <= mid <= stop <= |full| == |buf|
    ensures Overlay(Overlay(buf, start, full[start..mid]), mid, full[mid..stop])
         == Overlay(buf, start, full[start..stop])
  {
  }

  ghost predicate InRange(ps: seq<Patch>, size: nat) {
    forall p <- ps :: 0 < |p.payload| && p.offset + |p.payload| <= size
  }

  ghost function ApplyAll(buf: seq<byte>, ps: seq<Patch>): (r: seq<byte>)
    requires InRange(ps, |buf|)
    ensures |r| == |buf|
    decreases |ps|
  {
    if ps == [] then buf
    else
      assert ps[0] in ps;
      ApplyAll(Overlay(buf, ps[0].offset, ps[0].payload), ps[1..])
  }

  /** The reader consumes the encoded patches one by one, in order. */
  lemma {:induction false} LoadAll(buf: seq<byte>, ps: seq<Patch>, tail: seq<byte>)
    requires InRange(ps, |buf|) && |buf| < U32_LIMIT
    ensures Load(buf, EncodeAll(ps) + tail) == Load(ApplyAll(buf, ps), tail)
    decreases |ps|
  {
    if ps == [] {
      assert EncodeAll(ps) + tail == tail;
    } else {
      assert ps[0] in ps;
      Assoc(Encode(ps[0]), EncodeAll(ps[1..]), tail);
      LoadOne(buf, ps[0], EncodeAll(ps[1..]) + tail);
      LoadAll(Overlay(buf, ps[0].offset, ps[0].payload), ps[1..], tail);
    }
  }

  /** Patches that tile a slice copy exactly that slice. */
  lemma {:induction false} ApplyTiles(buf: seq<byte>, ps: seq<Patch>, full: seq<byte>, start: nat, stop: nat)
    requires Tiles(ps, full, start, stop) && |buf| == |full|
    ensures start <= stop && InRange(ps, |buf|)
    ensures ApplyAll(buf, ps) == Overlay(buf, start, full[start..stop])
    decreases |ps|
  {
    if ps == [] {
      OverlayNothing(buf, full, start);
    } else {
      var next := start + |ps[0].payload|;
      ApplyTiles(Overlay(buf, start, ps[0].payload), ps[1..], full, next, stop);
      OverlaySplit(buf, full, start, next, stop);
    }
  }

  /** All that gpu_device_send_data and the closing zero patch put on the wire. */
  function Transfer(frags: seq<seq<byte>>, skip: nat, length: nat): seq<byte> {
    EncodeAll(Gather(frags, Start(skip, length))) + TERMINATOR
  }

  lemma GatherEncodable(frags: seq<seq<byte>>, skip: nat, length: nat)
    requires |Flat(frags)| < U32_LIMIT
    ensures var full := Flat(frags);
            Tiles(Gather(frags, Start(skip, length)), full,
                  Min(skip, |full|), Min(skip + length, |full|))
    ensures forall p <- Gather(frags, Start(skip, length)) :: Encodable(p) && 0 < |p.payload|
  {
    hide Flat, Tiles, Gather;
    var full := Flat(frags);
    assert full[0..] == full;
    GatherTiles(frags, Start(skip, length), full);
    TilesEncodable(Gather(frags, Start(skip, length)), full,
                   Min(skip, |full|), Min(skip + length, |full|));
  }

  /**
   Round trip: whatever the fragmentation, loading a transfer makes the renderer's flat
   buffer equal the guest backing on [skip, skip + length) cut to the backing, leaves
   every other byte alone, and stops exactly after the terminator.
   */
  lemma PatchRoundTrip(frags: seq<seq<byte>>, skip: nat, length: nat, buf: seq<byte>, rest: seq<byte>)
    requires |Flat(frags)| < U32_LIMIT && |buf| == |Flat(frags)|
    ensures var full := Flat(frags);
            var result := Load(buf, Transfer(frags, skip, length) + rest);
            && result.Loaded? && result.rest == rest && |result.buf| == |full|
            && forall i :: 0 <= i < |full| ==>
                 result.buf[i] == if skip <= i < skip + length then full[i] else buf[i]
  {
    TransferLoads(frags, skip, length, buf, rest);
  }

  lemma TransferLoads(frags: seq<seq<byte>>, skip: nat, length: nat, buf: seq<byte>, rest: seq<byte>)
    requires |Flat(frags)| < U32_LIMIT && |buf| == |Flat(frags)|
    ensures var full := Flat(frags);
            Load(buf, Transfer(frags, skip, length) + rest)
            == Loaded(Overlay(buf, Min(skip, |full|), full[Min(skip, |full|)..Min(skip + length, |full|)]), rest)
  {
    var full := Flat(frags);
    GatherEncodable(frags, skip, length);
    var ps := Gather(frags, Start(skip, length));
    ApplyTiles(buf, ps, full, Min(skip, |full|), Min(skip + length, |full|));
    Assoc(EncodeAll(ps), TERMINATOR, rest);
    LoadAll(buf, ps, TERMINATOR + rest);
    LoadEnd(ApplyAll(buf, ps), rest);
  }

  lemma GatherEnd(frags: seq<seq<byte>>, c: Cursor)
    requires frags == [] || c.length == 0
    ensures Gather(frags, c) == Flush(c.b)
  {
  }

  lemma EncodeGatherStep(sink: seq<byte>, frags: seq<seq<byte>>, c: Cursor)
    requires frags != [] && 0 < c.length
    ensures var spilled := if c.skip < |frags[0]| then EncodeAll(Spill(c.b)) else [];
            sink + EncodeAll(Gather(frags, c))
            == (sink + spilled) + EncodeAll(Gather(frags[1..], Step(frags[0], c)))
  {
    hide EncodeAll, Step, Spill;
    var rest := Gather(frags[1..], Step(frags[0], c));
    if c.skip < |frags[0]| {
      EncodeAllAppend(Spill(c.b), rest);
      Assoc(sink, EncodeAll(Spill(c.b)), EncodeAll(rest));
    } else {
      assert [] + rest == rest;
    }
  }

  // ----- the code that builds and sends the patches -----

  /** struct patch_data together with the byte stream rvgpu_ctx_send appends to. */
  class PatchWriter {
    var sink: seq<byte>
    var hdrOffset: nat
    var hdrLen: nat
    var iov: seq<seq<byte>>  // iov[1..niov]; niov == |iov| + 1

    ghost predicate Valid()
      reads this
    {
      |iov| < IOV_MAX && (iov != [] ==> hdrLen == |Flat(iov)|)
    }

    ghost function State(): Builder
      reads this
    {
      Builder(hdrOffset, iov)
    }

    constructor (sink: seq<byte>)
      ensures Valid() && this.sink == sink && iov == []
    {
      this.sink := sink;
      hdrOffset, hdrLen, iov := 0, 0, [];
    }

    method WritePatch()
      requires Valid()
      modifies this`sink
      ensures sink == old(sink) + EncodeAll(Flush(State()))
    {
      if |iov| == 0 {
        return;
      }
      sink := sink + HeaderBytes(Cut32(hdrOffset), Cut32(hdrLen), RVGPU_PATCH_RES);
      var i := 0;
      while i < |iov|
        invariant 0 <= i <= |iov|
        invariant sink + Flat(iov[i..]) == old(sink) + EncodeAll(Flush(State()))
      {
        Assoc(sink, iov[i], Flat(iov[i + 1..]));
        assert iov[i..][1..] == iov[i + 1..];
        sink := sink + iov[i];
        i := i + 1;
      }
    }

    method AddPatch(offset: nat, data: seq<byte>)
      requires Valid() && offset < U32_LIMIT - 1
      modifies this
      ensures Valid()
      ensures State() == Extend(old(State()), offset, data)
      ensures sink == old(sink) + EncodeAll(Spill(old(State())))
    {
      if |iov| + 1 == IOV_MAX {
        WritePatch();
        iov := [];
      }
      if |iov| == 0 {
        hdrOffset, hdrLen := offset, 0;
      }
      FlatSnoc(iov, data);
      iov := iov + [data];
      hdrLen := hdrLen + |data|;
    }

    /** The body of the loop of gpu_device_send_data. */
    method TakeFragment(v: seq<byte>, skip0: nat, length0: nat, offset: nat) returns (skip: nat, length: nat)
      requires Valid() && 0 < length0 && (skip0 < |v| ==> offset + skip0 < U32_LIMIT - 1)
      modifies this
      ensures Valid()
      ensures Cursor(skip, length, offset + |v|, State()) == Step(v, Cursor(skip0, length0, offset, old(State())))
      ensures sink == old(sink) + (if skip0 < |v| then EncodeAll(Spill(old(State()))) else [])
    {
      skip, length := skip0, length0;
      if skip >= |v| {
        skip := skip - |v|;
      } else {
        var l := |v| - skip;
        if l > length {
          l := length;
        }
        AddPatch(offset + skip, v[skip..skip + l]);
        skip, length := 0, length - l;
      }
    }

    /** The loop of gpu_device_send_data. */
    method SendFragments(iovs: seq<seq<byte>>, skip0: nat, length0: nat)
      requires Valid() && |Flat(iovs)| < U32_LIMIT
      modifies this
      ensures Valid()
      ensures sink + EncodeAll(Flush(State()))
           == old(sink) + EncodeAll(Gather(iovs, Cursor(skip0, length0, 0, old(State()))))
    {
      hide Gather, EncodeAll, Step, Flush, Spill;
      var skip: nat, length: nat, offset: nat, i: nat := skip0, length0, 0, 0;
      ghost var todo := iovs;
      ghost var want := sink + EncodeAll(Gather(todo, Cursor(skip, length, offset, State())));
      while i < |iovs| && length > 0
        invariant 0 <= i <= |iovs| && todo == iovs[i..] && Valid()
        invariant offset + |Flat(todo)| == |Flat(iovs)|
        invariant sink + EncodeAll(Gather(todo, Cursor(skip, length, offset, State()))) == want
      {
        EncodeGatherStep(sink, todo, Cursor(skip, length, offset, State()));
        skip, length := TakeFragment(iovs[i], skip, length, offset);
        offset := offset + |iovs[i]|;
        i := i + 1;
        todo := todo[1..];
      }
      GatherEnd(todo, Cursor(skip, length, offset, State()));
    }

    /** gpu_device_send_data */
    method SendData(iovs: seq<seq<byte>>, skip0: nat, length0: nat)
      requires |Flat(iovs)| < U32_LIMIT
      modifies this
      ensures Valid()
      ensures sink == old(sink) + EncodeAll(Gather(iovs, Start(skip0, length0)))
    {
      hdrOffset, hdrLen, iov := 0, 0, [];  // init_patch on a fresh structure
      SendFragments(iovs, skip0, length0);
      WritePatch();
    }
  }
}

/**
 The commands as the driver lays them out, by the structures of sections 5.7.6.7 to 5.7.6.10 of VIRTIO 1.2,
 and what both ends make of them: the verdict of the sanity check, and the fields that are read.
 */
module Messages {
  import opened Bytes
  import opened Commands

  /** struct virtio_gpu_ctrl_hdr behind the type, in words */
  datatype Head = Head(flags: u32, fenceLow: u32, fenceHigh: u32, ctx: u32, ring: u32)

  datatype Rect = Rect(x: u32, y: u32, w: u32, h: u32)

  /** A guest address or offset of 64 bits. */
  datatype Wide = Wide(low: u32, high: u32)

  datatype Piece = Piece(addr: Wide, length: u32)

  datatype Message =
    | GetDisplayInfo
    | Create2d(id: u32, format: u32, w: u32, h: u32)
    | UnrefRes(id: u32)
    | Scanout(r: Rect, scanout: u32, id: u32)
    | Flush(r: Rect, id: u32)
    | ToHost2d(r: Rect, offset: Wide, id: u32)
    | AttachBacking(id: u32, count: u32, pieces: seq<Piece>)
    | DetachBacking(id: u32)
    | GetCapsetInfo(index: u32)
    | GetCapset(id: u32, version: u32)
    | CtxCreate(nlen: u32, init: u32, name: seq<u32>)
    | CtxDestroy
    | CtxAttach(id: u32)
    | CtxDetach(id: u32)
    | Create3d(id: u32, target: u32, format: u32, bind: u32, w: u32, h: u32, depth: u32, more: seq<u32>)
    | ToHost3d(box: Box, offset: Wide, id: u32, level: u32, stride: u32, layerStride: u32)
    | FromHost3d(box: Box, offset: Wide, id: u32, level: u32, stride: u32, layerStride: u32)
    | Submit3d(size: u32, words: seq<u32>, tail: seq<byte>)
    | UpdateCursor(scanout: u32, x: u32, y: u32, id: u32, hotX: u32, hotY: u32)
    | MoveCursor(scanout: u32, x: u32, y: u32, id: u32, hotX: u32, hotY: u32)

  /** Arrays have the length the structure gives them; those that are counted need not have the length they say. */
  predicate WellFormed(m: Message) {
    match m
    case CtxCreate(_, _, name) => |name| == 16
    case Create3d(_, _, _, _, _, _, _, more) => |more| == 4
    case Submit3d(_, _, tail) => |tail| < 4
    case _ => true
  }

  function Kind(m: Message): u32 {
    match m
    case GetDisplayInfo => 0x0100
    case Create2d(_, _, _, _) => 0x0101
    case UnrefRes(_) => 0x0102
    case Scanout(_, _, _) => 0x0103
    case Flush(_, _) => 0x0104
    case ToHost2d(_, _, _) => 0x0105
    case AttachBacking(_, _, _) => 0x0106
    case DetachBacking(_) => 0x0107
    case GetCapsetInfo(_) => 0x0108
    case GetCapset(_, _) => 0x0109
    case CtxCreate(_, _, _) => 0x0200
    case CtxDestroy => 0x0201
    case CtxAttach(_) => 0x0202
    case CtxDetach(_) => 0x0203
    case Create3d(_, _, _, _, _, _, _, _) => 0x0204
    case ToHost3d(_, _, _, _, _, _) => 0x0205
    case FromHost3d(_, _, _, _, _, _) => 0x0206
    case Submit3d(_, _, _) => 0x0207
    case UpdateCursor(_, _, _, _, _, _) => 0x0300
    case MoveCursor(_, _, _, _, _, _) => 0x0301
  }

  function RectWords(r: Rect): seq<u32> {
    [r.x, r.y, r.w, r.h]
  }

  function PieceWords(pieces: seq<Piece>): (ws: seq<u32>)
    ensures |ws| == 4 * |pieces|
  {
    if pieces == [] then []
    else [pieces[0].addr.low, pieces[0].addr.high, pieces[0].length, 0] + PieceWords(pieces[1..])
  }

  function Transfer3dWords(b: Box, offset: Wide, id: u32, level: u32, stride: u32, layerStride: u32): seq<u32> {
    [b.x, b.y, b.z, b.w, b.h, b.d, offset.low, offset.high, id, level, stride, layerStride]
  }

  function Body(m: Message): seq<u32>
    requires WellFormed(m)
  {
    match m
    case GetDisplayInfo => []
    case Create2d(id, format, w, h) => [id, format, w, h]
    case UnrefRes(id) => [id, 0]
    case Scanout(r, scanout, id) => RectWords(r) + [scanout, id]
    case Flush(r, id) => RectWords(r) + [id, 0]
    case ToHost2d(r, offset, id) => RectWords(r) + [offset.low, offset.high, id, 0]
    case AttachBacking(id, count, pieces) => [id, count] + PieceWords(pieces)
    case DetachBacking(id) => [id, 0]
    case GetCapsetInfo(index) => [index, 0]
    case GetCapset(id, version) => [id, version]
    case CtxCreate(nlen, init, name) => [nlen, init] + name
    case CtxDestroy => []
    case CtxAttach(id) => [id, 0]
    case CtxDetach(id) => [id, 0]
    case Create3d(id, target, format, bind, w, h, depth, more) => [id, target, format, bind, w, h, depth] + more + [0]
    case ToHost3d(b, offset, id, level, stride, layer) => Transfer3dWords(b, offset, id, level, stride, layer)
    case FromHost3d(b, offset, id, level, stride, layer) => Transfer3dWords(b, offset, id, level, stride, layer)
    case Submit3d(size, words, _) => [size, 0] + words
    case UpdateCursor(scanout, x, y, id, hotX, hotY) => [scanout, x, y, 0, id, hotX, hotY, 0]
    case MoveCursor(scanout, x, y, id, hotX, hotY) => [scanout, x, y, 0, id, hotX, hotY, 0]
  }

  function Words(h: Head, m: Message): seq<u32>
    requires WellFormed(m)
  {
    [Kind(m), h.flags, h.fenceLow, h.fenceHigh, h.ctx, h.ring] + Body(m)
  }

  function Encode(h: Head, m: Message): seq<byte>
    requires WellFormed(m)
  {
    WordsBytes(Words(h, m)) + if m.Submit3d? then m.tail else []
  }

  /** Which queue it belongs on. */
  predicate OnCursorQueue(m: Message) {
    m.UpdateCursor? || m.MoveCursor?
  }

  // ----- what is made of it -----

  /** Coordinates fit a signed int, and so do the bytes of the rectangle with 4 of them to a pixel; it is not empty. */
  predicate Sound(x: u32, y: u32, w: u32, h: u32) {
    && x < 0x8000_0000 && y < 0x8000_0000
    && 0 < w < 0x8000_0000 && 0 < h < 0x8000_0000 && 4 * (w * h) < 0x8000_0000
  }

  function Check(ok: bool, error: Response): Response {
    if ok then OkNodata else error
  }

  function VerdictId(id: u32, ok: bool): Response {
    if id == 0 then ErrResourceId else Check(ok, ErrParameter)
  }

  function VerdictCtx(h: Head, m: Message, ok: bool): Response {
    if h.ctx == 0 then ErrContextId else Check(ok, ErrParameter)
  }

  function VerdictBox(h: Head, id: u32, b: Box): Response {
    if h.ctx == 0 then ErrContextId
    else VerdictId(id, b.z < 0x8000_0000 && b.d < 0x8000_0000 && Sound(b.x, b.y, b.w, b.h))
  }

  /** What the sanity check says of a message, by its fields. */
  function Verdict(h: Head, m: Message, strict: bool): Response
    requires WellFormed(m)
  {
    match m
    case GetDisplayInfo => OkNodata
    case Create2d(id, format, w, hgt) =>
      VerdictId(id, Sound(0, 0, w, hgt) && (1 <= format <= 4 || format in {67, 68, 121, 134}))
    case UnrefRes(id) => VerdictId(id, true)
    case Scanout(r, scanout, id) =>
      if scanout >= 16 then ErrScanoutId else Check(id == 0 || Sound(r.x, r.y, r.w, r.h), ErrParameter)
    case Flush(r, id) =>
      if strict && id == 0 then ErrResourceId else Check(Sound(r.x, r.y, r.w, r.h), ErrParameter)
    case ToHost2d(r, _, id) => VerdictId(id, Sound(r.x, r.y, r.w, r.h))
    case AttachBacking(id, count, pieces) =>
      if 32 + 16 * |pieces| > 266272 then ErrOutOfMemory
      else if pieces == [] then ErrParameter
      else VerdictId(id, count == |pieces|)
    case DetachBacking(id) => VerdictId(id, true)
    case GetCapsetInfo(_) => OkNodata
    case GetCapset(_, _) => OkNodata
    case CtxCreate(nlen, _, _) => VerdictCtx(h, m, nlen <= 64)
    case CtxDestroy => VerdictCtx(h, m, true)
    case CtxAttach(id) => if h.ctx == 0 then ErrContextId else Check(!strict || id != 0, ErrResourceId)
    case CtxDetach(id) => if h.ctx == 0 then ErrContextId else Check(!strict || id != 0, ErrResourceId)
    case Create3d(id, _, _, _, w, hgt, _, _) => VerdictId(id, Sound(0, 0, w, hgt))
    case ToHost3d(b, _, id, _, _, _) => VerdictBox(h, id, b)
    case FromHost3d(b, _, id, _, _, _) => VerdictBox(h, id, b)
    case Submit3d(size, words, tail) =>
      if 32 + 4 * |words| + |tail| > 266272 then ErrOutOfMemory
      else if words == [] && tail == [] then ErrParameter
      else VerdictCtx(h, m, size == 4 * |words| + |tail|)
    case UpdateCursor(scanout, _, _, id, _, _) =>
      if id == 0 then ErrResourceId else Check(scanout < 16, ErrScanoutId)
    case MoveCursor(scanout, _, _, _, _, _) => Check(scanout < 16, ErrScanoutId)
  }

  function Number(w: Wide): nat {
    w.low + 0x1_0000_0000 * w.high
  }

  function Memory(pieces: seq<Piece>): (entries: seq<MemEntry>)
    ensures |entries| == |pieces|
  {
    if pieces == [] then [] else [MemEntry(Number(pieces[0].addr), pieces[0].length)] + Memory(pieces[1..])
  }

  function Flat2d(r: Rect): Box {
    Box(r.x, r.y, 0, r.w, r.h, 1)
  }

  /** What a message asks for, as far as resources go. */
  function Meaning(m: Message): Cmd {
    match m
    case Create2d(id, format, w, h) => Create(id, 2, format, w, h)
    case Create3d(id, target, format, _, w, h, _, _) => Create(id, target, format, w, h)
    case UnrefRes(id) => Unref(id)
    case Scanout(r, scanout, id) => SetScanout(scanout, id, Flat2d(r))
    case ToHost2d(r, offset, id) => ToHost(id, TransferArgs(Flat2d(r), 0, 0, 0, Number(offset)))
    case AttachBacking(id, _, pieces) => Attach(id, Memory(pieces))
    case DetachBacking(id) => Detach(id)
    case ToHost3d(b, offset, id, level, stride, _) => ToHost(id, TransferArgs(b, level, stride, 0, Number(offset)))
    case FromHost3d(b, offset, id, level, stride, layer) =>
      FromHost(id, TransferArgs(b, level, stride, layer, Number(offset)))
    case Submit3d(_, words, _) => Submit(words)
    case _ => Other
  }

  /** The check gives this verdict, and a message that passes is parsed to its meaning. */
  ghost predicate Reads(h: Head, m: Message, strict: bool)
    requires WellFormed(m)
  {
    var b, cursor := Encode(h, m), OnCursorQueue(m);
    && Sanity(b, cursor, strict) == Verdict(h, m, strict)
    && (Sanity(b, cursor, false) == OkNodata ==> Parse(b, cursor) == Meaning(m))
  }

  // ----- the words of a message -----

  lemma SizeIs(h: Head, m: Message)
    requires WellFormed(m)
    ensures |Words(h, m)| == 6 + |Body(m)|
    ensures |Encode(h, m)| == 24 + 4 * |Body(m)| + if m.Submit3d? then |m.tail| else 0
  {
  }

  lemma HeadAt(h: Head, m: Message)
    requires WellFormed(m)
    ensures |Encode(h, m)| >= 24 && U32At(Encode(h, m), 0) == Kind(m) && U32At(Encode(h, m), 16) == h.ctx
  {
    hide WordsBytes, U32At;
    SizeIs(h, m);
    WordReadAt(h, m, 0);
    WordReadAt(h, m, 4);
  }

  lemma WordReadAt(h: Head, m: Message, i: nat)
    requires WellFormed(m) && i < |Words(h, m)|
    ensures 4 * i + 4 <= |Encode(h, m)| && U32At(Encode(h, m), 4 * i) == Words(h, m)[i]
  {
    hide Words;
    var ws, b := Words(h, m), WordsBytes(Words(h, m));
    WordAt(ws, i);
    assert forall k :: 4 * i <= k < 4 * i + 4 ==> Encode(h, m)[k] == b[k];
  }

  lemma BodyAt(h: Head, m: Message, i: nat)
    requires WellFormed(m) && i < |Body(m)|
    ensures 28 + 4 * i <= |Encode(h, m)| && U32At(Encode(h, m), 24 + 4 * i) == Body(m)[i]
  {
    hide Body, U32At, Encode;
    WordReadAt(h, m, 6 + i);
  }

  // ----- each message -----

  lemma DisplayInfoReads(h: Head, strict: bool)
    ensures Reads(h, GetDisplayInfo, strict)
  {
    hide U32At, WordsBytes, Words, Encode;
    var m := GetDisplayInfo;
    SizeIs(h, m);
    HeadAt(h, m);
  }

  lemma Create2dReads(h: Head, id: u32, format: u32, w: u32, hgt: u32, strict: bool)
    ensures Reads(h, Create2d(id, format, w, hgt), strict)
  {
    hide U32At, WordsBytes, Words, Encode;
    var m := Create2d(id, format, w, hgt);
    SizeIs(h, m);
    HeadAt(h, m);
    BodyAt(h, m, 0); BodyAt(h, m, 1); BodyAt(h, m, 2); BodyAt(h, m, 3);
  }

  lemma UnrefReads(h: Head, id: u32, strict: bool)
    ensures Reads(h, UnrefRes(id), strict)
  {
    hide U32At, WordsBytes, Words, Encode;
    var m := UnrefRes(id);
    SizeIs(h, m);
    HeadAt(h, m);
    BodyAt(h, m, 0);
  }

  lemma ScanoutReads(h: Head, r: Rect, scanout: u32, id: u32, strict: bool)
    ensures Reads(h, Scanout(r, scanout, id), strict)
  {
    hide U32At, WordsBytes, Words, Encode;
    var m := Scanout(r, scanout, id);
    SizeIs(h, m);
    HeadAt(h, m);
    BodyAt(h, m, 0); BodyAt(h, m, 1); BodyAt(h, m, 2); BodyAt(h, m, 3); BodyAt(h, m, 4); BodyAt(h, m, 5);
  }

  lemma FlushReads(h: Head, r: Rect, id: u32, strict: bool)
    ensures Reads(h, Flush(r, id), strict)
  {
    hide U32At, WordsBytes, Words, Encode;
    var m := Flush(r, id);
    SizeIs(h, m);
    HeadAt(h, m);
    BodyAt(h, m, 0); BodyAt(h, m, 1); BodyAt(h, m, 2); BodyAt(h, m, 3); BodyAt(h, m, 4);
  }

  lemma ToHost2dReads(h: Head, r: Rect, offset: Wide, id: u32, strict: bool)
    ensures Reads(h, ToHost2d(r, offset, id), strict)
  {
    hide U32At, WordsBytes, Words, Encode;
    var m := ToHost2d(r, offset, id);
    SizeIs(h, m);
    HeadAt(h, m);
    BodyAt(h, m, 0); BodyAt(h, m, 1); BodyAt(h, m, 2); BodyAt(h, m, 3); BodyAt(h, m, 4); BodyAt(h, m, 5);
    BodyAt(h, m, 6);
  }

  lemma DetachReads(h: Head, id: u32, strict: bool)
    ensures Reads(h, DetachBacking(id), strict)
  {
    hide U32At, WordsBytes, Words, Encode;
    var m := DetachBacking(id);
    SizeIs(h, m);
    HeadAt(h, m);
    BodyAt(h, m, 0);
  }

  lemma CapsetInfoReads(h: Head, index: u32, strict: bool)
    ensures Reads(h, GetCapsetInfo(index), strict)
  {
    hide U32At, WordsBytes, Words, Encode;
    var m := GetCapsetInfo(index);
    SizeIs(h, m);
    HeadAt(h, m);
  }

  lemma CapsetReads(h: Head, id: u32, version: u32, strict: bool)
    ensures Reads(h, GetCapset(id, version), strict)
  {
    hide U32At, WordsBytes, Words, Encode;
    var m := GetCapset(id, version);
    SizeIs(h, m);
    HeadAt(h, m);
  }

  lemma CtxCreateReads(h: Head, nlen: u32, init: u32, name: seq<u32>, strict: bool)
    requires |name| == 16
    ensures Reads(h, CtxCreate(nlen, init, name), strict)
  {
    hide U32At, WordsBytes, Words, Encode;
    var m := CtxCreate(nlen, init, name);
    SizeIs(h, m);
    HeadAt(h, m);
    BodyAt(h, m, 0);
  }

  lemma CtxDestroyReads(h: Head, strict: bool)
    ensures Reads(h, CtxDestroy, strict)
  {
    hide U32At, WordsBytes, Words, Encode;
    var m := CtxDestroy;
    SizeIs(h, m);
    HeadAt(h, m);
  }

  lemma CtxAttachReads(h: Head, id: u32, strict: bool)
    ensures Reads(h, CtxAttach(id), strict)
  {
    hide U32At, WordsBytes, Words, Encode;
    var m := CtxAttach(id);
    SizeIs(h, m);
    HeadAt(h, m);
    BodyAt(h, m, 0);
  }

  lemma CtxDetachReads(h: Head, id: u32, strict: bool)
    ensures Reads(h, CtxDetach(id), strict)
  {
    hide U32At, WordsBytes, Words, Encode;
    var m := CtxDetach(id);
    SizeIs(h, m);
    HeadAt(h, m);
    BodyAt(h, m, 0);
  }

  lemma Create3dReads(h: Head, id: u32, target: u32, format: u32, bind: u32, w: u32, hgt: u32, depth: u32,
                      more: seq<u32>, strict: bool)
    requires |more| == 4
    ensures Reads(h, Create3d(id, target, format, bind, w, hgt, depth, more), strict)
  {
    hide U32At, WordsBytes, Words, Encode;
    var m := Create3d(id, target, format, bind, w, hgt, depth, more);
    SizeIs(h, m);
    HeadAt(h, m);
    BodyAt(h, m, 0); BodyAt(h, m, 1); BodyAt(h, m, 2); BodyAt(h, m, 3); BodyAt(h, m, 4); BodyAt(h, m, 5);
  }

  lemma ToHost3dReads(h: Head, box: Box, offset: Wide, id: u32, level: u32, stride: u32, layer: u32, strict: bool)
    ensures Reads(h, ToHost3d(box, offset, id, level, stride, layer), strict)
  {
    hide U32At, WordsBytes, Words, Encode;
    var m := ToHost3d(box, offset, id, level, stride, layer);
    SizeIs(h, m);
    HeadAt(h, m);
    BodyAt(h, m, 0); BodyAt(h, m, 1); BodyAt(h, m, 2); BodyAt(h, m, 3); BodyAt(h, m, 4); BodyAt(h, m, 5);
    BodyAt(h, m, 6); BodyAt(h, m, 7); BodyAt(h, m, 8); BodyAt(h, m, 9); BodyAt(h, m, 10); BodyAt(h, m, 11);
  }

  lemma FromHost3dReads(h: Head, box: Box, offset: Wide, id: u32, level: u32, stride: u32, layer: u32, strict: bool)
    ensures Reads(h, FromHost3d(box, offset, id, level, stride, layer), strict)
  {
    hide U32At, WordsBytes, Words, Encode;
    var m := FromHost3d(box, offset, id, level, stride, layer);
    SizeIs(h, m);
    HeadAt(h, m);
    BodyAt(h, m, 0); BodyAt(h, m, 1); BodyAt(h, m, 2); BodyAt(h, m, 3); BodyAt(h, m, 4); BodyAt(h, m, 5);
    BodyAt(h, m, 6); BodyAt(h, m, 7); BodyAt(h, m, 8); BodyAt(h, m, 9); BodyAt(h, m, 10); BodyAt(h, m, 11);
  }

  lemma UpdateCursorReads(h: Head, scanout: u32, x: u32, y: u32, id: u32, hotX: u32, hotY: u32, strict: bool)
    ensures Reads(h, UpdateCursor(scanout, x, y, id, hotX, hotY), strict)
  {
    hide U32At, WordsBytes, Words, Encode;
    var m := UpdateCursor(scanout, x, y, id, hotX, hotY);
    SizeIs(h, m);
    HeadAt(h, m);
    BodyAt(h, m, 0); BodyAt(h, m, 4);
  }

  lemma MoveCursorReads(h: Head, scanout: u32, x: u32, y: u32, id: u32, hotX: u32, hotY: u32, strict: bool)
    ensures Reads(h, MoveCursor(scanout, x, y, id, hotX, hotY), strict)
  {
    hide U32At, WordsBytes, Words, Encode;
    var m := MoveCursor(scanout, x, y, id, hotX, hotY);
    SizeIs(h, m);
    HeadAt(h, m);
    BodyAt(h, m, 0); BodyAt(h, m, 4);
  }

  lemma {:induction false} PiecesAt(pieces: seq<Piece>, i: nat)
    requires i < |pieces|
    ensures var ws, p := PieceWords(pieces), pieces[i];
            ws[4 * i] == p.addr.low && ws[4 * i + 1] == p.addr.high && ws[4 * i + 2] == p.length
    ensures Memory(pieces)[i] == MemEntry(Number(pieces[i].addr), pieces[i].length)
  {
    if i > 0 {
      PiecesAt(pieces[1..], i - 1);
      var j := 4 * i;
      assert PieceWords(pieces)[j] == PieceWords(pieces[1..])[j - 4];
      assert PieceWords(pieces)[j + 1] == PieceWords(pieces[1..])[j - 3];
      assert PieceWords(pieces)[j + 2] == PieceWords(pieces[1..])[j - 2];
    }
  }

  lemma PieceReads(h: Head, m: Message, i: nat)
    requires m.AttachBacking? && WellFormed(m) && i < |m.pieces|
    ensures 48 + 16 * i <= |Encode(h, m)|
    ensures MemEntry(U64At(Encode(h, m), 32 + 16 * i), U32At(Encode(h, m), 40 + 16 * i)) == Memory(m.pieces)[i]
  {
    hide U32At, Encode, PieceWords, Memory;
    SizeIs(h, m);
    PiecesAt(m.pieces, i);
    var at := 2 + 4 * i;
    BodyAt(h, m, at);
    BodyAt(h, m, at + 1);
    BodyAt(h, m, at + 2);
    assert Body(m)[at] == PieceWords(m.pieces)[4 * i];
    assert Body(m)[at + 1] == PieceWords(m.pieces)[4 * i + 1];
    assert Body(m)[at + 2] == PieceWords(m.pieces)[4 * i + 2];
  }

  lemma AttachReads(h: Head, id: u32, count: u32, pieces: seq<Piece>, strict: bool)
    ensures Reads(h, AttachBacking(id, count, pieces), strict)
  {
    hide U32At, WordsBytes, Words, Encode, PieceWords, Memory;
    var m := AttachBacking(id, count, pieces);
    SizeIs(h, m);
    HeadAt(h, m);
    BodyAt(h, m, 0); BodyAt(h, m, 1);
    if Sanity(Encode(h, m), false, false) == OkNodata {
      forall i | 0 <= i < |pieces|
        ensures Parse(Encode(h, m), false).entries[i] == Memory(pieces)[i]
      {
        PieceReads(h, m, i);
      }
      assert Parse(Encode(h, m), false).entries == Memory(pieces);
    }
  }

  lemma SubmitReads(h: Head, size: u32, words: seq<u32>, tail: seq<byte>, strict: bool)
    requires |tail| < 4
    ensures Reads(h, Submit3d(size, words, tail), strict)
  {
    hide U32At, WordsBytes, Words, Encode;
    var m := Submit3d(size, words, tail);
    SizeIs(h, m);
    HeadAt(h, m);
    BodyAt(h, m, 0);
    if Sanity(Encode(h, m), false, false) == OkNodata {
      assert (4 * |words| + |tail|) / 4 == |words|;
      forall i | 0 <= i < |words|
        ensures Parse(Encode(h, m), false).words[i] == words[i]
      {
        BodyAt(h, m, 2 + i);
      }
      assert Parse(Encode(h, m), false).words == words;
    }
  }

  /** For every message, every header, strict or not. */
  lemma EncodedReads(h: Head, m: Message, strict: bool)
    requires WellFormed(m)
    ensures Reads(h, m, strict)
  {
    hide Reads;
    match m {
      case GetDisplayInfo => DisplayInfoReads(h, strict);
      case Create2d(id, format, w, hgt) => Create2dReads(h, id, format, w, hgt, strict);
      case UnrefRes(id) => UnrefReads(h, id, strict);
      case Scanout(r, scanout, id) => ScanoutReads(h, r, scanout, id, strict);
      case Flush(r, id) => FlushReads(h, r, id, strict);
      case ToHost2d(r, offset, id) => ToHost2dReads(h, r, offset, id, strict);
      case DetachBacking(id) => DetachReads(h, id, strict);
      case GetCapsetInfo(index) => CapsetInfoReads(h, index, strict);
      case GetCapset(id, version) => CapsetReads(h, id, version, strict);
      case CtxCreate(nlen, init, name) => CtxCreateReads(h, nlen, init, name, strict);
      case CtxDestroy => CtxDestroyReads(h, strict);
      case CtxAttach(id) => CtxAttachReads(h, id, strict);
      case CtxDetach(id) => CtxDetachReads(h, id, strict);
      case Create3d(id, target, format, bind, w, hgt, depth, more) =>
        Create3dReads(h, id, target, format, bind, w, hgt, depth, more, strict);
      case ToHost3d(box, offset, id, level, stride, layer) =>
        ToHost3dReads(h, box, offset, id, level, stride, layer, strict);
      case FromHost3d(box, offset, id, level, stride, layer) =>
        FromHost3dReads(h, box, offset, id, level, stride, layer, strict);
      case UpdateCursor(scanout, x, y, id, hotX, hotY) => UpdateCursorReads(h, scanout, x, y, id, hotX, hotY, strict);
      case MoveCursor(scanout, x, y, id, hotX, hotY) => MoveCursorReads(h, scanout, x, y, id, hotX, hotY, strict);
      case AttachBacking(id, count, pieces) => AttachReads(h, id, count, pieces, strict);
      case Submit3d(size, words, tail) => SubmitReads(h, size, words, tail, strict);
    }
  }

  /** A request of the type of a message without variable parts, but not of its length, is refused. */
  lemma WrongLength(h: Head, m: Message, b: seq<byte>, strict: bool)
    requires WellFormed(m) && !m.AttachBacking? && !m.Submit3d?
    requires |b| != |Encode(h, m)| && 24 <= |b| <= 266272 && U32At(b, 0) == Kind(m)
    ensures Sanity(b, OnCursorQueue(m), strict) == ErrParameter
  {
    hide U32At, WordsBytes, Words, Encode;
    SizeIs(h, m);
  }

  /** So is one of a type that is not of its queue, or that is too short or too long for any. */
  lemma OddRefused(b: seq<byte>, cursor: bool, strict: bool)
    ensures !cursor && |b| < 24 ==> Sanity(b, cursor, strict) == ErrParameter
    ensures !cursor && |b| > 266272 ==> Sanity(b, cursor, strict) == ErrOutOfMemory
    ensures cursor && |b| != 56 ==> Sanity(b, cursor, strict) == ErrParameter
    ensures (if cursor then |b| == 56 else 24 <= |b| <= 266272)
            && !(if cursor then U32At(b, 0) in {0x0300, 0x0301}
                 else 0x0100 <= U32At(b, 0) <= 0x0109 || 0x0200 <= U32At(b, 0) <= 0x0207)
            ==> Sanity(b, cursor, strict) == ErrUnspec
  {
  }
}

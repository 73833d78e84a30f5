/**
 virtio-gpu commands as both ends see them: the bytes of union virtio_gpu_cmd, the sanity
 check that runs on each side (src/rvgpu-sanity/rvgpu-sanity.c), and the walk over the
 virgl command buffer of SUBMIT_3D. Layouts and codes are those of section 5.7.6 of
 VIRTIO 1.2.
 */
module Commands {
  import opened Bytes

  const HDR_SIZE := 24
  const SUBMIT_HDR_SIZE := 32
  const MAX_CMD_SIZE := (64 * 1024 + 1024) * 4 + SUBMIT_HDR_SIZE  // sizeof(union virtio_gpu_cmd)
  const MAX_SCANOUTS := 16
  const INT32_MAX := 0x7fff_ffff

  datatype Response =
    OkNodata | ErrUnspec | ErrOutOfMemory | ErrScanoutId | ErrResourceId | ErrContextId | ErrParameter

  predicate BoundsOk(x: u32, y: u32, width: u32, height: u32) {
    && x <= INT32_MAX && y <= INT32_MAX
    && 0 < width <= INT32_MAX && 0 < height <= INT32_MAX
    && height * width * 4 <= INT32_MAX
  }

  /** A virtio_gpu_rect stored at offset i. */
  predicate RectOk(b: seq<byte>, i: nat)
    requires i + 16 <= |b|
  {
    BoundsOk(U32At(b, i), U32At(b, i + 4), U32At(b, i + 8), U32At(b, i + 12))
  }

  /** A virtio_gpu_box stored at offset i. */
  predicate BoxOk(b: seq<byte>, i: nat)
    requires i + 24 <= |b|
  {
    && U32At(b, i + 8) <= INT32_MAX && U32At(b, i + 20) <= INT32_MAX
    && BoundsOk(U32At(b, i), U32At(b, i + 4), U32At(b, i + 12), U32At(b, i + 16))
  }

  predicate Format2dOk(f: u32) {
    f in {1, 2, 3, 4, 67, 68, 121, 134}
  }

  /** sanity_check_gpu_ctrl; size is |b|. */
  function SanityCtrl(b: seq<byte>, strict: bool): Response {
    var size := |b|;
    if size < HDR_SIZE then ErrParameter
    else if size > MAX_CMD_SIZE then ErrOutOfMemory
    else
      var ctx := U32At(b, 16);
      match U32At(b, 0)
      case 0x0100 =>                                            // GET_DISPLAY_INFO
        if size != HDR_SIZE then ErrParameter else OkNodata
      case 0x0101 =>                                            // RESOURCE_CREATE_2D
        if size != 40 then ErrParameter
        else if U32At(b, 24) == 0 then ErrResourceId
        else if !BoundsOk(0, 0, U32At(b, 32), U32At(b, 36)) then ErrParameter
        else if !Format2dOk(U32At(b, 28)) then ErrParameter
        else OkNodata
      case 0x0102 =>                                            // RESOURCE_UNREF
        if size != 32 then ErrParameter
        else if U32At(b, 24) == 0 then ErrResourceId
        else OkNodata
      case 0x0103 =>                                            // SET_SCANOUT
        if size != 48 then ErrParameter
        else if U32At(b, 40) >= MAX_SCANOUTS then ErrScanoutId
        else if U32At(b, 44) != 0 && !RectOk(b, 24) then ErrParameter
        else OkNodata
      case 0x0104 =>                                            // RESOURCE_FLUSH
        if size != 48 then ErrParameter
        else if strict && U32At(b, 40) == 0 then ErrResourceId
        else if !RectOk(b, 24) then ErrParameter
        else OkNodata
      case 0x0105 =>                                            // TRANSFER_TO_HOST_2D
        if size != 56 then ErrParameter
        else if U32At(b, 48) == 0 then ErrResourceId
        else if !RectOk(b, 24) then ErrParameter
        else OkNodata
      case 0x0106 =>                                            // RESOURCE_ATTACH_BACKING
        if size <= 32 then ErrParameter
        else if U32At(b, 24) == 0 then ErrResourceId
        else if size != 32 + U32At(b, 28) * 16 then ErrParameter
        else OkNodata
      case 0x0107 =>                                            // RESOURCE_DETACH_BACKING
        if size != 32 then ErrParameter
        else if U32At(b, 24) == 0 then ErrResourceId
        else OkNodata
      case 0x0108 =>                                            // GET_CAPSET_INFO
        if size != 32 then ErrParameter else OkNodata
      case 0x0109 =>                                            // GET_CAPSET
        if size != 32 then ErrParameter else OkNodata
      case 0x0200 =>                                            // CTX_CREATE
        if size != 96 then ErrParameter
        else if ctx == 0 then ErrContextId
        else if U32At(b, 24) > 64 then ErrParameter
        else OkNodata
      case 0x0201 =>                                            // CTX_DESTROY
        if size != HDR_SIZE then ErrParameter
        else if ctx == 0 then ErrContextId
        else OkNodata
      case 0x0202 => SanityCtxResource(b, strict)               // CTX_ATTACH_RESOURCE
      case 0x0203 => SanityCtxResource(b, strict)               // CTX_DETACH_RESOURCE
      case 0x0204 =>                                            // RESOURCE_CREATE_3D
        if size != 72 then ErrParameter
        else if U32At(b, 24) == 0 then ErrResourceId
        else if !BoundsOk(0, 0, U32At(b, 40), U32At(b, 44)) then ErrParameter
        else OkNodata
      case 0x0205 => SanityTransfer3d(b)                        // TRANSFER_TO_HOST_3D
      case 0x0206 => SanityTransfer3d(b)                        // TRANSFER_FROM_HOST_3D
      case 0x0207 =>                                            // SUBMIT_3D
        if size <= SUBMIT_HDR_SIZE then ErrParameter
        else if ctx == 0 then ErrContextId
        else if size != U32At(b, 24) + SUBMIT_HDR_SIZE then ErrParameter
        else OkNodata
      case _ => ErrUnspec
  }

  function SanityCtxResource(b: seq<byte>, strict: bool): Response
    requires HDR_SIZE <= |b|
  {
    if |b| != 32 then ErrParameter
    else if U32At(b, 16) == 0 then ErrContextId
    else if strict && U32At(b, 24) == 0 then ErrResourceId
    else OkNodata
  }

  function SanityTransfer3d(b: seq<byte>): Response
    requires HDR_SIZE <= |b|
  {
    if |b| != 72 then ErrParameter
    else if U32At(b, 16) == 0 then ErrContextId
    else if U32At(b, 56) == 0 then ErrResourceId
    else if !BoxOk(b, 24) then ErrParameter
    else OkNodata
  }

  /** sanity_check_gpu_cursor, which ignores strict. */
  function SanityCursor(b: seq<byte>): Response {
    if |b| != 56 then ErrParameter
    else if U32At(b, 0) == 0x0300 && U32At(b, 40) == 0 then ErrResourceId
    else if U32At(b, 0) != 0x0300 && U32At(b, 0) != 0x0301 then ErrUnspec
    else if U32At(b, 24) >= MAX_SCANOUTS then ErrScanoutId
    else OkNodata
  }

  function Sanity(b: seq<byte>, cursor: bool, strict: bool): Response {
    if cursor then SanityCursor(b) else SanityCtrl(b, strict)
  }

  /** What the check of the proxy sees of a request: on the control queue its size is cut to 32 bits before. */
  function Seen(b: seq<byte>, cursor: bool): seq<byte> {
    if cursor then b else b[..Cut32(|b|)]
  }

  lemma SeenAll(b: seq<byte>, cursor: bool)
    requires |b| < U32_LIMIT
    ensures Seen(b, cursor) == b
  {
    assert b[..|b|] == b;
  }

  /** The proxy lets the request through. */
  predicate Passes(b: seq<byte>, cursor: bool) {
    Sanity(Seen(b, cursor), cursor, true) == OkNodata
  }

  /** The renderer, which is not strict, accepts what the proxy has seen of whatever it lets through. */
  lemma SaneOnBothEnds(b: seq<byte>, cursor: bool)
    requires Passes(b, cursor)
    ensures Sanity(Seen(b, cursor), cursor, false) == OkNodata && HDR_SIZE <= |Seen(b, cursor)| <= MAX_CMD_SIZE
  {
  }

  /** The command the proxy takes the request for. */
  function CmdOf(b: seq<byte>, cursor: bool): Cmd
    requires Passes(b, cursor)
  {
    SaneOnBothEnds(b, cursor);
    Parse(Seen(b, cursor), cursor)
  }

  // ----- the fields the resource tables depend on -----

  datatype Box = Box(x: u32, y: u32, z: u32, w: u32, h: u32, d: u32)

  /** struct rvgpu_res_transfer */
  datatype TransferArgs = TransferArgs(box: Box, level: u32, stride: u32, layerStride: u32, offset: nat)

  datatype MemEntry = MemEntry(addr: nat, length: u32)

  datatype Cmd =
    | Create(id: u32, target: u32, format: u32, width: u32, height: u32)
    | Unref(id: u32)
    | Attach(id: u32, entries: seq<MemEntry>)
    | Detach(id: u32)
    | ToHost(id: u32, args: TransferArgs)
    | FromHost(id: u32, args: TransferArgs)
    | Submit(words: seq<u32>)
    | SetScanout(scanout: u32, id: u32, box: Box)
    | Other

  function Parse(b: seq<byte>, cursor: bool): Cmd
    requires Sanity(b, cursor, false) == OkNodata
  {
    if cursor then Other else
      match U32At(b, 0)
      case 0x0101 => Create(U32At(b, 24), 2, U32At(b, 28), U32At(b, 32), U32At(b, 36))
      case 0x0102 => Unref(U32At(b, 24))
      case 0x0103 =>
        SetScanout(U32At(b, 40), U32At(b, 44), Box(U32At(b, 24), U32At(b, 28), 0, U32At(b, 32), U32At(b, 36), 1))
      case 0x0105 =>
        ToHost(U32At(b, 48), TransferArgs(
          Box(U32At(b, 24), U32At(b, 28), 0, U32At(b, 32), U32At(b, 36), 1), 0, 0, 0, U64At(b, 40)))
      case 0x0106 => Attach(U32At(b, 24), seq(U32At(b, 28), i requires 0 <= i < U32At(b, 28) =>
          MemEntry(U64At(b, 32 + 16 * i), U32At(b, 40 + 16 * i))))
      case 0x0107 => Detach(U32At(b, 24))
      case 0x0204 => Create(U32At(b, 24), U32At(b, 28), U32At(b, 32), U32At(b, 40), U32At(b, 44))
      case 0x0205 =>
        // gpu_device_serve_ctrl does not copy layer_stride
        ToHost(U32At(b, 56), TransferArgs(BoxAt(b), U32At(b, 60), U32At(b, 64), 0, U64At(b, 48)))
      case 0x0206 =>
        FromHost(U32At(b, 56), TransferArgs(BoxAt(b), U32At(b, 60), U32At(b, 64), U32At(b, 68), U64At(b, 48)))
      case 0x0207 => Submit(seq(U32At(b, 24) / 4, i requires 0 <= i < U32At(b, 24) / 4 =>
          U32At(b, SUBMIT_HDR_SIZE + 4 * i)))
      case _ => Other
  }

  function BoxAt(b: seq<byte>): Box
    requires 48 <= |b|
  {
    Box(U32At(b, 24), U32At(b, 28), U32At(b, 32), U32At(b, 36), U32At(b, 40), U32At(b, 44))
  }

  // ----- the walk over a SUBMIT_3D buffer -----

  const TRANSFER3D := 43
  const COPY_TRANSFER3D := 45
  const TRANSFER3D_HEADER: u32 := TRANSFER3D + 0x1_0000 * 13
  const COPY_TRANSFER3D_HEADER: u32 := COPY_TRANSFER3D + 0x1_0000 * 14

  datatype Xfer = Xfer(id: u32, args: TransferArgs)

  /** Word i of the buffer; what lies behind its end is whatever an earlier command left. */
  function Word(words: seq<u32>, stale: nat -> u32, i: nat): u32 {
    if i < |words| then words[i] else stale(i)
  }

  /** The argument words both transfer commands share, and the offset word of each. */
  function ArgsAt(words: seq<u32>, stale: nat -> u32, at: nat, offsetWord: nat): TransferArgs {
    TransferArgs(
      Box(Word(words, stale, at + 6), Word(words, stale, at + 7), Word(words, stale, at + 8),
          Word(words, stale, at + 9), Word(words, stale, at + 10), Word(words, stale, at + 11)),
      Word(words, stale, at + 2), Word(words, stale, at + 4), Word(words, stale, at + 5),
      Word(words, stale, at + offsetWord))
  }

  /** The resource transfer, if any, of the virgl command at offset at. */
  function XferAt(words: seq<u32>, stale: nat -> u32, at: nat): seq<Xfer>
    requires at < |words|
  {
    if words[at] == TRANSFER3D_HEADER then
      [Xfer(Word(words, stale, at + 1), ArgsAt(words, stale, at, 12))]
    else if words[at] == COPY_TRANSFER3D_HEADER then
      [Xfer(Word(words, stale, at + 12), ArgsAt(words, stale, at, 13))]
    else []
  }

  function Next(words: seq<u32>, at: nat): nat
    requires at < |words|
  {
    at + words[at] / 0x1_0000 + 1
  }

  function Walk(words: seq<u32>, stale: nat -> u32, at: nat): seq<Xfer>
    decreases |words| - at
  {
    if at >= |words| then [] else XferAt(words, stale, at) + Walk(words, stale, Next(words, at))
  }

  /** The words read for the command at offset at lie inside the buffer. */
  predicate Inside(words: seq<u32>, at: nat)
    requires at < |words|
  {
    && (words[at] == TRANSFER3D_HEADER ==> at + 12 < |words|)
    && (words[at] == COPY_TRANSFER3D_HEADER ==> at + 13 < |words|)
  }

  predicate Enclosed(words: seq<u32>, at: nat)
    decreases |words| - at
  {
    at >= |words| || (Inside(words, at) && Enclosed(words, Next(words, at)))
  }

  /** When every command met is enclosed, both ends walk alike, whatever their buffers held before. */
  lemma {:induction false} WalksAgree(words: seq<u32>, mine: nat -> u32, yours: nat -> u32, at: nat)
    requires Enclosed(words, at)
    ensures Walk(words, mine, at) == Walk(words, yours, at)
    decreases |words| - at
  {
    if at < |words| {
      assert XferAt(words, mine, at) == XferAt(words, yours, at);
      WalksAgree(words, mine, yours, Next(words, at));
    }
  }

  /** Otherwise they do not: what an earlier command left decides what is transferred. */
  lemma {:induction false} WalksDisagree(words: seq<u32>, at: nat)
    requires !Enclosed(words, at)
    ensures Walk(words, i => 0, at) != Walk(words, i => 1, at)
    decreases |words| - at
  {
    var zero: nat -> u32, one: nat -> u32 := i => 0, i => 1;
    var mine, yours := XferAt(words, zero, at), XferAt(words, one, at);
    var next := Next(words, at);
    if Inside(words, at) {
      WalksDisagree(words, next);
      assert mine == yours;
      assert (mine + Walk(words, zero, next))[|mine|..] == Walk(words, zero, next);
      assert (yours + Walk(words, one, next))[|mine|..] == Walk(words, one, next);
    } else {
      assert Walk(words, zero, at)[0].args.offset == 0;
      assert Walk(words, one, at)[0].args.offset == 1;
    }
  }

  /** The resources the transfers are about, which is all the renderer looks at. */
  function Ids(xs: seq<Xfer>): (ids: seq<u32>)
    ensures |ids| == |xs|
  {
    if xs == [] then [] else [xs[0].id] + Ids(xs[1..])
  }

  lemma {:induction false} IdsAppend(a: seq<Xfer>, b: seq<Xfer>)
    ensures Ids(a + b) == Ids(a) + Ids(b)
  {
    if a == [] {
      assert a + b == b;
    } else {
      assert (a + b)[1..] == a[1..] + b;
      IdsAppend(a[1..], b);
    }
  }

  /** The resource id of the command at offset at lies inside the buffer. */
  predicate IdInside(words: seq<u32>, at: nat)
    requires at < |words|
  {
    && (words[at] == TRANSFER3D_HEADER ==> at + 1 < |words|)
    && (words[at] == COPY_TRANSFER3D_HEADER ==> at + 12 < |words|)
  }

  predicate IdsEnclosed(words: seq<u32>, at: nat)
    decreases |words| - at
  {
    at >= |words| || (IdInside(words, at) && IdsEnclosed(words, Next(words, at)))
  }

  /** Then both ends walk over the same resources, even where they do not read the same arguments. */
  lemma {:induction false} IdsAgree(words: seq<u32>, mine: nat -> u32, yours: nat -> u32, at: nat)
    requires IdsEnclosed(words, at)
    ensures Ids(Walk(words, mine, at)) == Ids(Walk(words, yours, at))
    decreases |words| - at
  {
    if at < |words| {
      IdsAgree(words, mine, yours, Next(words, at));
      IdsAppend(XferAt(words, mine, at), Walk(words, mine, Next(words, at)));
      IdsAppend(XferAt(words, yours, at), Walk(words, yours, Next(words, at)));
    }
  }

  /** The ids before one that does not lie inside, which then is the last. */
  function IdsBefore(words: seq<u32>, at: nat): seq<u32>
    decreases |words| - at
  {
    if at >= |words| || !IdInside(words, at) then []
    else if words[at] == TRANSFER3D_HEADER then [words[at + 1]] + IdsBefore(words, Next(words, at))
    else if words[at] == COPY_TRANSFER3D_HEADER then [words[at + 12]] + IdsBefore(words, Next(words, at))
    else IdsBefore(words, Next(words, at))
  }

  /** Otherwise the last resource is whatever an earlier command left. */
  lemma {:induction false} IdsDisagree(words: seq<u32>, stale: nat -> u32, id: u32, at: nat)
    requires !IdsEnclosed(words, at) && forall i :: stale(i) == id
    ensures Ids(Walk(words, stale, at)) == IdsBefore(words, at) + [id]
    decreases |words| - at
  {
    var next := Next(words, at);
    IdsAppend(XferAt(words, stale, at), Walk(words, stale, next));
    if IdInside(words, at) {
      IdsDisagree(words, stale, id, next);
    } else {
      assert next >= |words|;
    }
  }

  /** A transfer command that is cut off after its first word. */
  lemma CutOffTransfer()
    ensures !Enclosed([TRANSFER3D_HEADER], 0) && !IdsEnclosed([TRANSFER3D_HEADER], 0)
    ensures Ids(Walk([TRANSFER3D_HEADER], i => 1, 0)) == [1] && Ids(Walk([TRANSFER3D_HEADER], i => 2, 0)) == [2]
  {
    IdsDisagree([TRANSFER3D_HEADER], i => 1, 1, 0);
    IdsDisagree([TRANSFER3D_HEADER], i => 2, 2, 0);
    assert IdsBefore([TRANSFER3D_HEADER], 0) == [];
  }

  /** A virgl command as VIRGL_CMD0 packs it. */
  datatype VirglCmd = VirglCmd(code: nat, obj: nat, args: seq<u32>)

  predicate Packable(c: VirglCmd) {
    c.code < 0x100 && c.obj < 0x100 && |c.args| < 0x1_0000
  }

  function Pack(c: VirglCmd): seq<u32>
    requires Packable(c)
  {
    [c.code + 0x100 * c.obj + 0x1_0000 * |c.args|] + c.args
  }

  function PackAll(cs: seq<VirglCmd>): seq<u32>
    requires forall c <- cs :: Packable(c)
  {
    if cs == [] then []
    else
      assert Packable(cs[0]);
      Pack(cs[0]) + PackAll(cs[1..])
  }

  /** What the command list asks to transfer. */
  function XferOf(c: VirglCmd): seq<Xfer> {
    if c.code == TRANSFER3D && c.obj == 0 && |c.args| == 13 then
      [Xfer(c.args[0], ArgsOf(c.args, c.args[11]))]
    else if c.code == COPY_TRANSFER3D && c.obj == 0 && |c.args| == 14 then
      [Xfer(c.args[11], ArgsOf(c.args, c.args[12]))]
    else []
  }

  function ArgsOf(a: seq<u32>, offset: u32): TransferArgs
    requires 13 <= |a|
  {
    TransferArgs(Box(a[5], a[6], a[7], a[8], a[9], a[10]), a[1], a[3], a[4], offset)
  }

  function Xfers(cs: seq<VirglCmd>): seq<Xfer> {
    if cs == [] then [] else XferOf(cs[0]) + Xfers(cs[1..])
  }

  lemma PackedHeader(c: VirglCmd)
    requires Packable(c)
    ensures Pack(c)[0] / 0x1_0000 == |c.args|
    ensures Pack(c)[0] == TRANSFER3D_HEADER <==> c.code == TRANSFER3D && c.obj == 0 && |c.args| == 13
    ensures Pack(c)[0] == COPY_TRANSFER3D_HEADER <==> c.code == COPY_TRANSFER3D && c.obj == 0 && |c.args| == 14
  {
  }

  lemma XferOfPacked(before: seq<u32>, c: VirglCmd, after: seq<u32>, stale: nat -> u32)
    requires Packable(c)
    ensures var words, at := before + Pack(c) + after, |before|;
            && at < |words| && Inside(words, at) && Next(words, at) == |before + Pack(c)|
            && XferAt(words, stale, at) == XferOf(c)
  {
    var words, at := before + Pack(c) + after, |before|;
    PackedHeader(c);
    assert words[at] == Pack(c)[0];
    assert words[at + 1..at + 1 + |c.args|] == c.args;
    assert forall k :: at + 1 <= k <= at + |c.args| ==> words[k] == c.args[k - at - 1];
  }

  /**
   On any packed list of virgl commands, after any prefix, the walk finds exactly the
   transfers of the list, in order, and never looks behind the end.
   */
  lemma {:induction false} WalkFindsXfers(before: seq<u32>, cs: seq<VirglCmd>, stale: nat -> u32)
    requires forall c <- cs :: Packable(c)
    ensures Enclosed(before + PackAll(cs), |before|)
    ensures Walk(before + PackAll(cs), stale, |before|) == Xfers(cs)
    decreases |cs|
  {
    if cs != [] {
      assert Packable(cs[0]);
      XferOfPacked(before, cs[0], PackAll(cs[1..]), stale);
      WalkFindsXfers(before + Pack(cs[0]), cs[1..], stale);
      Assoc(before, Pack(cs[0]), PackAll(cs[1..]));
    }
  }
}

/**
 How many bytes of a resource's backing a transfer to the host carries
 (src/librvgpu/res/rvgpu-res.c), with the 32-bit arithmetic of the code.
 */
module TransferSize {
  import opened Bytes
  import opened Commands

  const SIZE_MAX: nat := 0xffff_ffff_ffff_ffff

  type pos = x: int | 0 < x witness 1

  /** What the format tables say of a format. */
  datatype FormatInfo =
    | Plain(bpp: u32)                                  // get_format_bpp
    | Compressed(blockW: pos, blockH: pos, bytes: nat) // one row of compressed_data_size
    | Yuv(bytesPerSample: nat, yAlign: pos, halfWidth: bool, planes: nat)
    | Unsized                                          // yuv formats yuv_data_size does not know

  function Mul32(a: nat, b: nat): u32 { Cut32(a * b) }

  function Add32(a: nat, b: nat): u32 { Cut32(a + b) }

  /** Unsigned subtraction: below zero it wraps. */
  function Sub32(a: u32, b: u32): u32 {
    if b <= a then a - b else a + U32_LIMIT - b
  }

  function Shr(n: u32, k: nat): u32 {
    if k == 0 then n else Shr(n / 2, k - 1)
  }

  function Pow2(k: nat): (p: pos) {
    if k == 0 then 1 else 2 * Pow2(k - 1)
  }

  /** A shift divides, rounding down. */
  lemma {:induction false} ShrIs(n: u32, k: nat)
    ensures Shr(n, k) * Pow2(k) <= n < (Shr(n, k) + 1) * Pow2(k)
    decreases k
  {
    if k > 0 {
      ShrIs(n / 2, k - 1);
      Twice(Shr(n, k), Pow2(k - 1));
    }
  }

  lemma Twice(a: nat, p: nat)
    ensures a * (2 * p) == 2 * (a * p) && (a + 1) * (2 * p) == 2 * ((a + 1) * p)
  {
  }

  /** align_up_power_of_2 */
  function AlignUp(n: u32, a: pos): u32
  {
    var up := Add32(n, a - 1);
    RemainderAtMost(up, a);
    up - up % a
  }

  lemma RemainderAtMost(n: nat, a: pos)
    ensures 0 <= n % a <= n
  {
    assert n == a * (n / a) + n % a;
    NotNegative(a, n / a);
  }

  lemma NotNegative(a: nat, b: nat)
    ensures 0 <= a * b
  {
  }

  /** The least multiple of a that n fits in, as long as the sum does not wrap; if it does, n does not fit. */
  lemma AlignUpLeast(n: u32, a: pos, m: nat)
    requires a < U32_LIMIT
    ensures n <= AlignUp(n, a) <==> n + a - 1 < U32_LIMIT
    ensures n + a - 1 < U32_LIMIT ==> AlignUp(n, a) == a * ((n + a - 1) / a) && (n <= a * m <==> AlignUp(n, a) <= a * m)
  {
    var up: nat := n + a - 1;
    if up < U32_LIMIT {
      Divided(up, a);
      LeastMultiple(n, a, m);
    } else {
      assert Add32(n, a - 1) == up - U32_LIMIT;
    }
  }

  lemma LeastMultiple(n: nat, a: pos, m: nat)
    ensures n <= a * m <==> (n + a - 1) / a <= m
    ensures n <= a * m <==> a * ((n + a - 1) / a) <= a * m
  {
    var up: nat := n + a - 1;
    Divided(up, a);
    if m < up / a {
      NextRow(a, m, up / a);
    } else if up / a < m {
      NextRow(a, up / a, m);
    }
  }

  lemma Divided(n: nat, a: pos)
    ensures n == a * (n / a) + n % a && 0 <= n % a < a && 0 <= n / a
  {
  }

  lemma NextRow(a: nat, p: nat, q: nat)
    requires p < q
    ensures a * p + a <= a * q
  {
    assert a * q == a * p + a * (q - p);
    assert a * (q - p) == a + a * (q - p - 1);
  }

  function YuvSize(f: FormatInfo, w: u32, h: u32, stride: u32): u32
    requires f.Yuv?
  {
    var yStride := if stride != 0 then stride else Mul32(AlignUp(w, f.yAlign), f.bytesPerSample);
    var uvWidth := if f.halfWidth then w / 2 else w;
    var uvStride := Mul32(AlignUp(uvWidth, 16), f.bytesPerSample);
    Add32(Mul32(yStride, h), Mul32(Mul32(uvStride, h / 2), f.planes))
  }

  function CompressedSize(f: FormatInfo, w: u32, h: u32): u32
    requires f.Compressed?
  {
    Mul32(Mul32(Blocks(w, f.blockW), Blocks(h, f.blockH)), f.bytes)
  }

  /** Blocks of the given size needed for n pixels. */
  function Blocks(n: u32, size: pos): nat
  {
    var up: nat := Add32(n, size - 1);
    up / size
  }

  /** The least number of blocks that n pixels fit in, as long as the sum does not wrap; if it does, they do not. */
  lemma BlocksLeast(n: u32, size: pos, m: nat)
    requires size < U32_LIMIT
    ensures n <= size * Blocks(n, size) <==> n + size - 1 < U32_LIMIT
    ensures n + size - 1 < U32_LIMIT ==> (n <= size * m <==> Blocks(n, size) <= m)
  {
    var up: nat := n + size - 1;
    if up < U32_LIMIT {
      LeastMultiple(n, size, m);
      LeastMultiple(n, size, up / size);
    } else {
      var left: nat := up - U32_LIMIT;
      assert Add32(n, size - 1) == left;
      Divided(left, size);
      assert left / size == 0 by {
        if left / size > 0 {
          NextRow(size, 0, left / size);
        }
      }
    }
  }

  function Stride(width: u32, bpp: u32, stride: u32): u32 {
    if stride != 0 then stride else Mul32(bpp, width)
  }

  /** The length rvgpu_ctx_transfer_to_host passes to gpu_device_send_data. */
  function TransferLength(target: u32, width: u32, height: u32, f: FormatInfo, t: TransferArgs): nat
  {
    var b := t.box;
    match target
    case 0 =>
      if t.stride > 0 then
        if b.d > 1 && b.h > 1 then Mul32(Mul32(b.d, b.h), t.stride)
        else if b.h > 1 then Mul32(b.h, t.stride)
        else if b.w > 0 then t.stride
        else 0
      else b.w
    case 2 =>
      (match f
       case Compressed(_, _, _) => CompressedSize(f, b.w, b.h)
       case Yuv(_, _, _, _) => YuvSize(f, b.w, b.h, t.stride)
       case Unsized => 0
       case Plain(bpp) => Length2d(Stride(width, bpp, t.stride), bpp, b))
    case 3 =>
      var bpp := if f.Plain? then f.bpp else 0;
      var stride := Stride(Shr(width, t.level), bpp, t.stride);
      Add32(Length2d(stride, bpp, b), Mul32(LayerStride(stride, Shr(height, t.level), t.layerStride), Sub32(b.d, 1)))
    case _ => SIZE_MAX
  }

  function LayerStride(stride: u32, height: u32, layerStride: u32): u32 {
    if layerStride != 0 then layerStride else Mul32(stride, height)
  }

  function Length2d(stride: u32, bpp: u32, b: Box): u32 {
    Add32(Mul32(Sub32(b.h, 1), stride), Mul32(b.w, bpp))
  }

  // ----- what the length is for -----

  /** Row k of slice j of the box, relative to the transfer's offset, lies within n bytes. */
  ghost predicate Covers(n: int, b: Box, bpp: nat, stride: nat, layer: nat) {
    forall j: nat, k: nat | j < b.d && k < b.h :: RowEnd(j, k, b, bpp, stride, layer) <= n
  }

  function RowEnd(j: nat, k: nat, b: Box, bpp: nat, stride: nat, layer: nat): nat {
    j * layer + k * stride + b.w * bpp
  }

  lemma MulMonotone(a: nat, b: nat, c: nat)
    requires a <= b
    ensures a * c <= b * c
  {
  }

  /** The last byte of the last row decides. */
  lemma CoversIff(n: int, b: Box, bpp: nat, stride: nat, layer: nat)
    requires 1 <= b.w && 1 <= b.h && 1 <= b.d
    ensures Covers(n, b, bpp, stride, layer) <==> RowEnd(b.d - 1, b.h - 1, b, bpp, stride, layer) <= n
  {
    forall j: nat, k: nat | j < b.d && k < b.h
      ensures RowEnd(j, k, b, bpp, stride, layer) <= RowEnd(b.d - 1, b.h - 1, b, bpp, stride, layer)
    {
      MulMonotone(j, b.d - 1, layer);
      MulMonotone(k, b.h - 1, stride);
    }
  }

  // ----- the strides without the cut to 32 bits -----

  function TrueStride(width: u32, bpp: u32, stride: u32): nat {
    if stride != 0 then stride else bpp * width
  }

  function TrueLayer(stride: nat, height: u32, layerStride: u32): nat {
    if layerStride != 0 then layerStride else stride * height
  }

  /** How far the last row of the last slice reaches. */
  function BoxEnd(b: Box, bpp: nat, stride: nat, layer: nat): nat
    requires 1 <= b.h && 1 <= b.d
  {
    RowEnd(b.d - 1, b.h - 1, b, bpp, stride, layer)
  }

  function Stride3d(width: u32, bpp: u32, t: TransferArgs): nat {
    TrueStride(Shr(width, t.level), bpp, t.stride)
  }

  function Layer3d(width: u32, height: u32, bpp: u32, t: TransferArgs): nat {
    TrueLayer(Stride3d(width, bpp, t), Shr(height, t.level), t.layerStride)
  }

  lemma CutAdd(a: nat, b: nat)
    ensures Cut32(Cut32(a) + Cut32(b)) == Cut32(a + b)
  {
  }

  lemma CutMul(a: nat, b: nat)
    ensures Cut32(Cut32(a) * b) == Cut32(a * b)
  {
    var q, r := a / 0x1_0000_0000, a % 0x1_0000_0000;
    assert a * b == 0x1_0000_0000 * (q * b) + r * b by {
      assert a == 0x1_0000_0000 * q + r;
    }
    CutMultiple(q * b, r * b);
  }

  lemma CutMultiple(q: nat, r: nat)
    ensures Cut32(0x1_0000_0000 * q + r) == Cut32(r)
  {
  }

  lemma LengthCut2d(stride: nat, bpp: u32, b: Box)
    requires 1 <= b.h
    ensures Length2d(Cut32(stride), bpp, b) == Cut32((b.h - 1) * stride + b.w * bpp)
  {
    hide Cut32;
    CutMul(stride, b.h - 1);
    CutAdd((b.h - 1) * stride, b.w * bpp);
    assert stride * (b.h - 1) == (b.h - 1) * stride;
    assert Cut32(stride) * (b.h - 1) == (b.h - 1) * Cut32(stride);
  }

  /** All the 32-bit arithmetic together amounts to one cut of the true length. */
  lemma LengthCut3d(width: u32, height: u32, bpp: u32, t: TransferArgs)
    requires 1 <= t.box.h && 1 <= t.box.d
    ensures TransferLength(3, width, height, Plain(bpp), t)
         == Cut32(BoxEnd(t.box, bpp, Stride3d(width, bpp, t), Layer3d(width, height, bpp, t)))
  {
    hide Shr, Cut32, Length2d, Stride, LayerStride, TrueStride, TrueLayer, BoxEnd, Add32, Mul32;
    var b, w, h := t.box, Shr(width, t.level), Shr(height, t.level);
    var stride := TrueStride(w, bpp, t.stride);
    var layer := TrueLayer(stride, h, t.layerStride);
    var rows := (b.h - 1) * stride + b.w * bpp;
    StrideCut(w, bpp, t.stride);
    LayerCut(stride, h, t.layerStride);
    LengthCut2d(stride, bpp, b);
    SumCut(rows, layer, b.d - 1);
    EndParts(b, bpp, stride, layer);
  }

  lemma SumCut(rows: nat, layer: nat, slices: nat)
    ensures Add32(Cut32(rows), Mul32(Cut32(layer), slices)) == Cut32(rows + layer * slices)
  {
    hide Cut32;
    CutMul(layer, slices);
    CutAdd(rows, layer * slices);
  }

  lemma StrideCut(width: u32, bpp: u32, stride: u32)
    ensures Stride(width, bpp, stride) == Cut32(TrueStride(width, bpp, stride))
  {
  }

  lemma LayerCut(stride: nat, height: u32, layerStride: u32)
    ensures LayerStride(Cut32(stride), height, layerStride) == Cut32(TrueLayer(stride, height, layerStride))
  {
    CutMul(stride, height);
  }

  lemma EndParts(b: Box, bpp: nat, stride: nat, layer: nat)
    requires 1 <= b.h && 1 <= b.d
    ensures BoxEnd(b, bpp, stride, layer) == (b.h - 1) * stride + b.w * bpp + layer * (b.d - 1)
  {
  }

  /**
   For a plain 3D texture the length covers the box exactly if the true length fits 32 bits;
   then it is the least that does.
   */
  lemma Tight3d(width: u32, height: u32, bpp: u32, t: TransferArgs, n: int)
    requires 1 <= t.box.w && 1 <= t.box.h && 1 <= t.box.d
    ensures var length := TransferLength(3, width, height, Plain(bpp), t);
            var stride, layer := Stride3d(width, bpp, t), Layer3d(width, height, bpp, t);
            && (Covers(length, t.box, bpp, stride, layer) <==> BoxEnd(t.box, bpp, stride, layer) < U32_LIMIT)
            && (BoxEnd(t.box, bpp, stride, layer) < U32_LIMIT ==>
                  (Covers(n, t.box, bpp, stride, layer) <==> length <= n))
  {
    hide TransferLength, Stride3d, Layer3d, Covers, RowEnd;
    var length := TransferLength(3, width, height, Plain(bpp), t);
    var stride, layer := Stride3d(width, bpp, t), Layer3d(width, height, bpp, t);
    LengthCut3d(width, height, bpp, t);
    CoversIff(length, t.box, bpp, stride, layer);
    CoversIff(n, t.box, bpp, stride, layer);
  }

  /** For a plain 2D texture likewise, for one slice. */
  lemma Tight2d(width: u32, height: u32, bpp: u32, t: TransferArgs, n: int)
    requires 1 <= t.box.w && 1 <= t.box.h
    ensures var length := TransferLength(2, width, height, Plain(bpp), t);
            var b, stride := t.box.(d := 1), TrueStride(width, bpp, t.stride);
            && (Covers(length, b, bpp, stride, 0) <==> BoxEnd(b, bpp, stride, 0) < U32_LIMIT)
            && (BoxEnd(b, bpp, stride, 0) < U32_LIMIT ==> (Covers(n, b, bpp, stride, 0) <==> length <= n))
  {
    hide Covers;
    var length := TransferLength(2, width, height, Plain(bpp), t);
    var b, stride := t.box.(d := 1), TrueStride(width, bpp, t.stride);
    StrideCut(width, bpp, t.stride);
    LengthCut2d(stride, bpp, t.box);
    EndParts(b, bpp, stride, 0);
    CoversIff(length, b, bpp, stride, 0);
    CoversIff(n, b, bpp, stride, 0);
  }

  /** The sanity check does not look at the stride: with this one the last of three rows ends behind 2^32, and 64 bytes
      are sent. */
  lemma StrideWraps()
    ensures var t := TransferArgs(Box(0, 0, 0, 16, 3, 1), 0, 0x8000_0000, 0, 0);
            && BoundsOk(0, 0, 16, 3) && TransferLength(2, 16, 16, Plain(4), t) == 64
            && !Covers(64, t.box, 4, 0x8000_0000, 0)
  {
    var t := TransferArgs(Box(0, 0, 0, 16, 3, 1), 0, 0x8000_0000, 0, 0);
    Tight2d(16, 16, 4, t, 64);
    assert RowEnd(0, 2, t.box, 4, 0x8000_0000, 0) == U32_LIMIT + 64;
  }

  /**
   With the default stride, at most 4 bytes a pixel, and a box inside a resource that
   passed the sanity check, none of the 32-bit products wraps.
   */
  lemma NoWrap2d(width: u32, height: u32, bpp: u32, b: Box)
    requires BoundsOk(0, 0, width, height) && bpp <= 4
    requires 1 <= b.h && b.x + b.w <= width && b.y + b.h <= height
    ensures bpp * width < U32_LIMIT
    ensures (b.h - 1) * (bpp * width) + b.w * bpp <= INT32_MAX
  {
    var rows, area := (b.h - 1) * width, width * height;
    AreaBound(width, height, b.h);
    assert rows + b.w <= area;
    MulMonotone(bpp, 4, rows + b.w);
    MulMonotone(bpp, 4, width);
    RowsTimesBpp(b.h - 1, width, b.w, bpp);
  }

  lemma AreaBound(width: nat, height: nat, h: nat)
    requires 1 <= h <= height
    ensures (h - 1) * width + width <= width * height && width <= width * height
  {
    assert (h - 1) * width + width == h * width;
    MulMonotone(h, height, width);
    MulMonotone(1, height, width);
  }

  lemma RowsTimesBpp(rows: nat, width: nat, w: nat, bpp: nat)
    ensures rows * (bpp * width) + w * bpp == bpp * (rows * width + w)
  {
    assert rows * (bpp * width) == bpp * (rows * width);
    assert bpp * (rows * width + w) == bpp * (rows * width) + bpp * w;
  }

  /** So for such a box nothing is wrapped, and the length is the least that covers it. */
  lemma Tight2dSane(width: u32, height: u32, bpp: u32, t: TransferArgs, n: int)
    requires BoundsOk(0, 0, width, height) && bpp <= 4 && t.stride == 0
    requires 1 <= t.box.w && 1 <= t.box.h && t.box.x + t.box.w <= width && t.box.y + t.box.h <= height
    ensures Covers(n, t.box.(d := 1), bpp, bpp * width, 0) <==> TransferLength(2, width, height, Plain(bpp), t) <= n
  {
    hide Covers;
    NoWrap2d(width, height, bpp, t.box);
    Tight2d(width, height, bpp, t, n);
    EndParts(t.box.(d := 1), bpp, bpp * width, 0);
  }

  // ----- buffers, blocks and planes -----

  /**
   A transfer with target 0 and a stride: rows so far apart, slices of as many rows as the box is high. The length
   covers it exactly if a row fits the stride, there is one slice or more than one row, and nothing wraps.
   */
  lemma BufferCovers(width: u32, height: u32, f: FormatInfo, t: TransferArgs)
    requires 1 <= t.box.w && 1 <= t.box.h && 1 <= t.box.d && t.stride > 0
    ensures var b := t.box;
            Covers(TransferLength(0, width, height, f, t), b, 1, t.stride, b.h * t.stride)
            <==> b.w <= t.stride && (b.d == 1 || b.h > 1) && b.d * b.h * t.stride < U32_LIMIT
  {
    hide Covers, RowEnd, Cut32, TransferLength;
    var b, stride, length := t.box, t.stride, TransferLength(0, width, height, f, t);
    CoversIff(length, b, 1, stride, b.h * stride);
    BufferEnd(b, stride);
    BufferLength(width, height, f, t);
    CutBelow(b.d * b.h * stride, stride - b.w);
    if b.h == 1 {
      OneRow(b.d, stride, b.w);
    }
  }

  lemma BufferLength(width: u32, height: u32, f: FormatInfo, t: TransferArgs)
    requires 1 <= t.box.w && 1 <= t.box.h && 1 <= t.box.d && t.stride > 0
    ensures TransferLength(0, width, height, f, t)
            == if t.box.h == 1 then t.stride else Cut32(t.box.d * t.box.h * t.stride)
  {
    hide Cut32;
    CutMul(t.box.d * t.box.h, t.stride);
  }

  lemma OneRow(d: nat, stride: u32, w: nat)
    requires 1 <= d && 1 <= w
    ensures d * 1 * stride - stride + w <= stride <==> w <= stride && d == 1
    ensures d == 1 ==> d * 1 * stride < U32_LIMIT
  {
    if d > 1 {
      MulMonotone(2, d, stride);
    }
  }

  lemma BufferEnd(b: Box, stride: nat)
    requires 1 <= b.h && 1 <= b.d
    ensures RowEnd(b.d - 1, b.h - 1, b, 1, stride, b.h * stride) == b.d * b.h * stride - stride + b.w
  {
    assert (b.d - 1) * (b.h * stride) == b.d * (b.h * stride) - b.h * stride;
    assert b.d * (b.h * stride) == b.d * b.h * stride;
    assert (b.h - 1) * stride == b.h * stride - stride;
  }

  /** A cut number reaches what is less than 2^32 below the number exactly if it was not cut. */
  lemma CutBelow(n: nat, less: int)
    requires less < U32_LIMIT
    ensures n - less <= Cut32(n) <==> 0 <= less && n < U32_LIMIT
  {
  }

  function TrueBlocks(n: nat, size: pos): nat {
    (n + size - 1) / size
  }

  /** Without a stride the box is one row of bytes, and the length is the least that covers it. */
  lemma RowCovers(width: u32, height: u32, f: FormatInfo, t: TransferArgs, n: int)
    requires 1 <= t.box.w && t.stride == 0
    ensures Covers(n, t.box.(h := 1, d := 1), 1, 0, 0) <==> TransferLength(0, width, height, f, t) <= n
  {
    CoversIff(n, t.box.(h := 1, d := 1), 1, 0, 0);
  }

  /** A format without a pixel size counts as one of 0, and of a YUV format without known planes nothing is sent. */
  lemma NoPixels(width: u32, height: u32, f: FormatInfo, t: TransferArgs)
    requires !f.Plain?
    ensures TransferLength(3, width, height, f, t) == TransferLength(3, width, height, Plain(0), t)
    ensures f.Unsized? ==> TransferLength(2, width, height, f, t) == 0
  {
  }

  /** For a target that is none of these everything is sent. */
  lemma AllCovers(target: u32, width: u32, height: u32, f: FormatInfo, t: TransferArgs, total: nat)
    requires target != 0 && target != 2 && target != 3 && total <= U32_LIMIT
    ensures total <= TransferLength(target, width, height, f, t)
  {
  }

  /** The blocks a box needs; their bytes are all sent exactly if no sum and no product wraps, and then nothing more. */
  lemma CompressedCovers(width: u32, height: u32, f: FormatInfo, t: TransferArgs)
    requires f.Compressed? && f.blockW < U32_LIMIT && f.blockH < U32_LIMIT && 0 < f.bytes
    requires 1 <= t.box.w && 1 <= t.box.h
    ensures var w, h, length := t.box.w, t.box.h, TransferLength(2, width, height, f, t);
            var bytes := TrueBlocks(w, f.blockW) * TrueBlocks(h, f.blockH) * f.bytes;
            && (bytes <= length <==> w + f.blockW - 1 < U32_LIMIT && h + f.blockH - 1 < U32_LIMIT && bytes < U32_LIMIT)
            && (bytes <= length ==> length == bytes)
  {
    BlocksSent(t.box.w, t.box.h, f);
  }

  lemma BlocksSent(w: u32, h: u32, f: FormatInfo)
    requires f.Compressed? && f.blockW < U32_LIMIT && f.blockH < U32_LIMIT && 0 < f.bytes && 1 <= w && 1 <= h
    ensures var bytes := TrueBlocks(w, f.blockW) * TrueBlocks(h, f.blockH) * f.bytes;
            && (bytes <= CompressedSize(f, w, h)
                <==> w + f.blockW - 1 < U32_LIMIT && h + f.blockH - 1 < U32_LIMIT && bytes < U32_LIMIT)
            && (bytes <= CompressedSize(f, w, h) ==> CompressedSize(f, w, h) == bytes)
  {
    hide Cut32, TrueBlocks;
    var x, y := TrueBlocks(w, f.blockW), TrueBlocks(h, f.blockH);
    BlocksCut(w, f.blockW);
    BlocksCut(h, f.blockH);
    if w + f.blockW - 1 < U32_LIMIT && h + f.blockH - 1 < U32_LIMIT {
      CutMul(x * y, f.bytes);
      CutBelow(x * y * f.bytes, 0);
      CutSmall(x * y * f.bytes);
    } else {
      assert Blocks(w, f.blockW) * Blocks(h, f.blockH) == 0;
      CutSmall(0);
      Positive(x, y);
      Positive(x * y, f.bytes);
    }
  }

  lemma CutSmall(n: nat)
    ensures n < U32_LIMIT ==> Cut32(n) == n
  {
  }

  lemma Positive(a: nat, b: nat)
    requires 0 < a && 0 < b
    ensures 0 < a * b
  {
  }

  lemma BlocksCut(n: u32, size: pos)
    requires size < U32_LIMIT && 1 <= n
    ensures Blocks(n, size) == if n + size - 1 < U32_LIMIT then TrueBlocks(n, size) else 0
    ensures 0 < TrueBlocks(n, size)
  {
    var up: nat := n + size - 1;
    LeastMultiple(n, size, 0);
    if up >= U32_LIMIT {
      var left: nat := up - U32_LIMIT;
      assert Add32(n, size - 1) == left < size;
      Divided(left, size);
      if left / size > 0 {
        NextRow(size, 0, left / size);
      }
    }
  }

  /** The least multiple of a that n fits in. */
  function Aligned(n: nat, a: pos): nat {
    a * ((n + a - 1) / a)
  }

  lemma AlignedPositive(n: nat, a: pos)
    requires 1 <= n
    ensures 0 < Aligned(n, a)
  {
    LeastMultiple(n, a, 0);
  }

  /** For a power of two the wrap is nothing but a cut. */
  lemma AlignUpCut(n: u32, a: pos)
    requires a < U32_LIMIT && U32_LIMIT % a == 0
    ensures AlignUp(n, a) == Cut32(Aligned(n, a))
  {
    hide AlignUp;
    AlignUpLeast(n, a, 0);
    if n + a - 1 >= U32_LIMIT {
      WrapsToZero(n, a);
    }
  }

  lemma WrapsToZero(n: u32, a: pos)
    requires a < U32_LIMIT && U32_LIMIT % a == 0 && n + a - 1 >= U32_LIMIT
    ensures AlignUp(n, a) == 0 && Aligned(n, a) == U32_LIMIT
  {
    var left: nat := n + a - 1 - U32_LIMIT;
    assert Add32(n, a - 1) == left < a;
    Quotient(left, a, 0, left);
    Divided(left, a);
    Divided(U32_LIMIT, a);
    Quotient(n + a - 1, a, U32_LIMIT / a, left);
  }

  lemma Quotient(n: nat, a: pos, q: nat, r: nat)
    requires n == a * q + r && r < a
    ensures n / a == q
  {
    Divided(n, a);
    if n / a < q {
      NextRow(a, n / a, q);
    } else if q < n / a {
      NextRow(a, q, n / a);
    }
  }

  /** Bytes of a picture: its luma rows and its chroma rows, without any cut. */
  function PlanesSize(f: FormatInfo, w: nat, h: nat, stride: nat, chromaWidth: nat, chromaRows: nat): nat
    requires f.Yuv?
  {
    LumaSize(f, w, h, stride) + Aligned(chromaWidth, 16) * f.bytesPerSample * chromaRows * f.planes
  }

  function LumaSize(f: FormatInfo, w: nat, h: nat, stride: nat): nat
    requires f.Yuv?
  {
    (if stride != 0 then stride else Aligned(w, f.yAlign) * f.bytesPerSample) * h
  }

  /** All the 32-bit arithmetic together amounts to one cut. */
  lemma YuvCut(f: FormatInfo, w: u32, h: u32, stride: u32)
    requires f.Yuv? && f.yAlign < U32_LIMIT && U32_LIMIT % f.yAlign == 0
    ensures YuvSize(f, w, h, stride) == Cut32(PlanesSize(f, w, h, stride, if f.halfWidth then w / 2 else w, h / 2))
  {
    hide Cut32, Aligned, AlignUp;
    var uv: u32 := if f.halfWidth then w / 2 else w;
    AlignUpCut(w, f.yAlign);
    AlignUpCut(uv, 16);
    CutMul(Aligned(w, f.yAlign), f.bytesPerSample);
    CutMul(Aligned(w, f.yAlign) * f.bytesPerSample, h);
    CutMul(Aligned(uv, 16), f.bytesPerSample);
    CutMul(Aligned(uv, 16) * f.bytesPerSample, h / 2);
    CutMul(Aligned(uv, 16) * f.bytesPerSample * (h / 2), f.planes);
    CutAdd(LumaSize(f, w, h, stride), Aligned(uv, 16) * f.bytesPerSample * (h / 2) * f.planes);
  }

  /**
   Half as many chroma rows, and for some formats columns, rounded up as the formats have it. The length is enough for
   all of them exactly if nothing is rounded down on the way, by the height or across an alignment by the width, and
   nothing wraps.
   */
  lemma YuvCovers(width: u32, height: u32, f: FormatInfo, t: TransferArgs)
    requires f.Yuv? && f.yAlign < U32_LIMIT && U32_LIMIT % f.yAlign == 0 && 0 < f.bytesPerSample && 0 < f.planes
    requires 1 <= t.box.w && 1 <= t.box.h
    ensures var w, h := t.box.w, t.box.h;
            var whole := PlanesSize(f, w, h, t.stride, if f.halfWidth then (w + 1) / 2 else w, (h + 1) / 2);
            whole <= TransferLength(2, width, height, f, t)
            <==> whole < U32_LIMIT && h % 2 == 0 && (f.halfWidth ==> w % 32 != 1)
  {
    PlanesSent(f, t.box.w, t.box.h, t.stride);
  }

  lemma PlanesSent(f: FormatInfo, w: u32, h: u32, stride: u32)
    requires f.Yuv? && f.yAlign < U32_LIMIT && U32_LIMIT % f.yAlign == 0 && 0 < f.bytesPerSample && 0 < f.planes
    requires 1 <= w && 1 <= h
    ensures var whole := PlanesSize(f, w, h, stride, if f.halfWidth then (w + 1) / 2 else w, (h + 1) / 2);
            whole <= YuvSize(f, w, h, stride)
            <==> whole < U32_LIMIT && h % 2 == 0 && (f.halfWidth ==> w % 32 != 1)
  {
    hide Cut32, Aligned, YuvSize;
    var uv, uvWhole := if f.halfWidth then w / 2 else w, if f.halfWidth then (w + 1) / 2 else w;
    var sent, whole := PlanesSize(f, w, h, stride, uv, h / 2), PlanesSize(f, w, h, stride, uvWhole, (h + 1) / 2);
    YuvCut(f, w, h, stride);
    AlignedPositive(w, 16);
    HalfAligned(w);
    ChromaRounded(f, uv, uvWhole, h);
    CutBelow(sent, 0);
    CutAtMost(sent);
  }

  lemma CutAtMost(n: nat)
    ensures Cut32(n) <= n
  {
  }

  lemma ChromaRounded(f: FormatInfo, uv: nat, uvWhole: nat, h: nat)
    requires f.Yuv? && 0 < f.bytesPerSample && 0 < f.planes && 1 <= h
    requires Aligned(uv, 16) <= Aligned(uvWhole, 16) && 0 < Aligned(uvWhole, 16)
    ensures var sent := Aligned(uv, 16) * f.bytesPerSample * (h / 2) * f.planes;
            var whole := Aligned(uvWhole, 16) * f.bytesPerSample * ((h + 1) / 2) * f.planes;
            sent <= whole && (sent == whole <==> h % 2 == 0 && Aligned(uv, 16) == Aligned(uvWhole, 16))
  {
    hide Aligned;
    Grows(Aligned(uv, 16), Aligned(uvWhole, 16), f.bytesPerSample, f.bytesPerSample);
    Grows(Aligned(uv, 16) * f.bytesPerSample, Aligned(uvWhole, 16) * f.bytesPerSample, h / 2, (h + 1) / 2);
    Grows(Aligned(uv, 16) * f.bytesPerSample * (h / 2), Aligned(uvWhole, 16) * f.bytesPerSample * ((h + 1) / 2),
          f.planes, f.planes);
  }

  lemma Grows(a: nat, b: nat, c: nat, d: nat)
    requires a <= b && c <= d && 0 < b && 0 < d
    ensures a * c <= b * d && 0 < b * d && (a * c == b * d <==> a == b && c == d)
  {
    MulMonotone(a, b, c);
    Positive(b, d);
    assert b * d == b * c + b * (d - c);
    if c < d {
      Positive(b, d - c);
    } else if a < b {
      assert b * d == a * d + (b - a) * d;
      Positive(b - a, d);
    }
  }

  /** Whether half a width is rounded up or down makes a difference, once aligned, only just behind a multiple of 32. */
  lemma HalfAligned(w: nat)
    requires 1 <= w
    ensures Aligned(w / 2, 16) <= Aligned((w + 1) / 2, 16) && 0 < Aligned((w + 1) / 2, 16)
    ensures Aligned(w / 2, 16) == Aligned((w + 1) / 2, 16) <==> w % 32 != 1
  {
    var k := w / 2;
    Sixteens(k);
    Sixteens(k + 1);
    assert (w + 1) / 2 == if w % 2 == 0 then k else k + 1;
    assert w % 32 == 1 <==> w % 2 == 1 && k % 16 == 0;
  }

  lemma Sixteens(k: nat)
    ensures Aligned(k, 16) == 16 * (k / 16) + if k % 16 == 0 then 0 else 16
    ensures (k + 1) / 16 == k / 16 + if k % 16 == 15 then 1 else 0
    ensures (k + 1) % 16 == if k % 16 == 15 then 0 else k % 16 + 1
  {
  }

  // ----- the bytes of a box -----

  /** Byte q, counted from the transfer's offset, is in one of the rows of the box. */
  ghost predicate InBox(b: Box, bpp: nat, stride: nat, layer: nat, q: nat) {
    exists j: nat, k: nat :: j < b.d && k < b.h && EndsRow(RowEnd(j, k, b, bpp, stride, layer), b.w * bpp, q)
  }

  predicate EndsRow(end: nat, n: nat, q: nat) {
    end - n <= q < end
  }

  /** It is one that is asked for, as the target and the format have it. */
  ghost predicate Wanted(target: u32, width: u32, height: u32, f: FormatInfo, t: TransferArgs, q: nat) {
    var b := t.box;
    match target
    case 0 => if t.stride == 0 then q < b.w else InBox(b, 1, t.stride, b.h * t.stride, q)
    case 2 =>
      (match f
       case Plain(bpp) => InBox(b.(d := 1), bpp, TrueStride(width, bpp, t.stride), 0, q)
       case Compressed(_, _, _) => q < TrueBlocks(b.w, f.blockW) * TrueBlocks(b.h, f.blockH) * f.bytes
       case Yuv(_, _, _, _) =>
         q < PlanesSize(f, b.w, b.h, t.stride, if f.halfWidth then (b.w + 1) / 2 else b.w, (b.h + 1) / 2)
       case Unsized => false)
    case 3 => f.Plain? && InBox(b, f.bpp, Stride3d(width, f.bpp, t), Layer3d(width, height, f.bpp, t), q)
    case _ => true
  }

  /** The condition of the lemmas above, for each target and format. */
  ghost predicate Uncut(target: u32, width: u32, height: u32, f: FormatInfo, t: TransferArgs)
    requires 1 <= t.box.w && 1 <= t.box.h && 1 <= t.box.d
  {
    var b := t.box;
    match target
    case 0 => t.stride > 0 ==> b.w <= t.stride && (b.d == 1 || b.h > 1) && b.d * b.h * t.stride < U32_LIMIT
    case 2 =>
      (match f
       case Plain(bpp) => BoxEnd(b.(d := 1), bpp, TrueStride(width, bpp, t.stride), 0) < U32_LIMIT
       case Compressed(blockW, blockH, bytes) =>
         && 0 < bytes && b.w + blockW - 1 < U32_LIMIT && b.h + blockH - 1 < U32_LIMIT
         && TrueBlocks(b.w, blockW) * TrueBlocks(b.h, blockH) * bytes < U32_LIMIT
       case Yuv(samples, yAlign, halfWidth, planes) =>
         && yAlign < U32_LIMIT && U32_LIMIT % yAlign == 0 && 0 < samples && 0 < planes
         && PlanesSize(f, b.w, b.h, t.stride, if halfWidth then (b.w + 1) / 2 else b.w, (b.h + 1) / 2) < U32_LIMIT
         && b.h % 2 == 0 && (halfWidth ==> b.w % 32 != 1)
       case Unsized => true)
    case 3 =>
      f.Plain? ==> BoxEnd(b, f.bpp, Stride3d(width, f.bpp, t), Layer3d(width, height, f.bpp, t)) < U32_LIMIT
    case _ => true
  }

  /** Then every byte asked for is sent. */
  lemma WantedSent(target: u32, width: u32, height: u32, f: FormatInfo, t: TransferArgs, q: nat)
    requires 1 <= t.box.w && 1 <= t.box.h && 1 <= t.box.d && q < U32_LIMIT
    requires Uncut(target, width, height, f, t) && Wanted(target, width, height, f, t, q)
    ensures q < TransferLength(target, width, height, f, t)
  {
    hide TransferLength, BoxEnd, Covers, PlanesSize, TrueBlocks, Stride3d, Layer3d, TrueStride;
    var length := TransferLength(target, width, height, f, t);
    if target == 0 {
      if t.stride == 0 {
        RowCovers(width, height, f, t, length);
        OneRowCovered(length, t.box);
      } else {
        BufferCovers(width, height, f, t);
        Reached(length, t.box, 1, t.stride, t.box.h * t.stride, q);
      }
    } else if target == 2 {
      match f {
        case Plain(bpp) =>
          Tight2d(width, height, bpp, t, 0);
          Reached(length, t.box.(d := 1), bpp, TrueStride(width, bpp, t.stride), 0, q);
        case Compressed(blockW, blockH, _) =>
          BlockBelow(t.box.w, blockW);
          BlockBelow(t.box.h, blockH);
          CompressedCovers(width, height, f, t);
        case Yuv(_, _, _, _) => YuvCovers(width, height, f, t);
        case Unsized =>
      }
    } else if target == 3 {
      if f.Plain? {
        Tight3d(width, height, f.bpp, t, 0);
        Reached(length, t.box, f.bpp, Stride3d(width, f.bpp, t), Layer3d(width, height, f.bpp, t), q);
      }
    } else {
      AllCovers(target, width, height, f, t, q + 1);
    }
  }

  lemma Reached(n: int, b: Box, bpp: nat, stride: nat, layer: nat, q: nat)
    requires Covers(n, b, bpp, stride, layer) && InBox(b, bpp, stride, layer, q)
    ensures q < n
  {
    var j: nat, k: nat :| j < b.d && k < b.h && EndsRow(RowEnd(j, k, b, bpp, stride, layer), b.w * bpp, q);
  }

  lemma OneRowCovered(n: int, b: Box)
    requires 1 <= b.w && Covers(n, b.(h := 1, d := 1), 1, 0, 0)
    ensures b.w <= n
  {
    CoversIff(n, b.(h := 1, d := 1), 1, 0, 0);
  }

  lemma BlockBelow(n: nat, size: pos)
    requires 1 <= n && n + size - 1 < U32_LIMIT
    ensures size < U32_LIMIT
  {
  }

  // ----- the layer stride -----

  /** The layer stride the driver laid the resource out with: its own, or the default. */
  function WantedLayer(b: seq<byte>, width: u32, height: u32, bpp: u32): nat
    requires Sanity(b, false, false) == OkNodata && U32At(b, 0) == 0x0205
  {
    TrueLayer(Stride3d(width, bpp, Parse(b, false).args), Shr(height, Parse(b, false).args.level), U32At(b, 68))
  }

  /**
   TRANSFER_TO_HOST_3D is served without the driver's layer_stride. What is sent for it covers the
   driver's layout exactly if the cut length for the default layer stride reaches as far; without
   a cut that is when there is one slice, or the driver's layer stride is at most the default.
   */
  lemma LayerStrideDropped(b: seq<byte>, width: u32, height: u32, bpp: u32)
    requires Sanity(b, false, true) == OkNodata && Sanity(b, false, false) == OkNodata
    requires U32At(b, 0) == 0x0205 && 1 <= U32At(b, 44)
    ensures var args := Parse(b, false).args;
            var stride, given, wanted :=
              Stride3d(width, bpp, args), Layer3d(width, height, bpp, args), WantedLayer(b, width, height, bpp);
            var sent := TransferLength(3, width, height, Plain(bpp), args);
            && args.box.d == U32At(b, 44)
            && (Covers(sent, args.box, bpp, stride, wanted)
                <==> BoxEnd(args.box, bpp, stride, wanted) <= Cut32(BoxEnd(args.box, bpp, stride, given)))
            && (BoxEnd(args.box, bpp, stride, given) < U32_LIMIT ==>
                  (Covers(sent, args.box, bpp, stride, wanted) <==> args.box.d == 1 || wanted <= given))
  {
    DroppedFields(b);
    hide Sanity, Covers, TransferLength, Stride3d, Layer3d, Parse;
    var args := Parse(b, false).args;
    var stride, given, wanted :=
      Stride3d(width, bpp, args), Layer3d(width, height, bpp, args), WantedLayer(b, width, height, bpp);
    LengthCut3d(width, height, bpp, args);
    CoversIff(TransferLength(3, width, height, Plain(bpp), args), args.box, bpp, stride, wanted);
    EndParts(args.box, bpp, stride, given);
    EndParts(args.box, bpp, stride, wanted);
    MoreSlices(wanted, given, args.box.d);
  }

  /** What the proxy makes of the command: everything but the layer stride. */
  lemma DroppedFields(b: seq<byte>)
    requires Sanity(b, false, true) == OkNodata && Sanity(b, false, false) == OkNodata && U32At(b, 0) == 0x0205
    ensures |b| == 72 && Parse(b, false).ToHost? && Parse(b, false).args.layerStride == 0
    ensures var box := Parse(b, false).args.box; 1 <= box.w && 1 <= box.h && box.d == U32At(b, 44)
  {
  }

  lemma MoreSlices(wanted: nat, given: nat, d: nat)
    requires 1 <= d
    ensures wanted * (d - 1) <= given * (d - 1) <==> d == 1 || wanted <= given
  {
    if wanted <= given {
      MulMonotone(wanted, given, d - 1);
    } else if d > 1 {
      MulMonotone(given + 1, wanted, d - 1);
      assert (given + 1) * (d - 1) == given * (d - 1) + (d - 1);
    }
  }

  function TransferBytes(): seq<byte> {
    WordsBytes([0x0205, 0, 0, 0, 1, 0, 0, 0, 0, 1, 1, 2, 0, 0, 1, 0, 0, 256])
  }

  lemma TransferFields()
    ensures var b := TransferBytes();
            && |b| == 72 && U32At(b, 0) == 0x0205 && U32At(b, 16) == 1
            && U32At(b, 24) == U32At(b, 28) == U32At(b, 32) == 0 && U32At(b, 36) == U32At(b, 40) == 1 && U32At(b, 44) == 2
            && U32At(b, 48) == U32At(b, 52) == 0 && U32At(b, 56) == 1 && U32At(b, 60) == U32At(b, 64) == 0
            && U32At(b, 68) == 256
  {
    hide WordsBytes, U32At;
    var c: seq<u32> := [0x0205, 0, 0, 0, 1, 0, 0, 0, 0, 1, 1, 2, 0, 0, 1, 0, 0, 256];
    WordAt(c, 0); WordAt(c, 4); WordAt(c, 6); WordAt(c, 7); WordAt(c, 8); WordAt(c, 9); WordAt(c, 10); WordAt(c, 11);
    WordAt(c, 12); WordAt(c, 13); WordAt(c, 14); WordAt(c, 15); WordAt(c, 16); WordAt(c, 17);
  }

  lemma TransferParses()
    ensures var b := TransferBytes();
            && Sanity(b, false, true) == OkNodata && Sanity(b, false, false) == OkNodata
            && U32At(b, 0) == 0x0205 && U32At(b, 68) == 256
            && Parse(b, false) == ToHost(1, TransferArgs(Box(0, 0, 0, 1, 1, 2), 0, 0, 0, 0))
  {
    hide TransferBytes, WordsBytes, U32At;
    TransferFields();
  }

  /** A sane TRANSFER_TO_HOST_3D for which that many bytes are sent, fewer than the box as the driver laid it out. */
  ghost predicate Loses(b: seq<byte>, width: u32, height: u32, bpp: u32, sent: nat) {
    && Sanity(b, false, true) == OkNodata && Sanity(b, false, false) == OkNodata
    && U32At(b, 0) == 0x0205
    && var args := Parse(b, false).args;
       && sent == TransferLength(3, width, height, Plain(bpp), args)
       && !Covers(sent, args.box, bpp, Stride3d(width, bpp, args), WantedLayer(b, width, height, bpp))
  }

  /** Two slices of one 4-byte pixel that the driver, with this command, laid 256 bytes apart. */
  lemma LayerStrideLost()
    ensures Loses(TransferBytes(), 1, 1, 4, 8)
  {
    hide TransferBytes, Sanity, Parse, U32At;
    TransferParses();
    var args := Parse(TransferBytes(), false).args;
    assert Shr(1, 0) == 1;
    assert RowEnd(1, 0, args.box, 4, 4, 256) == 260;
  }
}

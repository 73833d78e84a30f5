/**
 TRANSFER_FROM_HOST_3D on its way back: upload_resource in src/rvgpu-renderer/virgl/rvgpu-virgl.c
 sends a window of the renderer's flat buffer, and resource_transfer in
 src/rvgpu-proxy/gpu/rvgpu-gpu-device.c scatters its lines over the fragments of guest memory.
 */
module ReverseTransfer {
  import opened Bytes
  import opened Iov
  import opened TransferSize
  import PatchCodec
  import CommandStream
  import ProxyResources

  // ----- a position in the fragments and in the flat buffer -----

  /** Where fragment i starts: backing_base when iov_index is i. */
  function Base(iovs: seq<seq<byte>>, i: nat): nat
    requires i <= |iovs|
  {
    if i == 0 then 0 else Base(iovs, i - 1) + |iovs[i - 1]|
  }

  lemma {:induction false} BaseIs(iovs: seq<seq<byte>>, i: nat)
    requires i <= |iovs|
    ensures Base(iovs, i) == |Flat(iovs[..i])|
    decreases i
  {
    if i > 0 {
      BaseIs(iovs, i - 1);
      assert iovs[..i] == iovs[..i - 1] + [iovs[i - 1]];
      FlatSnoc(iovs[..i - 1], iovs[i - 1]);
    }
  }

  lemma {:induction false} BaseMonotone(iovs: seq<seq<byte>>, i: nat, j: nat)
    requires i <= j <= |iovs|
    ensures Base(iovs, i) <= Base(iovs, j)
    decreases j - i
  {
    if i < j {
      BaseMonotone(iovs, i + 1, j);
    }
  }

  lemma BaseEnds(iovs: seq<seq<byte>>)
    ensures Base(iovs, 0) == 0 && Base(iovs, |iovs|) == |Flat(iovs)|
  {
    BaseIs(iovs, |iovs|);
    assert iovs[..|iovs|] == iovs;
  }

  lemma {:induction false} BaseShape(a: seq<seq<byte>>, b: seq<seq<byte>>, i: nat)
    requires SameShape(a, b) && i <= |a|
    ensures Base(a, i) == Base(b, i)
    decreases i
  {
    if i > 0 {
      BaseShape(a, b, i - 1);
    }
  }

  /** A write into one fragment is a write into the flat buffer. */
  lemma FlatPoke(iovs: seq<seq<byte>>, i: nat, o: nat, piece: seq<byte>)
    requires i < |iovs| && o + |piece| <= |iovs[i]|
    ensures Base(iovs, i) + o + |piece| <= |Flat(iovs)|
    ensures Flat(iovs[i := Overlay(iovs[i], o, piece)]) == Overlay(Flat(iovs), Base(iovs, i) + o, piece)
  {
    hide *;
    var after := iovs[i := Overlay(iovs[i], o, piece)];
    var before, rest := Flat(iovs[..i]), Flat(iovs[i + 1..]);
    BaseIs(iovs, i);
    SplitAt(iovs, i);
    SplitAt(after, i);
    assert after[..i] == iovs[..i] && after[i + 1..] == iovs[i + 1..];
    PokeMiddle(before, iovs[i], rest, o, piece);
  }

  lemma PokeMiddle(before: seq<byte>, v: seq<byte>, rest: seq<byte>, o: nat, piece: seq<byte>)
    requires o + |piece| <= |v|
    ensures before + (Overlay(v, o, piece) + rest) == Overlay(before + (v + rest), |before| + o, piece)
  {
  }

  lemma OverlayTwice(f: seq<byte>, p: nat, a: seq<byte>, b: seq<byte>)
    requires p + |a| + |b| <= |f|
    ensures Overlay(Overlay(f, p, a), p + |a|, b) == Overlay(f, p, a + b)
  {
  }

  // ----- the lines, on a flat buffer -----

  /** One line: what of it lies inside the buffer. */
  function Fits(total: nat, pos: nat, lineLen: nat): nat {
    if pos <= total then Min(lineLen, total - pos) else 0
  }

  datatype Lines = Lines(off: nat, stride: nat, lineLen: nat, h: nat)

  /** Where line k starts: off + k * stride. */
  function Pos(l: Lines, k: nat): (p: nat)
    ensures l.off <= p
  {
    if k == 0 then l.off else Pos(l, k - 1) + l.stride
  }

  lemma {:induction false} PosIs(l: Lines, k: nat)
    ensures Pos(l, k) == l.off + k * l.stride
  {
    if k > 0 {
      PosIs(l, k - 1);
      assert k * l.stride == (k - 1) * l.stride + l.stride;
    }
  }

  predicate LineReceived(l: Lines, total: nat, data: seq<byte>, k: nat) {
    var n := Fits(total, Pos(l, k), l.lineLen);
    n == 0 || Pos(l, k) - l.off + n <= |data|
  }

  predicate LineFits(l: Lines, total: nat, k: nat) {
    Fits(total, Pos(l, k), l.lineLen) == l.lineLen
  }

  /** Every byte of a line that lies inside the buffer was received. */
  ghost predicate Enough(l: Lines, total: nat, data: seq<byte>) {
    forall k: nat :: k < l.h ==> LineReceived(l, total, data, k)
  }

  /** One line of the loop over a flat buffer: at is where its bytes are in data. */
  function WriteLine(flat: seq<byte>, data: seq<byte>, pos: nat, at: nat, n: nat): (r: seq<byte>)
    requires n == 0 || (at + n <= |data| && pos + n <= |flat|)
    ensures |r| == |flat|
  {
    if n == 0 then flat else Overlay(flat, pos, data[at..at + n])
  }

  /** The same loop over a flat buffer: line k goes to its place, until one does not fit or was not received. */
  function WriteLines(flat: seq<byte>, data: seq<byte>, l: Lines, k: nat): (r: seq<byte>)
    requires k <= l.h
    ensures |r| == |flat|
    decreases l.h - k
  {
    if k == l.h || !LineReceived(l, |flat|, data, k) then flat
    else
      var n := Fits(|flat|, Pos(l, k), l.lineLen);
      var after := WriteLine(flat, data, Pos(l, k), Pos(l, k) - l.off, n);
      if n < l.lineLen then after else WriteLines(after, data, l, k + 1)
  }

  ghost predicate InLine(l: Lines, k: nat, p: nat) {
    Pos(l, k) <= p < Pos(l, k) + l.lineLen
  }

  lemma {:induction false} LinesAscend(l: Lines, j: nat, k: nat)
    requires j <= k
    ensures Pos(l, j) <= Pos(l, k)
    decreases k
  {
    if j < k {
      LinesAscend(l, j, k - 1);
    }
  }

  lemma WriteLineAt(flat: seq<byte>, data: seq<byte>, pos: nat, at: nat, n: nat, p: nat)
    requires p < |flat| && (n == 0 || (at + n <= |data| && pos + n <= |flat|))
    ensures WriteLine(flat, data, pos, at, n)[p] == if pos <= p < pos + n then data[at + (p - pos)] else flat[p]
  {
  }

  /** Position p belongs to line k or a later one. */
  ghost predicate Covered(l: Lines, k: nat, p: nat) {
    exists j: nat :: k <= j < l.h && InLine(l, j, p)
  }

  lemma CoveredNext(l: Lines, k: nat, p: nat)
    requires k < l.h
    ensures Covered(l, k, p) <==> InLine(l, k, p) || Covered(l, k + 1, p)
  {
  }

  /** When line k runs over the end of the buffer, no later line has anything more in it. */
  lemma CoveredLast(l: Lines, k: nat, p: nat)
    requires k < l.h && p < Pos(l, k) + l.lineLen
    ensures Covered(l, k, p) <==> InLine(l, k, p)
  {
    forall j: nat | k <= j < l.h && InLine(l, j, p)
      ensures InLine(l, k, p)
    {
      LinesAscend(l, k, j);
    }
  }

  /** What the loop means: exactly the bytes of the lines change, each to the byte received for its place. */
  lemma {:induction false} WriteLinesAt(flat: seq<byte>, data: seq<byte>, l: Lines, k: nat, p: nat)
    requires Enough(l, |flat|, data) && k <= l.h && p < |flat|
    ensures Covered(l, k, p) ==> 0 <= p - l.off < |data| && WriteLines(flat, data, l, k)[p] == data[p - l.off]
    ensures !Covered(l, k, p) ==> WriteLines(flat, data, l, k)[p] == flat[p]
    decreases l.h - k
  {
    hide WriteLine, Pos;
    if k < l.h {
      var n := Fits(|flat|, Pos(l, k), l.lineLen);
      assert LineReceived(l, |flat|, data, k);
      var after := WriteLine(flat, data, Pos(l, k), Pos(l, k) - l.off, n);
      WriteLineAt(flat, data, Pos(l, k), Pos(l, k) - l.off, n, p);
      assert InLine(l, k, p) <==> Pos(l, k) <= p < Pos(l, k) + n;
      if n < l.lineLen {
        CoveredLast(l, k, p);
      } else {
        CoveredNext(l, k, p);
        WriteLinesAt(after, data, l, k + 1, p);
      }
    }
  }

  /** The last line up to k that starts inside the buffer. */
  function LastInside(l: Lines, total: nat, k: nat): (last: nat)
    ensures last <= k
  {
    if k == 0 || Pos(l, k) < total then k else LastInside(l, total, k - 1)
  }

  lemma {:induction false} LastInsideIs(l: Lines, total: nat, k: nat, j: nat)
    requires j <= k && Pos(l, j) < total
    ensures j <= LastInside(l, total, k) && Pos(l, LastInside(l, total, k)) < total
  {
    if !(k == 0 || Pos(l, k) < total) {
      LastInsideIs(l, total, k - 1, j);
    }
  }

  /** It decides whether enough was received. */
  lemma EnoughIff(l: Lines, total: nat, data: seq<byte>)
    ensures Enough(l, total, data) <==> l.h == 0 || LineReceived(l, total, data, LastInside(l, total, l.h - 1))
  {
    if l.h > 0 && LineReceived(l, total, data, LastInside(l, total, l.h - 1)) {
      forall k: nat | k < l.h
        ensures LineReceived(l, total, data, k)
      {
        if Fits(total, Pos(l, k), l.lineLen) > 0 {
          LastInsideIs(l, total, l.h - 1, k);
          LinesAscend(l, k, LastInside(l, total, l.h - 1));
        }
      }
    }
  }

  // ----- the cursor -----

  ghost predicate Cursor(iovs: seq<seq<byte>>, i: nat, base: nat) {
    i <= |iovs| && base == Base(iovs, i)
  }

  /** No fragment that starts at or before pos starts behind base. */
  ghost predicate Latest(iovs: seq<seq<byte>>, base: nat, pos: nat) {
    forall i: nat :: i <= |iovs| && Base(iovs, i) <= pos ==> Base(iovs, i) <= base
  }

  lemma InsideLatest(iovs: seq<seq<byte>>, i: nat, base: nat, pos: nat)
    requires Cursor(iovs, i, base) && (i < |iovs| ==> pos < base + |iovs[i]|)
    ensures Latest(iovs, base, pos)
  {
    forall j: nat | j <= |iovs| && Base(iovs, j) <= pos
      ensures Base(iovs, j) <= base
    {
      if j <= i {
        BaseMonotone(iovs, j, i);
      } else {
        BaseMonotone(iovs, i + 1, j);
      }
    }
  }

  lemma LatestHere(iovs: seq<seq<byte>>, base: nat)
    ensures Latest(iovs, base, base)
  {
  }

  lemma ShapeKeepsLatest(a: seq<seq<byte>>, b: seq<seq<byte>>, base: nat, pos: nat)
    requires SameShape(a, b) && Latest(a, base, pos)
    ensures Latest(b, base, pos)
  {
    forall i: nat | i <= |b|
      ensures Base(a, i) == Base(b, i)
    {
      BaseShape(a, b, i);
    }
  }

  /** A fragment starts behind lo and not behind hi. */
  ghost predicate Straddles(iovs: seq<seq<byte>>, lo: nat, hi: nat) {
    exists i: nat :: i <= |iovs| && lo < Base(iovs, i) <= hi
  }

  /** Line k fits, and runs over a fragment boundary that line k + 1 starts before. */
  ghost predicate Backtracks(iovs: seq<seq<byte>>, l: Lines, k: nat) {
    && LineFits(l, |Flat(iovs)|, k)
    && Straddles(iovs, Pos(l, k + 1), Pos(l, k) + l.lineLen)
  }

  /** Lines that do not overlap never do. */
  lemma NoOverlapNoBacktrack(iovs: seq<seq<byte>>, l: Lines, k: nat)
    requires l.lineLen <= l.stride
    ensures !Backtracks(iovs, l, k)
  {
    assert Pos(l, k + 1) == Pos(l, k) + l.stride;
  }

  /** Two lines of two bytes, the second one byte behind the first, over two fragments of two bytes. */
  lemma OverlapBacktracks()
    ensures var iovs: seq<seq<byte>>, l := [[0, 0], [0, 0]], Lines(0, 1, 2, 2);
            Backtracks(iovs, l, 0) && !EndsBacking(iovs, l, 0) && Enough(l, |Flat(iovs)|, [1, 2, 3])
  {
    var iovs: seq<seq<byte>>, l := [[0, 0], [0, 0]], Lines(0, 1, 2, 2);
    BaseEnds(iovs);
    assert Base(iovs, 1) == Base(iovs, 0) + |iovs[0]| == 2;
    assert Base(iovs, 2) == Base(iovs, 1) + |iovs[1]| == 4;
    assert Pos(l, 0) == 0 && Pos(l, 1) == 1;
    assert LineFits(l, 4, 0) && Straddles(iovs, 1, 2);
    assert LineReceived(l, 4, [1, 2, 3], 0) && LineReceived(l, 4, [1, 2, 3], 1);
  }

  /** Line k ends with the last fragment, which has bytes: no fragment is left to the cursor then. */
  predicate EndsBacking(iovs: seq<seq<byte>>, l: Lines, k: nat) {
    Pos(l, k) + l.lineLen == |Flat(iovs)| && EndFilled(iovs)
  }

  predicate EndFilled(iovs: seq<seq<byte>>) {
    iovs != [] && iovs[|iovs| - 1] != []
  }

  /** How many lines there are up to the first that backtracks, and with it. */
  ghost function Uncrossed(iovs: seq<seq<byte>>, l: Lines, k: nat): (n: nat)
    requires k <= l.h
    ensures k <= n <= l.h
    decreases l.h - k
  {
    if k == l.h then k else if Backtracks(iovs, l, k) then k + 1 else Uncrossed(iovs, l, k + 1)
  }

  /** Those lines; the line behind them, if any, is the first that starts behind the cursor. */
  ghost function Begun(iovs: seq<seq<byte>>, l: Lines): Lines {
    l.(h := Uncrossed(iovs, l, 0))
  }

  lemma BacktracksAlike(iovs: seq<seq<byte>>, l: Lines, h: nat, k: nat)
    ensures Backtracks(iovs, l.(h := h), k) == Backtracks(iovs, l, k)
  {
    PosIs(l, k);
    PosIs(l.(h := h), k);
    PosIs(l, k + 1);
    PosIs(l.(h := h), k + 1);
  }

  lemma {:induction false} UncrossedIs(iovs: seq<seq<byte>>, l: Lines, k: nat, j: nat)
    requires k <= l.h
    ensures var n := Uncrossed(iovs, l, k);
            && (k <= j && j + 1 < n ==> !Backtracks(iovs, l, j))
            && (n < l.h ==> k < n && Backtracks(iovs, l, n - 1))
    decreases l.h - k
  {
    hide Backtracks;
    if k < l.h && !Backtracks(iovs, l, k) {
      UncrossedIs(iovs, l, k + 1, j);
    }
  }

  /** Without any that backtracks these are all. */
  lemma BegunAll(iovs: seq<seq<byte>>, l: Lines)
    requires forall k: nat :: k + 1 < l.h ==> !Backtracks(iovs, l, k)
    ensures Begun(iovs, l) == l
  {
    UncrossedIs(iovs, l, 0, 0);
  }

  /** Done; a line that ran over the end of the backing or found no fragment left; a cursor already past the start of
      a line, where the code's unsigned pos - backing_base no longer means a place in the fragment; or a read behind the
      end of what was received. */
  datatype Outcome = Done | Missing(bytes: nat) | Behind | Overread

  /** Line k is the first that does not fit, by so many bytes. */
  ghost predicate Misses(l: Lines, total: nat, k: nat, bytes: nat) {
    && k < l.h && !LineFits(l, total, k) && bytes == l.lineLen - Fits(total, Pos(l, k), l.lineLen)
    && forall j: nat :: j < k ==> LineFits(l, total, j)
  }

  /** What the loop over the lines makes of the backing, and which way it ends. */
  ghost predicate Scattered(outcome: Outcome, was: seq<seq<byte>>, now: seq<seq<byte>>, data: seq<byte>, l: Lines) {
    var m, total := Begun(was, l), |Flat(was)|;
    && SameShape(now, was)
    && (outcome.Overread? <==> !Enough(m, total, data))
    && (!outcome.Overread? ==> Flat(now) == WriteLines(Flat(was), data, m, 0))
    && (outcome.Behind? ==> m.h < l.h && !EndsBacking(was, m, m.h - 1))
    && (outcome.Done? ==> m == l && forall k: nat :: k < l.h ==> LineFits(l, total, k))
    && (outcome.Missing? ==>
          || (m.h < l.h && EndsBacking(was, m, m.h - 1) && outcome.bytes == l.lineLen)
          || exists k: nat :: Misses(m, total, k, outcome.bytes))
  }

  /** So which way it ends is decided beforehand. */
  lemma ScatteredIff(outcome: Outcome, was: seq<seq<byte>>, now: seq<seq<byte>>, data: seq<byte>, l: Lines)
    requires Scattered(outcome, was, now, data, l)
    ensures var m, total := Begun(was, l), |Flat(was)|;
            && (outcome.Overread? <==> !Enough(m, total, data))
            && (outcome.Behind? <==> Enough(m, total, data) && m.h < l.h && !EndsBacking(was, m, m.h - 1))
            && (outcome.Done? <==>
                  Enough(m, total, data) && m == l && forall k: nat :: k < l.h ==> LineFits(l, total, k))
  {
    hide Enough, Backtracks, LineFits, EndsBacking, WriteLines, SameShape;
    var m, total := Begun(was, l), |Flat(was)|;
    if outcome.Missing? && m.h < l.h && !EndsBacking(was, m, m.h - 1) {
      var k: nat :| Misses(m, total, k, outcome.bytes);
      UncrossedIs(was, l, 0, 0);
      BacktracksAlike(was, l, m.h, m.h - 1);
      BeforeFit(was, m, k, m.h - 1);
    }
  }

  /** The lines before one that backtracks fit. */
  lemma BeforeFit(iovs: seq<seq<byte>>, l: Lines, j: nat, k: nat)
    requires j <= k && Backtracks(iovs, l, k)
    ensures LineFits(l, |Flat(iovs)|, j)
  {
    LinesAscend(l, j, k);
  }

  class Backing {
    var iovs: seq<seq<byte>>

    constructor (iovs: seq<seq<byte>>)
      ensures this.iovs == iovs
    {
      this.iovs := iovs;
    }

    /** Find the fragment containing the start of a line, from where the last line ended. */
    method Seek(pos: nat, iovIndex: nat, backingBase: nat) returns (i: nat, base: nat)
      requires Cursor(iovs, iovIndex, backingBase)
      ensures Cursor(iovs, i, base) && (i < |iovs| ==> pos < base + |iovs[i]|)
      ensures base <= pos <==> backingBase <= pos
      ensures backingBase > pos ==> i == iovIndex
      ensures backingBase <= pos && i == |iovs| ==> |Flat(iovs)| <= pos
    {
      i, base := iovIndex, backingBase;
      while i < |iovs|
        invariant Cursor(iovs, i, base)
        invariant base <= pos <==> backingBase <= pos
        invariant backingBase > pos ==> i == iovIndex
      {
        if pos < base + |iovs[i]| {
          return;
        }
        base, i := base + |iovs[i]|, i + 1;
      }
      BaseEnds(iovs);
    }

    /** One memcpy into the fragment of the cursor. */
    method CopyChunk(i: nat, base: nat, pos: nat, piece: seq<byte>)
      requires i < |iovs| && Cursor(iovs, i, base) && base <= pos && pos + |piece| <= base + |iovs[i]|
      modifies this
      ensures SameShape(iovs, old(iovs)) && Cursor(iovs, i, base) && iovs[i + 1..] == old(iovs[i + 1..])
      ensures pos + |piece| <= |Flat(old(iovs))| && Flat(iovs) == Overlay(Flat(old(iovs)), pos, piece)
    {
      FlatPoke(iovs, i, pos - base, piece);
      ghost var was := iovs;
      iovs := iovs[i := Overlay(iovs[i], pos - base, piece)];
      BaseShape(was, iovs, i);
    }

    /** One turn of the loop over the fragments of a line. */
    method CopyOn(ghost was: seq<seq<byte>>, data: seq<byte>, at: nat, start: nat, copied: nat, lineLen: nat,
                  iovIndex: nat, backingBase: nat)
      returns (chunk: nat, over: bool, i: nat, base: nat)
      requires Copying(was, iovs, data, at, start, copied, iovIndex, backingBase)
      requires iovIndex < |iovs| && lineLen > 0
      modifies this
      ensures over ==> iovs == old(iovs) && Overreads(|Flat(was)|, data, at, start, copied + lineLen)
      ensures !over ==>
        && chunk <= lineLen && Copying(was, iovs, data, at, start, copied + chunk, i, base)
        && i <= |iovs| == |old(iovs)|
        && (|iovs| - i < old(|iovs|) - iovIndex || (i == iovIndex && chunk == lineLen))
        && (chunk == lineLen && i == |iovs| ==> EndFilled(iovs))
    {
      hide Flat, Base, Overlay, WriteLine, Latest;
      i, base, over := iovIndex, backingBase, false;
      var pos := start + copied;
      chunk := Min(base + |iovs[i]| - pos, lineLen);
      FragmentInside(iovs, i);
      if at + copied + chunk > |data| {
        over := true;
        return;
      }
      WriteMore(Flat(was), data, start, at, copied, chunk);
      CopyChunk(i, base, pos, data[at + copied..at + copied + chunk]);
      BaseEnds(iovs);
      FragmentInside(iovs, i);
      if pos + chunk == base + |iovs[i]| {
        base, i := base + |iovs[i]|, i + 1;
        LatestHere(iovs, base);
      } else {
        InsideLatest(iovs, i, base, pos + chunk);
      }
    }

    /** The part of the line inside the backing reaches its place, across as many fragments as it takes. */
    method CopyLine(data: seq<byte>, at: nat, start: nat, len: nat, iovIndex: nat, backingBase: nat)
      returns (i: nat, base: nat, lineLen: nat, over: bool)
      requires Cursor(iovs, iovIndex, backingBase) && backingBase <= start
      requires iovIndex < |iovs| ==> start < backingBase + |iovs[iovIndex]|
      requires iovIndex == |iovs| ==> |Flat(iovs)| <= start
      modifies this
      ensures SameShape(iovs, old(iovs))
      ensures over <==> Overreads(|Flat(old(iovs))|, data, at, start, len)
      ensures !over ==>
        && lineLen == len - Fits(|Flat(old(iovs))|, start, len) && |Flat(iovs)| == |Flat(old(iovs))|
        && Flat(iovs) == WriteLine(Flat(old(iovs)), data, start, at, len - lineLen)
        && Cursor(iovs, i, base)
        && (lineLen == 0 ==> base <= start + len && Latest(iovs, base, start + len))
        && (lineLen == 0 < len && i == |iovs| ==> EndFilled(iovs))
    {
      hide Flat, Base, Overlay, WriteLine, Latest, Copying, Overreads;
      i, base, lineLen, over := iovIndex, backingBase, len, false;
      var copied: nat := 0;
      CopyStart(iovs, data, at, start, i, base);
      while i < |iovs| && lineLen > 0
        invariant copied + lineLen == len && i <= |iovs|
        invariant Copying(old(iovs), iovs, data, at, start, copied, i, base)
        invariant lineLen == 0 < len && i == |iovs| ==> EndFilled(iovs)
        decreases |iovs| - i, lineLen
      {
        CopyShape(old(iovs), iovs, data, at, start, copied, i, base);
        var chunk;
        chunk, over, i, base := CopyOn(old(iovs), data, at, start, copied, lineLen, i, base);
        if over {
          return;
        }
        lineLen, copied := lineLen - chunk, copied + chunk;
      }
      CopyEnd(old(iovs), iovs, data, at, start, copied, lineLen, i, base);
    }

    /** The read into one fragment. */
    method ReadInto(ghost was: seq<seq<byte>>, pipe: seq<byte>, ghost skip0: nat, done: nat, i: nat,
                    skip: nat, length: nat)
      returns (l: nat)
      requires Updating(was, iovs, pipe, skip0, done, i, skip, length) && length > 0
      requires i < |iovs| && skip < |iovs[i]| && done + length <= |pipe|
      modifies this
      ensures l <= length && Updating(was, iovs, pipe, skip0, done + l, i + 1, 0, length - l)
    {
      hide Flat, WriteLine, Overlay, Base, SameShape;
      l := Min(|iovs[i]| - skip, length);
      ghost var before := iovs;
      FragmentInside(iovs, i);
      CopyChunk(i, Base(iovs, i), Base(iovs, i) + skip, pipe[done..done + l]);
      UpdateMore(was, before, iovs, pipe, skip0, done, i, skip, length, l);
    }

    /** resource_update: the next bytes of the pipe go straight to their place, across the fragments. */
    method Update(pipe: seq<byte>, skip0: nat, length0: nat) returns (rest: seq<byte>)
      requires length0 <= |pipe|
      modifies this
      ensures SameShape(iovs, old(iovs)) && var n := Fits(|Flat(old(iovs))|, skip0, length0);
              rest == pipe[n..] && Flat(iovs) == WriteLine(Flat(old(iovs)), pipe, skip0, 0, n)
    {
      hide Flat, Base, Overlay, WriteLine;
      var i: nat, skip: nat, length: nat, done: nat := 0, skip0, length0, 0;
      UpdateStart(iovs, pipe, skip0, length0);
      while i < |iovs| && length > 0
        invariant Updating(old(iovs), iovs, pipe, skip0, done, i, skip, length)
        invariant done + length == length0
        decreases |iovs| - i
      {
        FragmentInside(iovs, i);
        if skip >= |iovs[i]| {
          skip := skip - |iovs[i]|;
        } else {
          var l := ReadInto(old(iovs), pipe, skip0, done, i, skip, length);
          skip, length, done := 0, length - l, done + l;
        }
        i := i + 1;
      }
      UpdateEnd(old(iovs), iovs, pipe, skip0, done, i, skip, length);
      rest := pipe[done..];
    }

    /** The loop over the lines. */
    method Scatter(data: seq<byte>, l: Lines) returns (outcome: Outcome)
      modifies this
      ensures Scattered(outcome, old(iovs), iovs, data, l)
    {
      hide *;
      ghost var was, m := iovs, Begun(iovs, l);
      var i: nat, base: nat, line: nat := 0, 0, 0;
      ScatterStart(iovs, data, l);
      while line < l.h
        invariant m == l.(h := m.h) && line <= m.h <= l.h
        invariant Written(was, iovs, data, m, line) && Following(was, m, line, i, base)
        decreases l.h - line
      {
        var pos := l.off + line * l.stride;
        PosIs(m, line);
        var stop;
        outcome, stop, i, base := CopyNext(was, m, data, l, line, pos, i, base);
        if stop {
          return;
        }
        line := line + 1;
      }
      ScatterEnd(was, iovs, data, l, i, base);
      return Done;
    }

    /** One turn of it. */
    method CopyNext(ghost was: seq<seq<byte>>, ghost m: Lines, data: seq<byte>, l: Lines, ghost line: nat, pos: nat,
                    iovIndex: nat, backingBase: nat)
      returns (outcome: Outcome, stop: bool, i: nat, base: nat)
      requires m == Begun(was, l) == l.(h := m.h) && line < l.h && line <= m.h && pos == Pos(m, line)
      requires Written(was, iovs, data, m, line) && Following(was, m, line, iovIndex, backingBase)
      modifies this
      ensures stop ==> Scattered(outcome, was, iovs, data, l)
      ensures !stop ==> line < m.h && Written(was, iovs, data, m, line + 1) && Following(was, m, line + 1, i, base)
    {
      hide Flat, Base, WriteLine, WriteLines, Latest, Pos, Backtracks, Fits, Begun, Scattered, EndFilled, Enough,
           LineReceived;
      LineStart(was, l, line, iovIndex, backingBase);
      BaseShape(iovs, was, iovIndex);
      outcome, stop := Done, false;
      i, base := Seek(pos, iovIndex, backingBase);
      if base > pos {
        outcome := if i < |iovs| then Behind else Missing(l.lineLen);
        CrossedEnd(outcome, was, iovs, data, l, iovIndex, backingBase);
        return outcome, true, i, base;
      }
      ghost var before := iovs;
      var missing, over;
      i, base, missing, over := CopyLine(data, pos - l.off, pos, l.lineLen, i, base);
      if over {
        OverreadEnd(was, iovs, data, l, line);
        return Overread, true, i, base;
      }
      NotOver(|Flat(was)|, data, m, line);
      LineWritten(was, before, iovs, data, m, line, l.lineLen - missing);
      if missing > 0 {
        MissingEnd(was, iovs, data, l, line, missing);
        return Missing(missing), true, i, base;
      }
      FollowingNext(was, iovs, m, line, iovIndex, backingBase, i, base);
    }
  }

  ghost predicate Updating(was: seq<seq<byte>>, now: seq<seq<byte>>, pipe: seq<byte>, skip0: nat, done: nat,
                           i: nat, skip: nat, length: nat) {
    && SameShape(now, was) && |Flat(now)| == |Flat(was)| && i <= |now|
    && done + length <= |pipe| && (done == 0 || skip0 + done <= |Flat(was)|)
    && Flat(now) == WriteLine(Flat(was), pipe, skip0, 0, done)
    && (length > 0 ==> Base(now, i) + skip == skip0 + done && (done > 0 ==> skip == 0))
  }

  lemma UpdateMore(was: seq<seq<byte>>, before: seq<seq<byte>>, now: seq<seq<byte>>,
                   pipe: seq<byte>, skip0: nat, done: nat, i: nat, skip: nat, length: nat, l: nat)
    requires Updating(was, before, pipe, skip0, done, i, skip, length) && done + length <= |pipe|
    requires i < |before| && skip < |before[i]| && 0 < l == Min(|before[i]| - skip, length)
    requires SameShape(now, before) && skip0 + done + l <= |Flat(before)|
    requires Flat(now) == Overlay(Flat(before), skip0 + done, pipe[done..done + l])
    ensures Updating(was, now, pipe, skip0, done + l, i + 1, 0, length - l)
  {
    hide Flat, WriteLine, Overlay, Base;
    WriteMore(Flat(was), pipe, skip0, 0, done, l);
    BaseShape(now, before, i);
    FragmentInside(now, i);
  }

  lemma UpdateStart(iovs: seq<seq<byte>>, pipe: seq<byte>, skip0: nat, length0: nat)
    requires length0 <= |pipe|
    ensures Updating(iovs, iovs, pipe, skip0, 0, 0, skip0, length0)
  {
  }

  lemma UpdateEnd(was: seq<seq<byte>>, now: seq<seq<byte>>, pipe: seq<byte>, skip0: nat, done: nat, i: nat,
                  skip: nat, length: nat)
    requires Updating(was, now, pipe, skip0, done, i, skip, length) && (i == |now| || length == 0)
    ensures done == Fits(|Flat(was)|, skip0, done + length)
  {
    hide Flat, Base, WriteLine;
    BaseEnds(now);
  }

  /** The lines before line k are written. */
  ghost predicate Written(was: seq<seq<byte>>, now: seq<seq<byte>>, data: seq<byte>, l: Lines, k: nat) {
    && SameShape(now, was) && |Flat(now)| == |Flat(was)|
    && k <= l.h
    && WriteLines(Flat(was), data, l, 0) == WriteLines(Flat(now), data, l, k)
    && (forall j: nat :: j < k ==> LineFits(l, |Flat(was)|, j) && LineReceived(l, |Flat(was)|, data, j))
  }

  /** The cursor is where the line before line k ended. */
  ghost predicate Following(was: seq<seq<byte>>, l: Lines, k: nat, i: nat, base: nat) {
    && Cursor(was, i, base)
    && (k == 0 ==> base == 0)
    && (k > 0 ==> Ended(was, base, Pos(l, k - 1) + l.lineLen))
    && (k > 0 && l.lineLen > 0 && i == |was| ==> EndFilled(was))
  }

  ghost predicate Ended(was: seq<seq<byte>>, base: nat, end: nat) {
    base <= end && Latest(was, base, end)
  }

  lemma ScatterStart(iovs: seq<seq<byte>>, data: seq<byte>, l: Lines)
    ensures var m := Begun(iovs, l);
            && m == l.(h := m.h) && m.h <= l.h
            && Written(iovs, iovs, data, m, 0) && Following(iovs, m, 0, 0, 0)
  {
  }

  lemma ScatterEnd(was: seq<seq<byte>>, now: seq<seq<byte>>, data: seq<byte>, l: Lines, i: nat, base: nat)
    requires Begun(was, l).h == l.h && Written(was, now, data, Begun(was, l), l.h)
    ensures Scattered(Done, was, now, data, l)
  {
    hide Flat, LineFits, LineReceived, Uncrossed;
  }

  /** The cursor is past the start of line k exactly when that line is the first behind the ones begun. */
  lemma LineStart(was: seq<seq<byte>>, l: Lines, k: nat, i: nat, base: nat)
    requires var m := Begun(was, l); k < l.h && k <= m.h && Following(was, m, k, i, base)
    requires k > 0 ==> LineFits(Begun(was, l), |Flat(was)|, k - 1)
    ensures base > Pos(Begun(was, l), k) <==> k == Begun(was, l).h
  {
    hide Uncrossed, LineFits, Flat;
    var m := Begun(was, l);
    UncrossedIs(was, l, 0, if k == 0 then 0 else k - 1);
    if k > 0 {
      BacktracksAlike(was, l, m.h, k - 1);
      CursorPast(was, m, k, i, base);
    }
  }

  lemma CursorPast(was: seq<seq<byte>>, l: Lines, k: nat, i: nat, base: nat)
    requires k > 0 && LineFits(l, |Flat(was)|, k - 1) && Following(was, l, k, i, base)
    ensures base > Pos(l, k) <==> Backtracks(was, l, k - 1)
  {
    var lo, hi := Pos(l, k), Pos(l, k - 1) + l.lineLen;
    if base > lo {
      assert lo < Base(was, i) <= hi;
    }
    if Straddles(was, lo, hi) {
      var j: nat :| j <= |was| && lo < Base(was, j) <= hi;
    }
  }

  /** Then no fragment is left exactly if the line before it ends with the last one. */
  lemma CursorAtEnd(was: seq<seq<byte>>, l: Lines, k: nat, i: nat, base: nat)
    requires k > 0 && Backtracks(was, l, k - 1) && Following(was, l, k, i, base)
    ensures i == |was| <==> EndsBacking(was, l, k - 1)
  {
    LinesAscend(l, k - 1, k);
    BaseEnds(was);
    if i < |was| {
      FragmentInside(was, i);
      FragmentInside(was, |was| - 1);
      BaseMonotone(was, i, |was| - 1);
    }
  }

  /** Where it ends there. */
  lemma CrossedEnd(outcome: Outcome, was: seq<seq<byte>>, now: seq<seq<byte>>, data: seq<byte>, l: Lines,
                   i: nat, base: nat)
    requires var m := Begun(was, l);
             && m.h < l.h && Written(was, now, data, m, m.h) && Following(was, m, m.h, i, base)
    requires outcome == if i < |was| then Behind else Missing(l.lineLen)
    ensures Scattered(outcome, was, now, data, l)
  {
    hide Flat, LineFits, LineReceived, Uncrossed, Latest, EndsBacking;
    var m := Begun(was, l);
    UncrossedIs(was, l, 0, 0);
    BacktracksAlike(was, l, m.h, m.h - 1);
    CursorAtEnd(was, m, m.h, i, base);

  }

  lemma OverreadEnd(was: seq<seq<byte>>, now: seq<seq<byte>>, data: seq<byte>, l: Lines, k: nat)
    requires var m := Begun(was, l);
             && k < m.h && Overreads(|Flat(was)|, data, Pos(m, k) - m.off, Pos(m, k), m.lineLen) && SameShape(now, was)
    ensures Scattered(Overread, was, now, data, l)
  {
    assert !LineReceived(Begun(was, l), |Flat(was)|, data, k);
  }

  lemma NotOver(total: nat, data: seq<byte>, l: Lines, k: nat)
    requires !Overreads(total, data, Pos(l, k) - l.off, Pos(l, k), l.lineLen)
    ensures LineReceived(l, total, data, k)
  {
  }

  lemma FollowingNext(was: seq<seq<byte>>, now: seq<seq<byte>>, l: Lines, k: nat, i0: nat, base0: nat,
                      i: nat, base: nat)
    requires SameShape(now, was)
    requires Cursor(now, i, base) && base <= Pos(l, k) + l.lineLen && Latest(now, base, Pos(l, k) + l.lineLen)
    requires 0 < l.lineLen && i == |now| ==> EndFilled(now)
    ensures Following(was, l, k + 1, i, base)
  {
    var end := Pos(l, k) + l.lineLen;
    ShapeKeepsLatest(now, was, base, end);
    assert Ended(was, base, end);
    BaseShape(now, was, i);
  }

  lemma WriteLinesStep(flat: seq<byte>, data: seq<byte>, l: Lines, k: nat, n: nat, after: seq<byte>)
    requires k < l.h && n == Fits(|flat|, Pos(l, k), l.lineLen)
    requires LineReceived(l, |flat|, data, k)
    requires after == WriteLine(flat, data, Pos(l, k), Pos(l, k) - l.off, n)
    ensures WriteLines(flat, data, l, k) == if n < l.lineLen then after else WriteLines(after, data, l, k + 1)
  {
  }

  lemma LineWritten(was: seq<seq<byte>>, before: seq<seq<byte>>, now: seq<seq<byte>>, data: seq<byte>,
                    l: Lines, k: nat, n: nat)
    requires k < l.h && Written(was, before, data, l, k)
    requires SameShape(now, before) && |Flat(now)| == |Flat(before)|
    requires n == Fits(|Flat(before)|, Pos(l, k), l.lineLen) && LineReceived(l, |Flat(before)|, data, k)
    requires Flat(now) == WriteLine(Flat(before), data, Pos(l, k), Pos(l, k) - l.off, n)
    ensures n == l.lineLen ==> Written(was, now, data, l, k + 1)
    ensures n < l.lineLen ==> SameShape(now, was) && Flat(now) == WriteLines(Flat(was), data, l, 0)
  {
    WriteLinesStep(Flat(before), data, l, k, n, Flat(now));
    forall j: nat | j < k + 1
      ensures n == l.lineLen ==> LineFits(l, |Flat(was)|, j) && LineReceived(l, |Flat(was)|, data, j)
    {
      if j == k {
        assert Fits(|Flat(was)|, Pos(l, j), l.lineLen) == n;
      }
    }
  }

  /** No line after one that does not fit needs more than was received. */
  lemma MissingEnd(was: seq<seq<byte>>, now: seq<seq<byte>>, data: seq<byte>, l: Lines, k: nat, missing: nat)
    requires var m, total := Begun(was, l), |Flat(was)|;
             && k < m.h && SameShape(now, was) && Flat(now) == WriteLines(Flat(was), data, m, 0)
             && (forall j: nat :: j < k ==> LineFits(m, total, j) && LineReceived(m, total, data, j))
             && LineReceived(m, total, data, k) && 0 < missing == l.lineLen - Fits(total, Pos(m, k), l.lineLen)
    ensures Scattered(Missing(missing), was, now, data, l)
  {
    hide WriteLines, Uncrossed, Flat;
    var m, total := Begun(was, l), |Flat(was)|;
    forall j: nat | j < m.h
      ensures LineReceived(m, total, data, j)
    {
      if j >= k {
        LinesAscend(m, k, j);
      }
    }
    assert Misses(m, total, k, missing);
  }

  /** What holds in the middle of a line, with copied bytes of it written. */
  ghost predicate Copying(was: seq<seq<byte>>, now: seq<seq<byte>>, data: seq<byte>, at: nat, start: nat,
                          copied: nat, i: nat, base: nat) {
    && SameShape(now, was) && |Flat(now)| == |Flat(was)|
    && (copied == 0 || (at + copied <= |data| && start + copied <= |Flat(was)|))
    && Flat(now) == WriteLine(Flat(was), data, start, at, copied)
    && Cursor(now, i, base) && base <= start + copied && Latest(now, base, start + copied)
    && (i < |now| ==> start + copied <= base + |now[i]| && start + copied <= |Flat(now)|)
    && (i < |now| && copied == 0 ==> start < base + |now[i]| && start < |Flat(now)|)
    && (i == |now| ==> |Flat(now)| <= start + copied)
  }

  lemma CopyStart(iovs: seq<seq<byte>>, data: seq<byte>, at: nat, start: nat, i: nat, base: nat)
    requires Cursor(iovs, i, base) && base <= start && (i < |iovs| ==> start < base + |iovs[i]|)
    requires i == |iovs| ==> |Flat(iovs)| <= start
    ensures Copying(iovs, iovs, data, at, start, 0, i, base)
  {
    InsideLatest(iovs, i, base, start);
    CursorInside(iovs, i, base, start);
  }

  /** The part of a line inside the buffer is not all in the data. */
  predicate Overreads(total: nat, data: seq<byte>, at: nat, start: nat, len: nat) {
    Fits(total, start, len) > 0 && at + Fits(total, start, len) > |data|
  }

  lemma CopyShape(was: seq<seq<byte>>, now: seq<seq<byte>>, data: seq<byte>, at: nat, start: nat, copied: nat,
                  i: nat, base: nat)
    requires Copying(was, now, data, at, start, copied, i, base)
    ensures SameShape(now, was)
  {
  }

  lemma CopyEnd(was: seq<seq<byte>>, now: seq<seq<byte>>, data: seq<byte>, at: nat, start: nat, copied: nat,
                lineLen: nat, i: nat, base: nat)
    requires Copying(was, now, data, at, start, copied, i, base) && (i == |now| || lineLen == 0)
    ensures copied == Fits(|Flat(was)|, start, copied + lineLen)
    ensures !Overreads(|Flat(was)|, data, at, start, copied + lineLen)
    ensures SameShape(now, was) && |Flat(now)| == |Flat(was)| && Cursor(now, i, base)
    ensures Flat(now) == WriteLine(Flat(was), data, start, at, copied)
    ensures base <= start + copied && Latest(now, base, start + copied)
  {
    hide Flat, Base, WriteLine, Latest;
  }

  lemma FragmentInside(iovs: seq<seq<byte>>, i: nat)
    requires i < |iovs|
    ensures Base(iovs, i) + |iovs[i]| == Base(iovs, i + 1) <= |Flat(iovs)|
  {
    BaseEnds(iovs);
    BaseMonotone(iovs, i + 1, |iovs|);
  }

  lemma CursorInside(iovs: seq<seq<byte>>, i: nat, base: nat, pos: nat)
    requires Cursor(iovs, i, base) && (i < |iovs| ==> pos < base + |iovs[i]|)
    ensures i < |iovs| ==> pos < |Flat(iovs)|
  {
    BaseEnds(iovs);
    if i < |iovs| {
      BaseMonotone(iovs, i + 1, |iovs|);
    }
  }

  lemma WriteMore(flat: seq<byte>, data: seq<byte>, pos: nat, at: nat, n: nat, more: nat)
    requires at + n + more <= |data| && pos + n + more <= |flat|
    ensures Overlay(WriteLine(flat, data, pos, at, n), pos + n, data[at + n..at + n + more])
         == WriteLine(flat, data, pos, at, n + more)
  {
    hide Overlay;
    var first, next := data[at..at + n], data[at + n..at + n + more];
    assert first + next == data[at..at + n + more];
    if n > 0 {
      OverlayTwice(flat, pos, first, next);
    } else if more == 0 {
      OverlayNothing(flat, pos);
    }
  }

  lemma OverlayNothing(flat: seq<byte>, pos: nat)
    requires pos <= |flat|
    ensures Overlay(flat, pos, []) == flat
  {
  }

  // ----- upload_resource and resource_transfer -----

  const T3D_SIZE := 72  // sizeof(struct virtio_gpu_transfer_host_3d)

  /** The length upload_resource computes, in 32-bit arithmetic. */
  function WindowLength(h: u32, stride: u32, w: u32, bpp: u32): u32 {
    Length2d(stride, bpp, Commands.Box(0, 0, 0, w, h, 1))
  }

  /** It covers the last line exactly when the true length fits 32 bits. */
  lemma WindowLengthCovers(h: u32, stride: u32, w: u32, bpp: u32)
    requires h > 0
    ensures var n := (h - 1) * stride + Mul32(w, bpp);
            (WindowLength(h, stride, w, bpp) >= n <==> n < U32_LIMIT)
            && (n < U32_LIMIT ==> WindowLength(h, stride, w, bpp) == n)
  {
  }

  function Command(b: seq<byte>): (t: TransferFrom)
    requires |b| == T3D_SIZE
  {
    TransferFrom(U32At(b, 56), U32At(b, 60), U32At(b, 64), U32At(b, 36), U32At(b, 40), U64At(b, 48))
  }

  /** The fields of struct virtio_gpu_transfer_host_3d that matter here. */
  datatype TransferFrom = TransferFrom(id: u32, level: u32, stride: u32, w: u32, h: u32, offset: nat)

  /** patch.offset: 32 bits of the offset asked for. */
  function PatchOffset(t: TransferFrom): u32 {
    Cut32(t.offset)
  }

  /** patch.len: what is left of the buffer, cut to 32 bits, or the length computed if that is less. */
  function PatchLen(t: TransferFrom, total: u32, bpp: u32, stride: u32): u32 {
    var left: u32 := Sub32(total, PatchOffset(t));
    if left > WindowLength(t.h, stride, t.w, bpp) then WindowLength(t.h, stride, t.w, bpp) else left
  }

  /** What is sent lies inside the renderer's buffer exactly if the cut offset does, which nothing checks. */
  lemma UploadInside(t: TransferFrom, total: u32, bpp: u32, stride: u32)
    ensures PatchOffset(t) + PatchLen(t, total, bpp, stride) <= total <==> PatchOffset(t) <= total
  {
  }

  /** Nothing is to be sent from outside the buffer, so that the renderer goes on. */
  predicate Uploads(t: TransferFrom, total: u32, bpp: u32, stride: u32) {
    PatchOffset(t) <= total || PatchLen(t, total, bpp, stride) == 0
  }

  /** That is what the command stream asks of a read back. */
  lemma UploadsIff(b: seq<byte>, total: u32, bpp: u32, stride: u32)
    requires Commands.Sanity(b, false, false) == Commands.OkNodata && U32At(b, 0) == 0x0206
    ensures |b| == T3D_SIZE && Commands.Parse(b, false).FromHost? && Commands.Parse(b, false).id == Command(b).id
    ensures Uploads(Command(b), total, bpp, stride)
            <==> !CommandStream.ReadsOutside(Commands.Parse(b, false).args, total, CommandStream.Meta(bpp, stride))
  {
  }

  /** The part of the renderer's buffer that upload_resource sends. */
  function Payload(t: TransferFrom, flat: seq<byte>, bpp: u32, stride: u32): (p: seq<byte>)
    requires |flat| < U32_LIMIT && Uploads(t, |flat|, bpp, stride)
    ensures |p| == PatchLen(t, |flat|, bpp, stride)
    ensures p != [] ==> PatchOffset(t) + |p| <= |flat| && p == flat[PatchOffset(t)..PatchOffset(t) + |p|]
  {
    UploadInside(t, |flat|, bpp, stride);
    var len := PatchLen(t, |flat|, bpp, stride);
    if len == 0 then [] else flat[PatchOffset(t)..PatchOffset(t) + len]
  }

  /** Nothing is sent exactly if the offset is at the end, or the length comes to 0. */
  lemma PayloadEmptyIff(t: TransferFrom, flat: seq<byte>, bpp: u32, stride: u32)
    requires |flat| < U32_LIMIT && Uploads(t, |flat|, bpp, stride)
    ensures Payload(t, flat, bpp, stride) == [] <==> PatchOffset(t) == |flat| || WindowLength(t.h, stride, t.w, bpp) == 0
  {
  }

  function Upload(b: seq<byte>, flat: seq<byte>, bpp: u32, stride: u32): seq<byte>
    requires |b| == T3D_SIZE && |flat| < U32_LIMIT && Uploads(Command(b), |flat|, bpp, stride)
  {
    var payload := Payload(Command(b), flat, bpp, stride);
    CommandStream.RvgpuHeader(T3D_SIZE, false, bpp, stride)
    + (b + (PatchCodec.HeaderBytes(PatchOffset(Command(b)), |payload|, 0) + payload))
  }

  function LinesOf(t: TransferFrom, bpp: u32, stride: u32): Lines {
    Lines(PatchOffset(t), stride, Mul32(t.w, bpp), t.h)
  }

  /** How far into the payload the scatter reads: to the end of the last line that starts inside the backing. */
  function Needed(l: Lines, total: nat): nat {
    if l.h == 0 then 0
    else
      var last := LastInside(l, total, l.h - 1);
      var n := Fits(total, Pos(l, last), l.lineLen);
      if n == 0 then 0 else Pos(l, last) - l.off + n
  }

  /** The payload is enough exactly if the length computed in 32 bits reaches that far; it does if it did not wrap. */
  lemma PayloadEnough(t: TransferFrom, flat: seq<byte>, bpp: u32, stride: u32)
    requires |flat| < U32_LIMIT && Uploads(t, |flat|, bpp, stride)
    ensures Enough(LinesOf(t, bpp, stride), |flat|, Payload(t, flat, bpp, stride))
            <==> Needed(LinesOf(t, bpp, stride), |flat|) <= WindowLength(t.h, stride, t.w, bpp)
    ensures t.h > 0 && (t.h - 1) * stride + Mul32(t.w, bpp) < U32_LIMIT ==>
              Needed(LinesOf(t, bpp, stride), |flat|) <= WindowLength(t.h, stride, t.w, bpp)
  {
    var l, total := LinesOf(t, bpp, stride), |flat|;
    EnoughIff(l, total, Payload(t, flat, bpp, stride));
    NeededInside(l, total);
    if t.h > 0 {
      WindowLengthCovers(t.h, stride, t.w, bpp);
      PosIs(l, t.h - 1);
      LinesAscend(l, LastInside(l, total, t.h - 1), t.h - 1);
    }
  }

  lemma NeededInside(l: Lines, total: nat)
    ensures Needed(l, total) <= if l.off <= total then total - l.off else 0
  {
  }

  /** A box of 4-byte rows 16 bytes apart that passes the sanity check, its length 2^32 + 4: the renderer sends 4 bytes
      of 32, and the scatter reads on. */
  lemma WindowWraps(flat: seq<byte>)
    requires |flat| == 32
    ensures var t := TransferFrom(1, 0, 16, 1, 0x1000_0001, 0);
            && Commands.BoundsOk(0, 0, t.w, t.h) && |Payload(t, flat, 4, 16)| == 4
            && !Enough(LinesOf(t, 4, 16), 32, Payload(t, flat, 4, 16))
  {
    var t := TransferFrom(1, 0, 16, 1, 0x1000_0001, 0);
    var l := LinesOf(t, 4, 16);
    assert WindowLength(0x1000_0001, 16, 1, 4) == 4;
    assert Pos(l, 1) == Pos(l, 0) + 16 == 16;
    assert !LineReceived(l, 32, Payload(t, flat, 4, 16), 1);
  }

  datatype Resource = Resource(width: u32, height: u32, bpp: u32, backing: Option<Backing>)

  /** The resource thread's end of the resource pipe, and the resources it finds. */
  class ResourceThread {
    var pipe: seq<byte>
    var table: map<u32, Resource>

    constructor (table: map<u32, Resource>)
      ensures pipe == [] && this.table == table
    {
      pipe, this.table := [], table;
    }

    method ReadFromPipe(size: nat) returns (b: seq<byte>)
      requires size <= |pipe|
      modifies this`pipe
      ensures b + pipe == old(pipe) && |b| == size && pipe == old(pipe)[size..]
    {
      b := pipe[..size];
      pipe := pipe[size..];
    }

    /** read_from_pipe three times: the header, the command, and the head of the patch. */
    method ReadHead(ghost b: seq<byte>, ghost flat: seq<byte>, ghost bpp: u32, ghost stride: u32,
                    ghost rest: seq<byte>)
      returns (t: TransferFrom, offset: nat, len: nat)
      requires |b| == T3D_SIZE && |flat| < U32_LIMIT && Uploads(Command(b), |flat|, bpp, stride)
      requires pipe == Upload(b, flat, bpp, stride) + rest
      modifies this`pipe
      ensures t == Command(b) && offset == PatchOffset(t) && len == |Payload(t, flat, bpp, stride)|
      ensures pipe == Payload(t, flat, bpp, stride) + rest
    {
      hide Payload, Command, U32At, PatchOffset, CommandStream.RvgpuHeader, PatchCodec.HeaderBytes;
      ghost var payload := Payload(Command(b), flat, bpp, stride);
      ghost var head := PatchCodec.HeaderBytes(PatchOffset(Command(b)), |payload|, 0);
      UploadParts(b, flat, bpp, stride, rest);
      CommandStream.RvgpuHeaderFields(T3D_SIZE, false, bpp, stride, b + (head + (payload + rest)));
      PatchCodec.HeaderFields(PatchOffset(Command(b)), |payload|, 0, payload + rest);
      var bytes := ReadFromPipe(CommandStream.RVGPU_HEADER_SIZE);
      assert pipe == b + (head + (payload + rest));
      bytes := ReadFromPipe(T3D_SIZE);
      assert bytes == b && pipe == head + (payload + rest);
      t := Command(bytes);
      offset, len := U32At(pipe, 4), U32At(pipe, 8);
      bytes := ReadFromPipe(PatchCodec.PATCH_HEADER_SIZE);
    }

    /** The resource this message is about, if the proxy still has it with its backing. */
    predicate Finds(id: u32)
      reads this`table
    {
      id in table && table[id].backing.Some?
    }

    /**
     For every resource the proxy has under the id, or none. Payload is what the renderer sent. Without a backing all
     of it is left in the pipe; for the whole resource what does not fit the backing is left; else it is taken
     and scattered. So the next message is read as one exactly if there was nothing to take, or the backing was there
     and, for the whole resource, large enough.
     */
    method ResourceTransfer(ghost b: seq<byte>, ghost flat: seq<byte>, ghost rest: seq<byte>,
                            ghost stride: u32, ghost bpp: u32)
      returns (outcome: Outcome)
      requires |b| == T3D_SIZE && |flat| < U32_LIMIT && Uploads(Command(b), |flat|, bpp, stride)
      requires pipe == Upload(b, flat, bpp, stride) + rest
      modifies this`pipe, if Finds(Command(b).id) then {table[Command(b).id].backing.value} else {}
      ensures !Finds(Command(b).id) ==> outcome == Done && pipe == Payload(Command(b), flat, bpp, stride) + rest
      ensures Finds(Command(b).id) ==>
        var t, r, payload := Command(b), table[Command(b).id], Payload(Command(b), flat, bpp, stride);
        var now, was := r.backing.value.iovs, old(table[Command(b).id].backing.value.iovs);
        var n := Fits(|Flat(was)|, PatchOffset(t), |payload|);
        if t.w == r.width && t.h == r.height then
          && outcome == Done && pipe == payload[n..] + rest
          && Flat(now) == WriteLine(Flat(was), payload, PatchOffset(t), 0, n)
        else
          pipe == rest
          && Scattered(outcome, was, now, payload, LinesOf(t, r.bpp, Stride(Shr(r.width, t.level), r.bpp, t.stride)))
      ensures var t, payload := Command(b), Payload(Command(b), flat, bpp, stride);
        pipe == rest <==>
          || payload == []
          || (Finds(t.id) && (t.w == table[t.id].width && t.h == table[t.id].height ==>
                PatchOffset(t) + |payload| <= |Flat(old(table[Command(b).id].backing.value.iovs))|))
    {
      hide Upload, Payload, Command, Shr, Stride, PatchOffset, WriteLine, Scattered, LinesOf, Flat;
      ghost var payload := Payload(Command(b), flat, bpp, stride);
      var t, offset, len := ReadHead(b, flat, bpp, stride, rest);
      outcome := Done;
      if t.id !in table || table[t.id].backing.None? {
        return;
      }
      var r := table[t.id];
      if t.w == r.width && t.h == r.height {
        ghost var was := Flat(r.backing.value.iovs);
        ghost var n := Fits(|was|, offset, len);
        pipe := r.backing.value.Update(pipe, offset, len);
        FromPayload(was, payload, rest, offset, n);
      } else {
        var data := ReadFromPipe(len);
        assert data == payload && pipe == rest;
        var l := LinesOf(t, r.bpp, Stride(Shr(r.width, t.level), r.bpp, t.stride));
        outcome := r.backing.value.Scatter(data, l);
      }
    }
  }

  /** A pixel of 4 bytes is read back from a resource that the proxy has dropped meanwhile: the pixel stays in the pipe,
      where the next message should start. */
  method PayloadLeft(flat: seq<byte>, rest: seq<byte>) returns (left: seq<byte>)
    requires |flat| == 4
    ensures left == flat + rest
  {
    hide CommandStream.ReadBytes, U32At, Upload, Payload, Command, Uploads;
    var b := CommandStream.ReadBytes(0);
    PixelUploaded(flat);
    var thread := new ResourceThread(map[]);
    thread.pipe := Upload(b, flat, 4, 4) + rest;
    var outcome := thread.ResourceTransfer(b, flat, rest, 4, 4);
    left := thread.pipe;
  }

  lemma PixelUploaded(flat: seq<byte>)
    requires |flat| == 4
    ensures var t := Command(CommandStream.ReadBytes(0));
            t.id == 1 && Uploads(t, 4, 4, 4) && Payload(t, flat, 4, 4) == flat
  {
    hide CommandStream.ReadBytes, U32At, U64At;
    CommandStream.ReadFields(0);
    assert flat[0..4] == flat;
  }

  lemma FromPayload(was: seq<byte>, payload: seq<byte>, rest: seq<byte>, offset: nat, n: nat)
    requires n <= |payload| && (n == 0 || offset + n <= |was|)
    ensures (payload + rest)[n..] == payload[n..] + rest
    ensures WriteLine(was, payload + rest, offset, 0, n) == WriteLine(was, payload, offset, 0, n)
  {
    assert (payload + rest)[0..n] == payload[0..n];
  }

  lemma UploadParts(b: seq<byte>, flat: seq<byte>, bpp: u32, stride: u32, rest: seq<byte>)
    requires |b| == T3D_SIZE && |flat| < U32_LIMIT && Uploads(Command(b), |flat|, bpp, stride)
    ensures var payload := Payload(Command(b), flat, bpp, stride);
            var head := PatchCodec.HeaderBytes(PatchOffset(Command(b)), |payload|, 0);
            Upload(b, flat, bpp, stride) + rest
            == CommandStream.RvgpuHeader(T3D_SIZE, false, bpp, stride) + (b + (head + (payload + rest)))
  {
    var payload := Payload(Command(b), flat, bpp, stride);
    var head := PatchCodec.HeaderBytes(PatchOffset(Command(b)), |payload|, 0);
    Assoc(CommandStream.RvgpuHeader(T3D_SIZE, false, bpp, stride), b + (head + payload), rest);
    Assoc(b, head + payload, rest);
    Assoc(head, payload, rest);
  }

  /** The resource thread and the proxy's main thread read the same fields of a command. */
  lemma CommandIsParsed(b: seq<byte>)
    requires Commands.Sanity(b, false, false) == Commands.OkNodata && U32At(b, 0) == 0x0206
    ensures |b| == T3D_SIZE && Commands.Parse(b, false).FromHost?
    ensures var c := Commands.Parse(b, false);
            Command(b) == TransferFrom(c.id, c.args.level, c.args.stride, c.args.box.w, c.args.box.h, c.args.offset)
  {
  }

  /** The lines are the rows of the box. */
  lemma CoveredIsInBox(l: Lines, box: Commands.Box, bpp: nat, p: nat)
    requires l.lineLen == box.w * bpp && l.h == box.h
    ensures Covered(l, 0, p) <==> l.off <= p && InBox(box.(d := 1), bpp, l.stride, 0, p - l.off)
  {
    var b := box.(d := 1);
    if Covered(l, 0, p) {
      var k: nat :| k < l.h && InLine(l, k, p);
      PosIs(l, k);
      assert EndsRow(RowEnd(0, k, b, bpp, l.stride, 0), b.w * bpp, p - l.off);
    }
    if l.off <= p && InBox(b, bpp, l.stride, 0, p - l.off) {
      var j: nat, k: nat :| j < 1 && k < b.h && EndsRow(RowEnd(j, k, b, bpp, l.stride, 0), b.w * bpp, p - l.off);
      PosIs(l, k);
      assert InLine(l, k, p);
    }
  }

  /** The stride the renderer is told, and the one the scatter uses, are the same. */
  lemma SameStride(r: ProxyResources.Res, fmt: CommandStream.Formats, b: seq<byte>)
    requires Commands.Sanity(b, false, false) == Commands.OkNodata && U32At(b, 0) == 0x0206
    ensures |b| == T3D_SIZE && Commands.Parse(b, false).FromHost?
    ensures var t, meta := Command(b), CommandStream.MetaOf(r, fmt, Commands.Parse(b, false).args);
            Stride(Shr(r.width, t.level), meta.bpp, t.stride) == meta.stride
  {
    hide Shr;
    CommandIsParsed(b);
  }

  /** Bytes of a pixel, as the format tables have it. */
  function PixelSize(r: ProxyResources.Res, fmt: CommandStream.Formats): u32 {
    match fmt(r.format)
    case Plain(bpp) => bpp
    case _ => 0
  }

  /**
   End to end, from the bytes of the command. For ends that agree on the resource, and a box whose true length fits
   32 bits, the guest's memory after the scatter agrees with the renderer's buffer on every byte of every row of the
   box, and is as before everywhere else.
   */
  lemma BoxReceived(b: seq<byte>, r: ProxyResources.Res, fmt: CommandStream.Formats, was: seq<byte>, flat: seq<byte>,
                    p: nat)
    requires Commands.Sanity(b, false, false) == Commands.OkNodata && U32At(b, 0) == 0x0206
    requires |was| == |flat| < U32_LIMIT && p < |flat|
    requires |b| == T3D_SIZE && Commands.Parse(b, false).FromHost? && 1 <= Commands.Parse(b, false).args.box.h
    requires var args := Commands.Parse(b, false).args;
             var meta := CommandStream.MetaOf(r, fmt, args);
             && Uploads(Command(b), |flat|, meta.bpp, meta.stride)
             && BoxEnd(args.box.(d := 1), PixelSize(r, fmt), Stride3d(r.width, PixelSize(r, fmt), args), 0) < U32_LIMIT
    ensures var t, args := Command(b), Commands.Parse(b, false).args;
            var meta := CommandStream.MetaOf(r, fmt, args);
            var l, payload := LinesOf(t, meta.bpp, Stride(Shr(r.width, t.level), meta.bpp, t.stride)),
                              Payload(t, flat, meta.bpp, meta.stride);
            var bpp, off := PixelSize(r, fmt), args.offset % 0x1_0000_0000;
            var stride := Stride3d(r.width, bpp, args);
            && Enough(l, |was|, payload)
            && WriteLines(was, payload, l, 0)[p]
               == if off <= p && InBox(args.box.(d := 1), bpp, stride, 0, p - off) then flat[p] else was[p]
  {
    hide Commands.Sanity, Commands.Parse, Shr, Command, Payload, WriteLines, Enough, Uploads, CommandStream.MetaOf,
         Covered, TransferSize.InBox, WindowLength, Needed, Stride3d, BoxEnd, PixelSize;
    CommandIsParsed(b);
    SameStride(r, fmt, b);
    var t, args := Command(b), Commands.Parse(b, false).args;
    var meta := CommandStream.MetaOf(r, fmt, args);
    var box, stride := args.box.(d := 1), Stride3d(r.width, meta.bpp, args);
    MetaStride(r, fmt, args);
    EndParts(box, meta.bpp, stride, 0);
    StrideFits(box.h, stride, box.w, meta.bpp);
    SameRows(box, meta.bpp, stride, meta.stride, if PatchOffset(t) <= p then p - PatchOffset(t) else 0);
    PayloadEnough(t, flat, meta.bpp, meta.stride);
    ReceivedAt(t, was, flat, meta.bpp, meta.stride, p);
    CoveredIsInBox(LinesOf(t, meta.bpp, meta.stride), args.box, meta.bpp, p);
  }

  lemma MetaStride(r: ProxyResources.Res, fmt: CommandStream.Formats, args: Commands.TransferArgs)
    ensures var meta := CommandStream.MetaOf(r, fmt, args);
            meta.bpp == PixelSize(r, fmt) && meta.stride == Cut32(Stride3d(r.width, meta.bpp, args))
  {
    hide Shr;
    StrideCut(Shr(r.width, args.level), CommandStream.MetaBpp(r, fmt), args.stride);
  }

  lemma StrideFits(h: nat, stride: nat, w: nat, bpp: nat)
    requires 1 <= h && (h - 1) * stride + w * bpp < U32_LIMIT
    ensures Mul32(w, bpp) == w * bpp
    ensures h > 1 ==> Cut32(stride) == stride
    ensures (h - 1) * Cut32(stride) + w * bpp < U32_LIMIT
  {
    NotNegative(h - 1, stride);
    if h > 1 {
      MulMonotone(1, h - 1, stride);
    }
  }

  /** With a single row the stride does not matter. */
  lemma SameRows(b: Commands.Box, bpp: nat, s1: nat, s2: nat, q: nat)
    requires b.d == 1 && (b.h > 1 ==> s1 == s2)
    ensures InBox(b, bpp, s1, 0, q) <==> InBox(b, bpp, s2, 0, q)
  {
    if b.h == 1 {
      assert RowEnd(0, 0, b, bpp, s1, 0) == RowEnd(0, 0, b, bpp, s2, 0);
    }
  }

  /** And when the box is the whole resource, all that was sent is there. */
  lemma WholeReceived(t: TransferFrom, was: seq<byte>, flat: seq<byte>, bpp: u32, stride: u32, p: nat)
    requires |was| == |flat| < U32_LIMIT && Uploads(t, |flat|, bpp, stride) && p < |flat|
    ensures var payload := Payload(t, flat, bpp, stride);
            var n := Fits(|was|, PatchOffset(t), |payload|);
            && n == |payload|
            && WriteLine(was, payload, PatchOffset(t), 0, n)[p]
               == if PatchOffset(t) <= p < PatchOffset(t) + |payload| then flat[p] else was[p]
  {
    var payload := Payload(t, flat, bpp, stride);
    WriteLineAt(was, payload, PatchOffset(t), 0, |payload|, p);
  }

  /** Where enough was sent, the guest's memory after the scatter agrees with the renderer's buffer on every line, and
      is as before everywhere else. */
  lemma ReceivedAt(t: TransferFrom, was: seq<byte>, flat: seq<byte>, bpp: u32, stride: u32, p: nat)
    requires |was| == |flat| < U32_LIMIT && Uploads(t, |flat|, bpp, stride) && p < |flat|
    requires Needed(LinesOf(t, bpp, stride), |flat|) <= WindowLength(t.h, stride, t.w, bpp)
    ensures var l, payload := LinesOf(t, bpp, stride), Payload(t, flat, bpp, stride);
            Enough(l, |was|, payload) && WriteLines(was, payload, l, 0)[p] == if Covered(l, 0, p) then flat[p] else was[p]
  {
    hide Needed, WindowLength, WriteLines, Covered, Enough;
    PayloadEnough(t, flat, bpp, stride);
    ReceivedWith(LinesOf(t, bpp, stride), was, flat, Payload(t, flat, bpp, stride), p);
  }

  lemma ReceivedWith(l: Lines, was: seq<byte>, flat: seq<byte>, payload: seq<byte>, p: nat)
    requires Enough(l, |was|, payload) && |was| == |flat| && p < |flat|
    requires payload != [] ==> l.off + |payload| <= |flat| && payload == flat[l.off..l.off + |payload|]
    ensures WriteLines(was, payload, l, 0)[p] == if Covered(l, 0, p) then flat[p] else was[p]
  {
    WriteLinesAt(was, payload, l, 0, p);
  }
}

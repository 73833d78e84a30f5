/**
 Copying between a flat buffer and a scattered one (src/rvgpu-proxy/gpu/rvgpu-iov.c). The memory
 behind an iovec list is the sequence of what its entries hold.
 */
module Iov {
  import opened Bytes

  predicate SameShape(a: seq<seq<byte>>, b: seq<seq<byte>>) {
    |a| == |b| && forall i :: 0 <= i < |a| ==> |a[i]| == |b[i]|
  }

  method IovSize(iov: seq<seq<byte>>) returns (result: nat)
    ensures result == |Flat(iov)|
  {
    result := 0;
    for i := 0 to |iov|
      invariant result + |Flat(iov[i..])| == |Flat(iov)|
    {
      result := result + |iov[i]|;
    }
  }

  method CopyFromIov(iov: seq<seq<byte>>, buffer: array<byte>, len: nat) returns (ret: nat)
    requires len <= buffer.Length
    modifies buffer
    ensures ret == Min(len, |Flat(iov)|)
    ensures buffer[..] == Flat(iov)[..ret] + old(buffer[..])[ret..]
  {
    hide *;
    ghost var was := buffer[..];
    ret := 0;
    var i := 0;
    TakenStart(iov, was);
    while i < |iov|
      invariant i <= |iov| && ret <= len && Taken(iov, was, buffer[..], i, ret)
    {
      if |iov[i]| < len - ret {
        TakenMore(iov, was, buffer[..], i, ret, |iov[i]|);
        Write(buffer, ret, iov[i]);
        ret := ret + |iov[i]|;
        i := i + 1;
      } else {
        TakenMore(iov, was, buffer[..], i, ret, len - ret);
        Write(buffer, ret, iov[i][..len - ret]);
        ret := len;
        return;
      }
    }
    TakenEnd(iov, was, buffer[..], i, ret, len);
  }

  /** memcpy into a buffer */
  method Write(buffer: array<byte>, at: nat, piece: seq<byte>)
    requires at + |piece| <= buffer.Length
    modifies buffer
    ensures buffer[..] == Overlay(old(buffer[..]), at, piece)
  {
    forall k | 0 <= k < |piece| {
      buffer[at + k] := piece[k];
    }
  }

  /** The buffer holds the first ret bytes, which are those of the first i entries, and then what it held at first. */
  ghost predicate Taken(iov: seq<seq<byte>>, was: seq<byte>, buf: seq<byte>, i: nat, ret: nat) {
    && i <= |iov| && ret <= |Flat(iov)| && ret <= |was| && Flat(iov)[ret..] == Flat(iov[i..])
    && buf == Flat(iov)[..ret] + was[ret..]
  }

  lemma TakenStart(iov: seq<seq<byte>>, was: seq<byte>)
    ensures Taken(iov, was, was, 0, 0)
  {
    assert iov[0..] == iov;
  }

  /** All of the next entry, or the n bytes of it that are wanted. */
  lemma TakenMore(iov: seq<seq<byte>>, was: seq<byte>, buf: seq<byte>, i: nat, ret: nat, n: nat)
    requires i < |iov| && Taken(iov, was, buf, i, ret) && n <= |iov[i]| && ret + n <= |was|
    ensures |buf| == |was| && ret + n == Min(ret + n, |Flat(iov)|)
    ensures Overlay(buf, ret, iov[i][..n]) == Flat(iov)[..ret + n] + was[ret + n..]
    ensures n == |iov[i]| ==> iov[i][..n] == iov[i] && Taken(iov, was, Overlay(buf, ret, iov[i]), i + 1, ret + n)
  {
    var piece, rest := iov[i][..n], iov[i][n..] + Flat(iov[i + 1..]);
    FlatHead(iov, i);
    Assoc(piece, iov[i][n..], Flat(iov[i + 1..]));
    assert iov[i] == piece + iov[i][n..];
    CopyStep(Flat(iov), was, buf, ret, piece, rest);
    if n == |iov[i]| {
      assert iov[i][n..] == [] && rest == Flat(iov[i + 1..]);
      assert piece == iov[i];
    }
  }

  lemma TakenEnd(iov: seq<seq<byte>>, was: seq<byte>, buf: seq<byte>, i: nat, ret: nat, len: nat)
    requires Taken(iov, was, buf, i, ret) && i == |iov| && ret <= len
    ensures ret == |Flat(iov)| == Min(len, |Flat(iov)|) && buf == Flat(iov)[..ret] + was[ret..]
  {
    assert Flat(iov)[ret..] == [];
  }

  lemma FlatHead(iov: seq<seq<byte>>, i: nat)
    requires i < |iov|
    ensures Flat(iov[i..]) == iov[i] + Flat(iov[i + 1..])
  {
    assert iov[i..][1..] == iov[i + 1..];
  }

  lemma FlatStep(all: seq<byte>, ret: nat, piece: seq<byte>, rest: seq<byte>)
    requires ret <= |all| && all[ret..] == piece + rest
    ensures ret + |piece| <= |all|
    ensures all[..ret + |piece|] == all[..ret] + piece && all[ret + |piece|..] == rest
  {
    assert all == all[..ret] + (piece + rest);
  }

  /** buf holds what was copied already, and what it held at first. */
  lemma CopyStep(all: seq<byte>, was: seq<byte>, buf: seq<byte>, ret: nat, piece: seq<byte>, rest: seq<byte>)
    requires ret <= |all| && all[ret..] == piece + rest
    requires ret + |piece| <= |buf| == |was| && buf == all[..ret] + was[ret..]
    ensures ret + |piece| <= |all| && all[ret + |piece|..] == rest
    ensures Overlay(buf, ret, piece) == all[..ret + |piece|] + was[ret + |piece|..]
  {
    FlatStep(all, ret, piece, rest);
    assert buf[..ret] == all[..ret];
    assert buf[ret + |piece|..] == was[ret + |piece|..];
  }

  /** Only the part of the list that the data reaches changes; every entry keeps its length. */
  method CopyToIov(iov: seq<seq<byte>>, buffer: seq<byte>) returns (out: seq<seq<byte>>, ret: nat)
    ensures ret == Min(|buffer|, |Flat(iov)|)
    ensures SameShape(out, iov)
    ensures Flat(out) == buffer[..ret] + Flat(iov)[ret..]
  {
    hide *;
    ret := 0;
    out := iov;
    var i := 0;
    PutStart(iov, buffer);
    while i < |iov|
      invariant i <= |iov| && ret <= |buffer| && |out| == |iov| && Put(iov, out, buffer, i, ret)
    {
      if |iov[i]| < |buffer| - ret {
        PutWhole(iov, out, buffer, i, ret);
        out := out[i := buffer[ret..ret + |iov[i]|]];
        ret := ret + |iov[i]|;
        i := i + 1;
      } else {
        PutLast(iov, out, buffer, i, ret);
        out := out[i := buffer[ret..] + iov[i][|buffer| - ret..]];
        ret := |buffer|;
        return;
      }
    }
    PutEnd(iov, out, buffer, i, ret);
  }

  /** The first ret bytes of the buffer fill the first i entries. */
  ghost predicate Put(iov: seq<seq<byte>>, out: seq<seq<byte>>, buffer: seq<byte>, i: nat, ret: nat) {
    && i <= |iov| && ret <= |buffer| && ret <= |Flat(iov)|
    && SameShape(out, iov) && out[i..] == iov[i..]
    && Flat(out[..i]) == buffer[..ret]
    && Flat(iov)[ret..] == Flat(iov[i..])
  }

  lemma PutStart(iov: seq<seq<byte>>, buffer: seq<byte>)
    ensures Put(iov, iov, buffer, 0, 0)
  {
    assert iov[0..] == iov;
  }

  lemma PutEnd(iov: seq<seq<byte>>, out: seq<seq<byte>>, buffer: seq<byte>, i: nat, ret: nat)
    requires Put(iov, out, buffer, i, ret) && i == |iov|
    ensures ret == Min(|buffer|, |Flat(iov)|) && SameShape(out, iov)
    ensures Flat(out) == buffer[..ret] + Flat(iov)[ret..]
  {
    SplitEnd(out, i);
    assert Flat(iov)[ret..] == [];
  }

  lemma PutWhole(iov: seq<seq<byte>>, out: seq<seq<byte>>, buffer: seq<byte>, i: nat, ret: nat)
    requires i < |iov| && Put(iov, out, buffer, i, ret) && |iov[i]| < |buffer| - ret
    ensures Put(iov, out[i := buffer[ret..ret + |iov[i]|]], buffer, i + 1, ret + |iov[i]|)
  {
    var piece := buffer[ret..ret + |iov[i]|];
    FlatHead(iov, i);
    FlatStep(Flat(iov), ret, iov[i], Flat(iov[i + 1..]));
    assert out[i := piece][..i + 1] == out[..i] + [piece];
    FlatSnoc(out[..i], piece);
    assert buffer[..ret] + piece == buffer[..ret + |iov[i]|];
    assert out[i := piece][i + 1..] == out[i..][1..] == iov[i..][1..] == iov[i + 1..];
  }

  lemma PutLast(iov: seq<seq<byte>>, out: seq<seq<byte>>, buffer: seq<byte>, i: nat, ret: nat)
    requires i < |iov| && Put(iov, out, buffer, i, ret) && |iov[i]| >= |buffer| - ret
    ensures var last := out[i := buffer[ret..] + iov[i][|buffer| - ret..]];
            && SameShape(last, iov) && |buffer| == Min(|buffer|, |Flat(iov)|)
            && Flat(last) == buffer[..|buffer|] + Flat(iov)[|buffer|..]
  {
    var n := |buffer| - ret;
    var kept, rest := iov[i][n..], Flat(iov[i + 1..]);
    var last := out[i := buffer[ret..] + kept];
    FlatHead(iov, i);
    assert iov[i][..n] + kept == iov[i];
    Assoc(iov[i][..n], kept, rest);
    FlatStep(Flat(iov), ret, iov[i][..n], kept + rest);
    LastFilled(iov, out, last, buffer, i, ret, kept);
    FilledAround(buffer, ret, kept, rest);
  }

  lemma LastFilled(iov: seq<seq<byte>>, out: seq<seq<byte>>, last: seq<seq<byte>>, buffer: seq<byte>, i: nat,
                   ret: nat, kept: seq<byte>)
    requires i < |iov| && Put(iov, out, buffer, i, ret) && last == out[i := buffer[ret..] + kept]
    ensures Flat(last) == buffer[..ret] + ((buffer[ret..] + kept) + Flat(iov[i + 1..]))
  {
    SplitAt(last, i);
    assert last[..i] == out[..i];
    assert last[i + 1..] == out[i..][1..] == iov[i..][1..] == iov[i + 1..];
  }

  lemma FilledAround(buffer: seq<byte>, ret: nat, kept: seq<byte>, rest: seq<byte>)
    requires ret <= |buffer|
    ensures buffer[..ret] + ((buffer[ret..] + kept) + rest) == buffer[..|buffer|] + (kept + rest)
  {
  }

  lemma SplitAt(a: seq<seq<byte>>, i: nat)
    requires i < |a|
    ensures Flat(a) == Flat(a[..i]) + (a[i] + Flat(a[i + 1..]))
  {
    assert a == a[..i] + a[i..];
    FlatAppend(a[..i], a[i..]);
    assert a[i..][1..] == a[i + 1..];
  }

  lemma SplitEnd(a: seq<seq<byte>>, i: nat)
    requires i == |a|
    ensures Flat(a) == Flat(a[..i])
  {
    assert a[..i] == a;
  }
}

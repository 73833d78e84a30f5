/**
 Bytes, little-endian words, and the two operations every part of the protocol is
 made of: flattening a list of fragments and overlaying data on a buffer.
 */
module Bytes {

  datatype Option<+T> = None | Some(value: T)

  newtype byte = x: int | 0 <= x < 0x100

  const U32_LIMIT: nat := 0x1_0000_0000

  type u32 = x: int | 0 <= x < 0x1_0000_0000

  /** A value stored in a uint32_t. */
  function Cut32(n: nat): (r: u32)
    ensures r == n % 0x1_0000_0000
  {
    if n < U32_LIMIT then n else n % 0x1_0000_0000
  }

  function Min(a: nat, b: nat): nat {
    if a <= b then a else b
  }

  /** The four bytes of a uint32_t as a little-endian host stores them. */
  function U32Bytes(n: u32): (b: seq<byte>)
    ensures |b| == 4
  {
    [(n % 0x100) as byte, (n / 0x100 % 0x100) as byte,
     (n / 0x1_0000 % 0x100) as byte, (n / 0x100_0000) as byte]
  }

  /** The uint32_t stored at offset i of b. */
  function U32At(b: seq<byte>, i: nat): u32
    requires i + 4 <= |b|
  {
    b[i] as int + 0x100 * (b[i + 1] as int)
    + 0x1_0000 * (b[i + 2] as int) + 0x100_0000 * (b[i + 3] as int)
  }

  /** The uint64_t stored at offset i of b. */
  function U64At(b: seq<byte>, i: nat): (n: nat)
    requires i + 8 <= |b|
  {
    U32At(b, i) + U32_LIMIT * U32At(b, i + 4)
  }

  lemma Digits(n: u32)
    ensures n == n % 0x100 + 0x100 * (n / 0x100 % 0x100) + 0x1_0000 * (n / 0x1_0000 % 0x100) + 0x100_0000 * (n / 0x100_0000)
  {
    var a, b := n / 0x100, n / 0x1_0000;
    assert n == n % 0x100 + 0x100 * a;
    assert b == a / 0x100 && n / 0x100_0000 == b / 0x100;
    assert a == a % 0x100 + 0x100 * b;
    assert b == b % 0x100 + 0x100 * (b / 0x100);
  }

  lemma U32RoundTrip(b: seq<byte>, i: nat, n: u32)
    requires i + 4 <= |b| && b[i..i + 4] == U32Bytes(n)
    ensures U32At(b, i) == n
  {
    Digits(n);
    assert b[i + 0] == U32Bytes(n)[0];
    assert b[i + 1] == U32Bytes(n)[1];
    assert b[i + 2] == U32Bytes(n)[2];
    assert b[i + 3] == U32Bytes(n)[3];
  }

  /** A structure of 32-bit words. */
  function WordsBytes(ws: seq<u32>): (b: seq<byte>)
    ensures |b| == 4 * |ws|
  {
    if ws == [] then [] else U32Bytes(ws[0]) + WordsBytes(ws[1..])
  }

  lemma {:induction false} WordAt(ws: seq<u32>, i: nat)
    requires i < |ws|
    ensures U32At(WordsBytes(ws), 4 * i) == ws[i]
  {
    var b, tail := WordsBytes(ws), WordsBytes(ws[1..]);
    if i == 0 {
      assert b[0..4] == U32Bytes(ws[0]);
      U32RoundTrip(b, 0, ws[0]);
    } else {
      WordAt(ws[1..], i - 1);
      assert forall k :: 4 * i <= k < 4 * i + 4 ==> b[k] == tail[k - 4];
    }
  }

  /** All the fragments of an iovec list, one after the other. */
  function Flat<T>(frags: seq<seq<T>>): seq<T> {
    if frags == [] then [] else frags[0] + Flat(frags[1..])
  }

  lemma {:induction false} FlatAppend<T>(a: seq<seq<T>>, b: seq<seq<T>>)
    ensures Flat(a + b) == Flat(a) + Flat(b)
  {
    if a == [] {
      assert a + b == b;
    } else {
      assert (a + b)[1..] == a[1..] + b;
      FlatAppend(a[1..], b);
    }
  }

  lemma FlatSnoc<T>(a: seq<seq<T>>, x: seq<T>)
    ensures Flat(a + [x]) == Flat(a) + x
  {
    FlatAppend(a, [x]);
    assert Flat([x]) == x + Flat([]);
  }

  lemma Assoc<T>(a: seq<T>, b: seq<T>, c: seq<T>)
    ensures (a + b) + c == a + (b + c)
  {
  }

  /** The buffer after data is copied into it at offset off. */
  function Overlay<T>(buf: seq<T>, off: nat, data: seq<T>): (r: seq<T>)
    requires off + |data| <= |buf|
    ensures |r| == |buf|
  {
    buf[..off] + data + buf[off + |data|..]
  }
}

/**
 How bytes travel: the proxy writes every buffer to every renderer in spite of short
 writes (src/librvgpu/rvgpu.c), and the renderer reads through one bounded buffer
 (src/rvgpu-renderer/virgl/rvgpu-virgl.c).
 */
module Transport {
  import opened Bytes

  // ----- the fan-out -----

  /** What one write() call does: it takes some bytes, is told to try again, or fails. */
  datatype WriteResult = Wrote(n: nat) | TryAgain | Failed

  datatype SendStatus = Sent | Busy | WriteError

  /**
   rvgpu_ctx_send. The kernel's answers are an input: answers[i] is what the write() calls on
   pipe i return, in order; a write beyond the end of that list takes all that is left.
   */
  method CtxSend(pipes: array<seq<byte>>, activated: seq<bool>, buf: seq<byte>, answers: seq<seq<WriteResult>>)
    returns (status: SendStatus, stopped: nat)
    requires |activated| == |answers| == pipes.Length
    modifies pipes
    ensures stopped <= pipes.Length && (status.Sent? <==> stopped == pipes.Length)
    ensures forall i :: 0 <= i < stopped ==> pipes[i] == old(pipes[i]) + buf
    ensures forall i :: stopped < i < pipes.Length ==> pipes[i] == old(pipes[i])
    ensures status.Busy? ==> !activated[stopped] && pipes[stopped] == old(pipes[stopped])
    ensures status.WriteError? ==>
              exists k :: 0 <= k < |buf| && pipes[stopped] == old(pipes[stopped]) + buf[..k]
    ensures (forall i :: 0 <= i < pipes.Length ==> activated[i] && Failed !in answers[i]) ==> status.Sent?
  {
    stopped := 0;
    while stopped < pipes.Length
      invariant 0 <= stopped <= pipes.Length
      invariant forall i :: 0 <= i < stopped ==> pipes[i] == old(pipes[i]) + buf
      invariant forall i :: stopped <= i < pipes.Length ==> pipes[i] == old(pipes[i])
    {
      if !activated[stopped] {
        return Busy, stopped;
      }
      var offset, call: nat := 0, 0;
      while offset < |buf|
        invariant 0 <= offset <= |buf| && call <= |answers[stopped]|
        invariant pipes[stopped] == old(pipes[stopped]) + buf[..offset]
        invariant forall i :: 0 <= i < stopped ==> pipes[i] == old(pipes[i]) + buf
        invariant forall i :: stopped < i < pipes.Length ==> pipes[i] == old(pipes[i])
        decreases |answers[stopped]| - call, |buf| - offset
      {
        var answer := if call < |answers[stopped]| then answers[stopped][call] else Wrote(|buf| - offset);
        match answer {
          case Wrote(n) =>
            var written := Min(n, |buf| - offset);
            pipes[stopped] := pipes[stopped] + buf[offset..offset + written];
            assert buf[..offset] + buf[offset..offset + written] == buf[..offset + written];
            offset := offset + written;
          case TryAgain =>
          case Failed =>
            return WriteError, stopped;
        }
        call := Min(call + 1, |answers[stopped]|);
      }
      assert buf[..offset] == buf;
      stopped := stopped + 1;
    }
    status := Sent;
  }

  // ----- the chunked reader -----

  /**
   One stream of struct rvgpu_pr_state. What the socket will still deliver is the list
   incoming, one element for each read(); an empty element, or the end of the list, is a
   closed connection.
   */
  class Reader {
    var buffer: array<byte>
    var bufcurlen: nat
    var bufpos: nat
    var incoming: seq<seq<byte>>

    ghost predicate Valid()
      reads this
    {
      && bufpos <= bufcurlen <= buffer.Length
      && forall c <- incoming :: |c| <= buffer.Length
    }

    /** The bytes the socket delivers before it is closed. */
    static ghost function Arriving(chunks: seq<seq<byte>>): seq<byte> {
      if chunks == [] || chunks[0] == [] then [] else chunks[0] + Arriving(chunks[1..])
    }

    /** All that can still be read. */
    ghost function Stream(): seq<byte>
      requires Valid()
      reads this, buffer
    {
      buffer[bufpos..bufcurlen] + Arriving(incoming)
    }

    constructor (size: nat, incoming: seq<seq<byte>>)
      requires forall c <- incoming :: |c| <= size
      ensures Valid() && fresh(buffer) && Stream() == Arriving(incoming)
    {
      buffer := new byte[size];
      bufcurlen, bufpos := 0, 0;
      this.incoming := incoming;
    }

    /** rvgpu_pr_readbuf */
    method ReadBuf() returns (more: bool)
      requires Valid() && bufpos == bufcurlen
      modifies this`bufcurlen, this`bufpos, this`incoming, buffer
      ensures Valid() && Stream() == old(Stream())
      ensures more <==> old(Stream()) != []
      ensures more ==> |incoming| < |old(incoming)|
      ensures !more ==> unchanged(this) && unchanged(buffer)
    {
      if |incoming| == 0 || |incoming[0]| == 0 {
        return false;
      }
      var chunk := incoming[0];
      forall i | 0 <= i < |chunk| {
        buffer[i] := chunk[i];
      }
      bufcurlen, bufpos := |chunk|, 0;
      incoming := incoming[1..];
      assert buffer[0..|chunk|] == chunk;
      return true;
    }

    /** The copy inside the loop of rvgpu_pr_read: at most limit of the bytes already buffered. */
    method TakeBuffered(limit: nat) returns (piece: seq<byte>)
      requires Valid()
      modifies this`bufpos
      ensures Valid() && piece + Stream() == old(Stream())
      ensures |piece| == Min(limit, bufcurlen - old(bufpos)) && bufpos == old(bufpos) + |piece|
    {
      var avail := bufcurlen - bufpos;
      if avail > limit {
        avail := limit;
      }
      hide Arriving;
      piece := buffer[bufpos..bufpos + avail];
      assert buffer[bufpos..bufcurlen] == piece + buffer[bufpos + avail..bufcurlen];
      Assoc(piece, buffer[bufpos + avail..bufcurlen], Arriving(incoming));
      bufpos := bufpos + avail;
    }

    /**
     rvgpu_pr_read: the next bytes of the stream, however it was cut into reads; fewer than
     asked for only when the stream ends.
     */
    method Read(total: nat) returns (out: seq<byte>)
      requires Valid()
      modifies this`bufcurlen, this`bufpos, this`incoming, buffer
      ensures Valid()
      ensures |out| == Min(total, |old(Stream())|)
      ensures out == old(Stream())[..|out|] && Stream() == old(Stream())[|out|..]
    {
      out := [];
      ghost var all := Stream();
      assert [] + all == all;
      while |out| < total
        invariant Valid() && |out| <= total
        invariant out + Stream() == all
        decreases |incoming|
      {
        var piece := TakeBuffered(total - |out|);
        Assoc(out, piece, Stream());
        out := out + piece;
        if |out| == total {
          break;
        }
        var more := ReadBuf();
        if !more {
          break;
        }
      }
      assert all[..|out|] == out && all[|out|..] == Stream();
    }
  }
}

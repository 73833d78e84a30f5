/**
 A whole session: the proxy serves the requests of the driver, the socket delivers what a
 renderer was sent in reads of any length, and the renderer dispatches it.
 */
module Session {
  import opened Bytes
  import opened Commands
  import opened ProxyResources
  import opened TransferSize
  import opened CommandStream
  import opened Transport
  import opened GpuDevice
  import opened Renderer

  /** What the reads deliver: the i-th one 1 + cuts(i) bytes, as far as the buffer and the stream reach. */
  function Chunks(stream: seq<byte>, size: pos, cuts: nat -> nat, i: nat): (chunks: seq<seq<byte>>)
    ensures forall c <- chunks :: |c| <= size
    decreases |stream|
  {
    if stream == [] then []
    else
      var n := Min(Min(1 + cuts(i), size), |stream|);
      [stream[..n]] + Chunks(stream[n..], size, cuts, i + 1)
  }

  /** However it is cut up, the stream arrives. */
  lemma {:induction false} ChunksArrive(stream: seq<byte>, size: pos, cuts: nat -> nat, i: nat)
    ensures Reader.Arriving(Chunks(stream, size, cuts, i)) == stream
    decreases |stream|
  {
    if stream != [] {
      var n := Min(Min(1 + cuts(i), size), |stream|);
      var tail := Chunks(stream[n..], size, cuts, i + 1);
      ChunksArrive(stream[n..], size, cuts, i + 1);
      FirstArrives(stream[..n], tail);
    }
  }

  lemma FirstArrives(chunk: seq<byte>, tail: seq<seq<byte>>)
    requires chunk != []
    ensures Reader.Arriving([chunk] + tail) == chunk + Reader.Arriving(tail)
  {
    assert ([chunk] + tail)[1..] == tail;
  }

  /**
   For every well-behaved run of requests, renderer, read buffer and way the stream is cut into reads: the
   renderer dispatches the commands forwarded to it, in order, comes to the end of the stream and not to an
   exit, and what it has then mirrors what the proxy has.
   */
  method Run(max: nat, renderers: nat, qs: seq<Request>, fmt: Formats, k: nat, size: pos, cuts: nat -> nat,
             stale: nat -> Stale)
    returns (log: seq<(seq<byte>, bool)>, status: Status, table: Resources, mirror: Table)
    requires k < renderers && WellBehaved(Resources([], 0, max), qs, fmt)
    ensures log == Asked(qs, k == 0) && status == AtEnd
    ensures table == ServeAll(Resources([], 0, max), qs, fmt) && Mirror(table, mirror)
  {
    hide WellBehaved, SmallAlong, BytesTo, CommandsTo, Asked, ServeAll, DispatchAll, Chunks, Reader.Arriving, Mirror;
    ghost var start := Resources([], 0, max);
    StartMirrored(max);
    WellBehavedSmall(start, qs, fmt);
    var device := new Device(max, renderers);
    device.ServeWaiting(qs, fmt);
    table := device.table.Model();
    var stream := device.streams[k];
    assert stream == BytesTo(start, qs, fmt, k);
    ChunksArrive(stream, size, cuts, 0);
    var reader := new Reader(size, Chunks(stream, size, cuts, 0));
    var renderer := new VirglRenderer(reader);
    CommandsToIs(start, qs, fmt, k);
    EndToEnd(start, map[], qs, fmt, k, stale, 0);
    log, status := renderer.Run(stale);
    mirror := renderer.table;
  }
}

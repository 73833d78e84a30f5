/**
 The proxy serving one request: sanity check, forwarding, resource table, patches
 (gpu_device_serve_ctrl and gpu_device_serve_cursor in
 src/rvgpu-proxy/gpu/rvgpu-gpu-device.c).
 */
module GpuDevice {
  import opened Bytes
  import opened Commands
  import opened PatchCodec
  import opened ProxyResources
  import opened TransferSize
  import opened CommandStream
  import opened Transport

  lemma RefusedSendsNothing(s: Resources, q: Request, fmt: Formats)
    ensures !Sane(q) ==> ServeRequest(s, q, fmt).sent == []
  {
  }

  class Device {
    const table: ResourceTable
    const streams: array<seq<byte>>  // one command pipe for each renderer

    ghost predicate Valid() {
      0 < streams.Length
    }

    /** The streams grew by sent, all of them or only the first. */
    twostate predicate Appended(sent: seq<byte>, toAll: bool)
      reads streams
    {
      forall k :: 0 <= k < streams.Length ==>
        streams[k] == old(streams[k]) + if toAll || k == 0 then sent else []
    }

    constructor (maxMem: nat, renderers: nat)
      requires 0 < renderers
      ensures Valid() && fresh(table) && fresh(streams) && streams.Length == renderers
      ensures table.Model() == Resources([], 0, maxMem)
      ensures forall k :: 0 <= k < renderers ==> streams[k] == []
    {
      table := new ResourceTable(maxMem);
      streams := new seq<byte>[renderers](_ => []);
    }

    /** gpu_device_send_command, on pipes that stay open. */
    method SendCommand(buf: seq<byte>, notifyAll: bool)
      requires Valid()
      modifies streams
      ensures Appended(buf, notifyAll)
    {
      if notifyAll {
        var n := streams.Length;
        var status, stopped := CtxSend(streams, seq(n, _ => true), buf, seq(n, _ => []));
      } else {
        streams[0] := streams[0] + buf;
      }
    }

    /** gpu_device_send_res and rvgpu_ctx_transfer_to_host */
    method SendRes(x: Xfer, mem: Memory, fmt: Formats) returns (resp: Response)
      requires Valid() && (Backed(table.Model(), x.id) ==> Total(Find(table.list, x.id).value.backing.value) < U32_LIMIT)
      modifies streams
      ensures Appended(XferBytes(table.Model(), mem, fmt, x), true)
      ensures resp == XferResponse(table.Model(), x.id)
    {
      hide Flat, PatchCodec.Gather, PatchCodec.EncodeAll;
      var i := table.FindRes(x.id);
      if i == |table.list| {
        return ErrResourceId;
      }
      var r := table.list[i];
      if r.backing.None? {
        return ErrParameter;
      }
      FragmentsLength(mem, r.backing.value);
      var writer := new PatchWriter([]);
      writer.SendData(Fragments(mem, r.backing.value), x.args.offset, LengthOf(r, fmt, x.args));
      SendCommand(writer.sink + TERMINATOR, true);
      return OkNodata;
    }

    /** gpu_device_handle_submit_3d */
    method HandleSubmit3d(words: seq<u32>, mem: Memory, fmt: Formats, stale: Stale) returns (resp: Response)
      requires Valid()
      requires Small(table.Model())
      modifies streams
      ensures Appended(XfersBytes(table.Model(), mem, fmt, Walk(words, stale, 0)), true)
      ensures resp == XfersResponse(table.Model(), Walk(words, stale, 0))
    {
      resp := OkNodata;
      var at := 0;
      ghost var done: seq<Xfer> := [];
      while at < |words|
        invariant done + Walk(words, stale, at) == Walk(words, stale, 0)
        invariant Appended(XfersBytes(table.Model(), mem, fmt, done), true)
        invariant resp == XfersResponse(table.Model(), done)
        decreases |words| - at
      {
        Assoc(done, XferAt(words, stale, at), Walk(words, stale, Next(words, at)));
        if words[at] == TRANSFER3D_HEADER || words[at] == COPY_TRANSFER3D_HEADER {
          var x := XferAt(words, stale, at)[0];
          assert XferAt(words, stale, at) == [x];
          label before:
          resp := SendRes(x, mem, fmt);
          XfersBytesSnoc(table.Model(), mem, fmt, done, x);
          forall k | 0 <= k < streams.Length
            ensures streams[k] == old(streams[k]) + XfersBytes(table.Model(), mem, fmt, done + [x])
          {
            Assoc(old(streams[k]), XfersBytes(table.Model(), mem, fmt, done), XferBytes(table.Model(), mem, fmt, x));
          }
          done := done + [x];
        } else {
          assert done + [] == done;
        }
        at := Next(words, at);
      }
      assert done + [] == done;
    }

    /** One request of either queue, served up to its response. */
    method ServeOne(b: seq<byte>, cursor: bool, mem: Memory, fmt: Formats, stale: Stale) returns (resp: Response)
      requires Valid()
      requires Small(table.Model())
      modifies table, streams
      ensures var served := Serve(old(table.Model()), b, cursor, mem, fmt, stale);
              && table.Model() == served.s && resp == served.resp
              && Appended(served.sent, served.toAll)
    {
      var size := if cursor then |b| else Cut32(|b|);
      var cmd := b[..size];
      assert cmd == Seen(b, cursor);
      resp := Sanity(cmd, cursor, true);
      if resp != OkNodata {
        return;
      }
      SaneOnBothEnds(b, cursor);
      resp := ServeParsed(Parse(cmd, cursor), size, b, cursor, mem, fmt, stale);
    }

    /** All the requests that wait, in order. */
    method ServeWaiting(qs: seq<Request>, fmt: Formats)
      requires Valid() && SmallAlong(table.Model(), qs, fmt)
      modifies table, streams
      ensures table.Model() == ServeAll(old(table.Model()), qs, fmt)
      ensures forall k :: 0 <= k < streams.Length ==>
                streams[k] == old(streams[k]) + BytesTo(old(table.Model()), qs, fmt, k)
    {
      hide Serve, Small;
      for n := 0 to |qs|
        invariant SmallAlong(table.Model(), qs[n..], fmt)
        invariant ServeAll(table.Model(), qs[n..], fmt) == ServeAll(old(table.Model()), qs, fmt)
        invariant forall k :: 0 <= k < streams.Length ==>
                    streams[k] + BytesTo(table.Model(), qs[n..], fmt, k)
                    == old(streams[k]) + BytesTo(old(table.Model()), qs, fmt, k)
      {
        ghost var s, before, q := table.Model(), streams[..], qs[n];
        assert qs[n..][1..] == qs[n + 1..];
        var resp := ServeOne(qs[n].b, qs[n].cursor, qs[n].mem, fmt, qs[n].stale);
        forall k | 0 <= k < streams.Length
          ensures streams[k] + BytesTo(table.Model(), qs[n + 1..], fmt, k) == before[k] + BytesTo(s, qs[n..], fmt, k)
        {
          RefusedSendsNothing(s, q, fmt);
          Assoc(before[k], if ForwardedTo(s, q, fmt, k) then ServeRequest(s, q, fmt).sent else [],
                BytesTo(table.Model(), qs[n + 1..], fmt, k));
        }
      }
    }

    /** The header and then the command, as two writes. */
    method Forward(header: seq<byte>, b: seq<byte>, all: bool)
      requires Valid()
      modifies streams
      ensures Appended(header + b, all)
    {
      SendCommand(header, all);
      SendCommand(b, all);
      forall k | 0 <= k < streams.Length
        ensures streams[k] == old(streams[k]) + if all || k == 0 then header + b else []
      {
        Assoc(old(streams[k]), header, b);
      }
    }

    method ServeParsed(c: Cmd, size: u32, b: seq<byte>, cursor: bool, mem: Memory, fmt: Formats, stale: Stale)
      returns (resp: Response)
      requires Valid()
      requires Small(table.Model())
      modifies table, streams
      ensures var served := ServeCmd(old(table.Model()), c, size, b, cursor, mem, fmt, stale);
              && table.Model() == served.s && resp == served.resp
              && Appended(served.sent, served.toAll)
    {
      hide XferBytes, XfersBytes, Walk, XfersResponse, XferResponse, Flat;
      var meta, all := Meta(0, 0), !c.FromHost?;
      if c.FromHost? {
        var i := table.FindRes(c.id);
        if i < |table.list| {
          meta := MetaOf(table.list[i], fmt, c.args);
        }
      }
      Forward(RvgpuHeader(size, cursor, meta.bpp, meta.stride), b, all);
      ghost var plain := RvgpuHeader(size, cursor, meta.bpp, meta.stride) + b;
      resp := OkNodata;
      match c {
        case Create(id, target, format, width, height) =>
          resp := table.CreateRes(Res(id, target, format, width, height, None));
        case Unref(id) => resp := table.DestroyRes(id);
        case Attach(id, entries) => resp := table.AttachBacking(id, Iovs(entries));
        case Detach(id) => resp := table.DetachBacking(id);
        case ToHost(id, args) =>
          resp := SendRes(Xfer(id, args), mem, fmt);
          forall k | 0 <= k < streams.Length
            ensures streams[k] == old(streams[k]) + (plain + XferBytes(table.Model(), mem, fmt, Xfer(id, args)))
          {
            Assoc(old(streams[k]), plain, XferBytes(table.Model(), mem, fmt, Xfer(id, args)));
          }
        case FromHost(_, _) =>
        case Submit(words) =>
          resp := HandleSubmit3d(words, mem, fmt, stale);
          ghost var more := XfersBytes(table.Model(), mem, fmt, Walk(words, stale, 0));
          forall k | 0 <= k < streams.Length
            ensures streams[k] == old(streams[k]) + (plain + more)
          {
            Assoc(old(streams[k]), plain, more);
          }
        case SetScanout(_, _, _) =>
        case Other =>
      }
    }
  }
}

/**
 The renderer's dispatch loop as it runs: reading through the chunked reader, loading
 patches into resource memory in place (src/rvgpu-renderer/virgl/rvgpu-virgl.c).
 */
module Renderer {
  import opened Bytes
  import opened Commands
  import opened PatchCodec
  import opened CommandStream
  import opened ProxyResources
  import opened Transport

  datatype Status = Running | AtEnd | Exited

  /** What has been read of a patch header decides whether the loading goes on. */
  lemma LoadNext(mem: seq<byte>, todo: seq<byte>, header: seq<byte>, rest: seq<byte>)
    requires |header| == Min(PATCH_HEADER_SIZE, |todo|) && header == todo[..|header|] && rest == todo[|header|..]
    ensures |header| == PATCH_HEADER_SIZE ==> header + rest == todo
    ensures |header| < PATCH_HEADER_SIZE ==> Load(mem, todo) == Loaded(mem, []) && rest == []
  {
  }

  lemma LoadStep(mem: seq<byte>, header: seq<byte>, body: seq<byte>)
    requires |header| == PATCH_HEADER_SIZE
    ensures var offset, len := U32At(header, 4), U32At(header, 8);
            Load(mem, header + body)
            == if len == 0 then Loaded(mem, body)
               else if offset + len > |mem| then WrongPatch
               else if |body| < len then Closed(Overlay(mem, offset, body))
               else Load(Overlay(mem, offset, body[..len]), body[len..])
  {
    hide Overlay;
    var s := header + body;
    assert U32At(s, 4) == U32At(header, 4) && U32At(s, 8) == U32At(header, 8) && s[PATCH_HEADER_SIZE..] == body;
  }

  class VirglRenderer {
    const reader: Reader
    var table: Table

    ghost predicate Valid()
      reads this, reader, reader.buffer
    {
      reader.Valid()
    }

    constructor (reader: Reader)
      requires reader.Valid()
      ensures Valid() && this.reader == reader && table == map[]
    {
      this.reader := reader;
      table := map[];
    }

    /** load_resource_patched on the memory of one resource. */
    method LoadResourcePatched(mem0: seq<byte>) returns (mem: seq<byte>, status: Status)
      requires Valid()
      modifies reader, reader.buffer
      ensures Valid() && reader.buffer == old(reader.buffer)
      ensures match Load(mem0, old(reader.Stream()))
              case Loaded(buf, rest) => status == Running && mem == buf && reader.Stream() == rest
              case WrongPatch => status == Exited
              case Closed(buf) => status == AtEnd && mem == buf && reader.Stream() == []
    {
      hide Load, U32At, Overlay, Reader.Arriving;
      mem := mem0;
      var header := reader.Read(PATCH_HEADER_SIZE);
      LoadNext(mem, old(reader.Stream()), header, reader.Stream());
      while |header| == PATCH_HEADER_SIZE
        invariant reader.Valid() && reader.buffer == old(reader.buffer)
        invariant |header| == PATCH_HEADER_SIZE ==> Load(mem, header + reader.Stream()) == Load(mem0, old(reader.Stream()))
        invariant |header| < PATCH_HEADER_SIZE ==>
                    Load(mem0, old(reader.Stream())) == Loaded(mem, []) && reader.Stream() == []
        invariant |header| <= PATCH_HEADER_SIZE
        decreases |header| + |reader.Stream()|
      {
        var offset, len := U32At(header, 4), U32At(header, 8);
        LoadStep(mem, header, reader.Stream());
        if len == 0 {
          return mem, Running;
        }
        if offset + len > |mem| {
          return mem, Exited;
        }
        ghost var body := reader.Stream();
        var data := reader.Read(len);
        mem := Overlay(mem, offset, data);
        if |data| != len {
          assert data == body;
          return mem, AtEnd;
        }
        ghost var todo := reader.Stream();
        header := reader.Read(PATCH_HEADER_SIZE);
        LoadNext(mem, todo, header, reader.Stream());
      }
      status := Running;
    }

    /** load_resource: on failure the memory is attached again all the same. */
    method LoadResource(id: u32) returns (loaded: bool, status: Status)
      requires Valid()
      modifies this`table, reader, reader.buffer
      ensures Valid() && reader.buffer == old(reader.buffer)
      ensures match LoadRes(old(table), id, old(reader.Stream()))
              case Died => status == Exited
              case Going(t, rest, _) => status != Exited && table == t && reader.Stream() == rest
      ensures status != Exited ==> loaded == LoadRes(old(table), id, old(reader.Stream())).loaded
    {
      if id !in table || table[id].buf.None? {
        return false, Running;
      }
      var mem;
      mem, status := LoadResourcePatched(table[id].buf.value);
      loaded := status == Running;
      if status != Exited {
        table := table[id := table[id].(buf := Some(mem))];
      }
    }

    /** rvgpu_handle_submit_3d */
    method HandleSubmit3d(words: seq<u32>, stale: Stale) returns (status: Status)
      requires Valid()
      modifies this`table, reader, reader.buffer
      ensures Valid() && reader.buffer == old(reader.buffer)
      ensures match LoadEach(old(table), Ids(Walk(words, stale, 0)), old(reader.Stream()))
              case Died => status == Exited
              case Going(t, rest, _) => status == Running && table == t && reader.Stream() == rest
    {
      hide LoadRes, Reader.Arriving;
      var at := 0;
      while at < |words|
        invariant Valid() && reader.buffer == old(reader.buffer)
        invariant LoadEach(table, Ids(Walk(words, stale, at)), reader.Stream())
               == LoadEach(old(table), Ids(Walk(words, stale, 0)), old(reader.Stream()))
        decreases |words| - at
      {
        ghost var tail := Walk(words, stale, Next(words, at));
        if words[at] == TRANSFER3D_HEADER || words[at] == COPY_TRANSFER3D_HEADER {
          var id := Word(words, stale, if words[at] == TRANSFER3D_HEADER then at + 1 else at + 12);
          assert XferAt(words, stale, at)[0].id == id;
          assert Walk(words, stale, at)[1..] == tail;
          assert Ids(Walk(words, stale, at)) == [id] + Ids(tail);
          var loaded;
          loaded, status := LoadResource(id);
          if status == Exited {
            return;
          }
        } else {
          assert [] + tail == tail;
        }
        at := Next(words, at);
      }
      status := Running;
    }

    /** resource_attach_backing */
    method AttachBacking(id: u32, entries: seq<MemEntry>) returns (status: Status)
      requires Valid()
      modifies this`table
      ensures var ok := TotalLength(entries) != 0 && id in old(table) && old(table)[id].buf.None?;
              && (status == if ok then Running else Exited)
              && table == if ok then old(table)[id := old(table)[id].(buf := Some(Zeros(TotalLength(entries))))]
                          else old(table)
    {
      var length := 0;
      for i := 0 to |entries|
        invariant length == Total(Iovs(entries)[..i]) && table == old(table)
      {
        TotalSnoc(Iovs(entries), i);
        length := length + entries[i].length;
      }
      assert Iovs(entries)[..|entries|] == Iovs(entries);
      if length == 0 || id !in table || table[id].buf.Some? {
        return Exited;
      }
      table := table[id := table[id].(buf := Some(Zeros(length)))];
      status := Running;
    }

    /** The TRANSFER_TO_HOST cases: patches are loaded before the rectangle is checked. */
    method TransferToHost(id: u32, args: TransferArgs) returns (status: Status)
      requires Valid()
      modifies this`table, reader, reader.buffer
      ensures Valid() && reader.buffer == old(reader.buffer)
      ensures var t, l := old(table), LoadRes(old(table), id, old(reader.Stream()));
              if l.Died? || (l.loaded && id in t && !BoxInside(args.box, t[id].width, t[id].height))
              then status == Exited
              else status == Running && table == l.t && reader.Stream() == l.rest
    {
      var loaded;
      loaded, status := LoadResource(id);
      if status != Exited && !loaded {
        return Running;
      }
      if status != Exited {
        status := if BoxInside(args.box, table[id].width, table[id].height) then Running else Exited;
      }
    }

    /** set_scanout, up to the rectangle */
    method SetScanout(id: u32, box: Box) returns (status: Status)
      ensures status == if id != 0 && id in table && !BoxInside(box, table[id].width, table[id].height) then Exited else Running
    {
      if id == 0 || id !in table {
        return Running;
      }
      status := if BoxInside(box, table[id].width, table[id].height) then Running else Exited;
    }

    /** The TRANSFER_FROM_HOST_3D case, up to what upload_resource may send. */
    method TransferFromHost(id: u32, args: TransferArgs, meta: Meta) returns (status: Status)
      ensures status == if || id !in table || !BoxInside(args.box, table[id].width, table[id].height)
                           || table[id].buf.None? || ReadsOutside(args, |table[id].buf.value|, meta)
                        then Exited else Running
    {
      if id !in table || !BoxInside(args.box, table[id].width, table[id].height) {
        return Exited;
      }
      if table[id].buf.None? {
        return Exited;
      }
      status := if ReadsOutside(args, |table[id].buf.value|, meta) then Exited else Running;
    }

    /** The switch of rvgpu_pr_dispatch. */
    method ExecuteCommand(c: Cmd, ghost b: seq<byte>, ghost cursor: bool, meta: Meta, stale: Stale)
      returns (status: Status)
      requires Valid()
      modifies this`table, reader, reader.buffer
      ensures Valid() && reader.buffer == old(reader.buffer)
      ensures var r := Execute(old(table), c, b, cursor, meta, old(reader.Stream()), stale);
              if r.Exit? then status == Exited
              else r.Dispatched? && status == Running && table == r.t && reader.Stream() == r.rest
    {
      hide LoadRes, LoadEach, Walk, Ids, BoxInside, ReadsOutside, Reader.Arriving;
      status := Running;
      match c {
        case Create(id, _, _, width, height) =>
          table := table[id := VRes(width, height, None)];
        case Unref(id) =>
          table := table - {id};
        case Attach(id, entries) =>
          status := AttachBacking(id, entries);
        case Detach(id) =>
          if id in table {
            table := table[id := table[id].(buf := None)];
          }
        case ToHost(id, args) =>
          status := TransferToHost(id, args);
        case FromHost(id, args) =>
          status := TransferFromHost(id, args, meta);
        case Submit(words) =>
          status := HandleSubmit3d(words, stale);
        case SetScanout(scanout, id, box) =>
          if ScanoutEnabled(scanout) {
            status := SetScanout(id, box);
          }
        case Other =>
      }
    }

    method FetchCommand() returns (b: seq<byte>, cursor: bool, meta: Meta, status: Status)
      requires Valid()
      modifies reader, reader.buffer
      ensures Valid() && reader.buffer == old(reader.buffer)
      ensures match Fetch(old(reader.Stream()))
              case NoMore => status == AtEnd
              case Bad => status == Exited
              case Fetched(b', cursor', meta', rest) =>
                status == Running && b == b' && cursor == cursor' && meta == meta' && reader.Stream() == rest
    {
      ghost var todo := reader.Stream();
      b, cursor, meta := [], false, Meta(0, 0);
      var header := reader.Read(RVGPU_HEADER_SIZE);
      if |header| < RVGPU_HEADER_SIZE {
        return b, cursor, meta, AtEnd;
      }
      ghost var after := reader.Stream();
      var size := U32At(header, 0);
      cursor, meta := (header[6] as int / 16) % 2 == 1, Meta(U32At(header, 8), U32At(header, 12));
      assert size == U32At(todo, 0) && header[6] == todo[6] && meta == Meta(U32At(todo, 8), U32At(todo, 12));
      if size > MAX_CMD_SIZE {
        return b, cursor, meta, Exited;
      }
      b := reader.Read(size);
      if |b| != size {
        return b, cursor, meta, if b == [] then AtEnd else Exited;
      }
      assert b == after[..size];
      status := if Sanity(b, cursor, false) == OkNodata then Running else Exited;
    }

    /** One turn of the loop of rvgpu_pr_dispatch. */
    method DispatchOne(stale: Stale) returns (b: seq<byte>, cursor: bool, status: Status)
      requires Valid()
      modifies this`table, reader, reader.buffer
      ensures Valid() && reader.buffer == old(reader.buffer)
      ensures match Dispatch(old(table), old(reader.Stream()), stale)
              case Exit => status == Exited
              case EndOfStream => status == AtEnd && table == old(table)
              case Dispatched(t, b', cursor', rest) =>
                status == Running && table == t && b == b' && cursor == cursor' && reader.Stream() == rest
    {
      var meta;
      b, cursor, meta, status := FetchCommand();
      if status == Running {
        status := ExecuteCommand(Parse(b, cursor), b, cursor, meta, stale);
      }
    }

    /** rvgpu_pr_dispatch, called again after each flush until the stream ends. */
    method Run(stale: nat -> Stale) returns (log: seq<(seq<byte>, bool)>, status: Status)
      requires Valid()
      modifies this`table, reader, reader.buffer
      ensures status != Running
      ensures var o := DispatchAll(old(table), old(reader.Stream()), stale, 0);
              log == o.cmds && (status == Exited <==> o.exited) && (!o.exited ==> table == o.t)
    {
      hide Dispatch, DispatchAll, Reader.Arriving;
      log, status := [], Running;
      ghost var ahead := DispatchAll(table, reader.Stream(), stale, 0);
      ghost var whole := ahead;
      while status == Running
        invariant Valid() && reader.buffer == old(reader.buffer)
        invariant whole.cmds == log + ahead.cmds && whole.t == ahead.t && whole.exited == ahead.exited
        invariant status == Running ==> ahead == DispatchAll(table, reader.Stream(), stale, |log|)
        invariant status != Running ==> ahead.cmds == [] && ahead.exited == status.Exited?
        invariant status == AtEnd ==> ahead.t == table
        decreases status == Running, |reader.Stream()|
      {
        var b, cursor;
        ghost var before, ahead0 := table, reader.Stream();
        b, cursor, status := DispatchOne(stale(|log|));
        DispatchAllStep(before, ahead0, stale, |log|);
        if status == Running {
          ghost var next := DispatchAll(table, reader.Stream(), stale, |log| + 1);
          Assoc(log, [(b, cursor)], next.cmds);
          log, ahead := log + [(b, cursor)], next;
        }
      }
    }
  }
}

/**
 The proxy's resource list and its memory accounting: create, destroy, attach and detach in
 src/rvgpu-proxy/gpu/rvgpu-gpu-device.c over the list of src/librvgpu/res/rvgpu-res.c.
 */
module ProxyResources {
  import opened Bytes
  import opened Commands

  /** A piece of guest memory. */
  datatype Iov = Iov(base: nat, len: u32)

  datatype Res = Res(id: u32, target: u32, format: u32, width: u32, height: u32, backing: Option<seq<Iov>>)

  /** reslist, curr_mem and max_mem. */
  datatype Resources = Resources(list: seq<Res>, curr: int, max: nat)

  function Total(iovs: seq<Iov>): nat {
    if iovs == [] then 0 else iovs[0].len + Total(iovs[1..])
  }

  lemma {:induction false} TotalSnoc(iovs: seq<Iov>, i: nat)
    requires i < |iovs|
    ensures Total(iovs[..i + 1]) == Total(iovs[..i]) + iovs[i].len
    decreases i
  {
    if i != 0 {
      assert iovs[..i + 1][1..] == iovs[1..][..i] && iovs[..i][1..] == iovs[1..][..i - 1];
      TotalSnoc(iovs[1..], i - 1);
    }
  }

  function Held(r: Res): nat {
    if r.backing.Some? then Total(r.backing.value) else 0
  }

  function HeldBy(list: seq<Res>): nat {
    if list == [] then 0 else Held(list[0]) + HeldBy(list[1..])
  }

  /** gpu_device_get_res */
  function Find(list: seq<Res>, id: u32): Option<Res> {
    if list == [] then None
    else if list[0].id == id then Some(list[0])
    else Find(list[1..], id)
  }

  function SetBacking(list: seq<Res>, id: u32, backing: Option<seq<Iov>>): seq<Res> {
    if list == [] then []
    else if list[0].id == id then [list[0].(backing := backing)] + list[1..]
    else [list[0]] + SetBacking(list[1..], id, backing)
  }

  function Remove(list: seq<Res>, id: u32): seq<Res> {
    if list == [] then []
    else if list[0].id == id then list[1..]
    else [list[0]] + Remove(list[1..], id)
  }

  function AddRes(s: Resources, r: Res): (Resources, Response) {
    if Find(s.list, r.id).Some? then (s, ErrResourceId) else (s.(list := [r] + s.list), OkNodata)
  }

  function DropRes(s: Resources, id: u32): (Resources, Response) {
    match Find(s.list, id)
    case None => (s, ErrResourceId)
    case Some(r) => (s.(list := Remove(s.list, id), curr := s.curr - Held(r)), OkNodata)
  }

  function AttachRes(s: Resources, id: u32, iovs: seq<Iov>): (Resources, Response) {
    match Find(s.list, id)
    case None => (s, ErrResourceId)
    case Some(r) =>
      if r.backing.Some? then (s, ErrParameter)
      else if s.max != 0 && s.curr + Total(iovs) > s.max then (s, ErrOutOfMemory)
      else (s.(list := SetBacking(s.list, id, Some(iovs)), curr := s.curr + Total(iovs)), OkNodata)
  }

  function DetachRes(s: Resources, id: u32): (Resources, Response) {
    match Find(s.list, id)
    case None => (s, ErrResourceId)
    case Some(r) =>
      if r.backing.None? then (s, ErrParameter)
      else (s.(list := SetBacking(s.list, id, None), curr := s.curr - Held(r)), OkNodata)
  }

  // ----- what the list keeps -----

  ghost predicate Unique(list: seq<Res>) {
    list != [] ==> Find(list[1..], list[0].id).None? && Unique(list[1..])
  }

  /** Ids are unique, and curr_mem is what is attached, within the limit. */
  ghost predicate Accounted(s: Resources) {
    && Unique(s.list)
    && s.curr == HeldBy(s.list)
    && (s.max != 0 ==> s.curr <= s.max)
  }

  lemma {:induction false} FindId(list: seq<Res>, id: u32)
    ensures Find(list, id).Some? ==> Find(list, id).value.id == id
    ensures Find(list, id).Some? ==> Held(Find(list, id).value) <= HeldBy(list)
  {
    if list != [] {
      FindId(list[1..], id);
    }
  }

  lemma {:induction false} SetBackingEffect(list: seq<Res>, id: u32, backing: Option<seq<Iov>>)
    requires Unique(list) && Find(list, id).Some?
    ensures var after := SetBacking(list, id, backing);
            && Unique(after)
            && HeldBy(after) == HeldBy(list) - Held(Find(list, id).value) + Held(Find(list, id).value.(backing := backing))
            && forall other: u32 :: Find(after, other) ==
                 if other == id then Some(Find(list, id).value.(backing := backing)) else Find(list, other)
  {
    if list[0].id != id {
      SetBackingEffect(list[1..], id, backing);
    }
  }

  lemma {:induction false} RemoveEffect(list: seq<Res>, id: u32)
    requires Unique(list) && Find(list, id).Some?
    ensures var after := Remove(list, id);
            && Unique(after)
            && HeldBy(after) == HeldBy(list) - Held(Find(list, id).value)
            && forall other: u32 :: Find(after, other) == if other == id then None else Find(list, other)
  {
    if list[0].id != id {
      RemoveEffect(list[1..], id);
    }
  }

  datatype Op =
    | DoCreate(r: Res)
    | DoDestroy(id: u32)
    | DoAttach(id: u32, iovs: seq<Iov>)
    | DoDetach(id: u32)

  function Apply(s: Resources, op: Op): (Resources, Response) {
    match op
    case DoCreate(r) => AddRes(s, r.(backing := None))
    case DoDestroy(id) => DropRes(s, id)
    case DoAttach(id, iovs) => AttachRes(s, id, iovs)
    case DoDetach(id) => DetachRes(s, id)
  }

  function ApplyAll(s: Resources, ops: seq<Op>): Resources
    decreases |ops|
  {
    if ops == [] then s else ApplyAll(Apply(s, ops[0]).0, ops[1..])
  }

  lemma ApplyAccounted(s: Resources, op: Op)
    requires Accounted(s)
    ensures Accounted(Apply(s, op).0) && Apply(s, op).0.max == s.max
    ensures Apply(s, op).1 != OkNodata ==> Apply(s, op).0 == s
  {
    match op {
      case DoCreate(r) =>
      case DoDestroy(id) =>
        if Find(s.list, id).Some? {
          FindId(s.list, id);
          RemoveEffect(s.list, id);
        }
      case DoAttach(id, iovs) =>
        if Find(s.list, id).Some? {
          SetBackingEffect(s.list, id, Some(iovs));
        }
      case DoDetach(id) =>
        if Find(s.list, id).Some? {
          SetBackingEffect(s.list, id, None);
        }
    }
  }

  /** Each operation succeeds exactly when it can, says why not otherwise, and changes the one resource as asked. */
  lemma ApplyEffect(s: Resources, op: Op, id: u32)
    requires Unique(s.list)
    ensures var (after, resp) := Apply(s, op);
            var was, now := Find(s.list, id), Find(after.list, id);
            match op
            case DoCreate(r) =>
              if r.id != id then now == was
              else if was.Some? then resp == ErrResourceId && now == was
              else resp == OkNodata && now == Some(r.(backing := None))
            case DoDestroy(other) =>
              if other != id then now == was
              else if was.None? then resp == ErrResourceId && now == was
              else resp == OkNodata && now == None
            case DoAttach(other, iovs) =>
              if other != id then now == was
              else if was.None? then resp == ErrResourceId && now == was
              else if was.value.backing.Some? then resp == ErrParameter && now == was
              else if s.max != 0 && s.curr + Total(iovs) > s.max then resp == ErrOutOfMemory && now == was
              else resp == OkNodata && now == Some(was.value.(backing := Some(iovs)))
            case DoDetach(other) =>
              if other != id then now == was
              else if was.None? then resp == ErrResourceId && now == was
              else if was.value.backing.None? then resp == ErrParameter && now == was
              else resp == OkNodata && now == Some(was.value.(backing := None))
  {
    match op {
      case DoCreate(r) =>
      case DoDestroy(other) =>
        if Find(s.list, other).Some? {
          RemoveEffect(s.list, other);
        }
      case DoAttach(other, iovs) =>
        if Find(s.list, other).Some? {
          SetBackingEffect(s.list, other, Some(iovs));
        }
      case DoDetach(other) =>
        if Find(s.list, other).Some? {
          SetBackingEffect(s.list, other, None);
        }
    }
  }

  /** Over every run, in whatever order and however often operations are refused. */
  lemma {:induction false} RunAccounted(s: Resources, ops: seq<Op>)
    requires Accounted(s)
    ensures Accounted(ApplyAll(s, ops)) && ApplyAll(s, ops).max == s.max
    decreases |ops|
  {
    if ops != [] {
      ApplyAccounted(s, ops[0]);
      RunAccounted(Apply(s, ops[0]).0, ops[1..]);
    }
  }

  // ----- the code -----

  /** The resource part of struct gpu_device. */
  class ResourceTable {
    var list: seq<Res>
    var currMem: int
    const maxMem: nat

    function Model(): Resources
      reads this
    {
      Resources(list, currMem, maxMem)
    }

    constructor (maxMem: nat)
      ensures Model() == Resources([], 0, maxMem) && Accounted(Model())
    {
      list, currMem, this.maxMem := [], 0, maxMem;
    }

    method FindRes(id: u32) returns (i: nat)
      ensures i <= |list| && Find(list, id) == if i < |list| then Some(list[i]) else None
      ensures forall backing :: i < |list| ==> SetBacking(list, id, backing) == list[i := list[i].(backing := backing)]
      ensures i < |list| ==> Remove(list, id) == list[..i] + list[i + 1..]
    {
      i := 0;
      while i < |list| && list[i].id != id
        invariant i <= |list|
        invariant forall k :: 0 <= k < i ==> list[k].id != id
      {
        i := i + 1;
      }
      FirstMatch(list, id, i);
    }

    method CreateRes(r: Res) returns (resp: Response)
      requires r.backing.None?
      modifies this`list
      ensures (Model(), resp) == AddRes(old(Model()), r)
    {
      var i := FindRes(r.id);
      if i < |list| {
        return ErrResourceId;
      }
      list := [r] + list;
      return OkNodata;
    }

    /** gpu_device_free_res, and the loop of gpu_device_detach. */
    method FreeRes(iovs: seq<Iov>)
      modifies this`currMem
      ensures currMem == old(currMem) - Total(iovs)
    {
      for i := 0 to |iovs|
        invariant currMem == old(currMem) - Total(iovs[..i])
      {
        TotalSnoc(iovs, i);
        currMem := currMem - iovs[i].len;
      }
      assert iovs[..|iovs|] == iovs;
    }

    method DestroyRes(id: u32) returns (resp: Response)
      modifies this`list, this`currMem
      ensures (Model(), resp) == DropRes(old(Model()), id)
    {
      var i := FindRes(id);
      if i == |list| {
        return ErrResourceId;
      }
      if list[i].backing.Some? {
        FreeRes(list[i].backing.value);
      }
      list := list[..i] + list[i + 1..];
      return OkNodata;
    }

    method AttachBacking(id: u32, iovs: seq<Iov>) returns (resp: Response)
      modifies this`list, this`currMem
      ensures (Model(), resp) == AttachRes(old(Model()), id, iovs)
    {
      var k := FindRes(id);
      if k == |list| {
        return ErrResourceId;
      }
      if list[k].backing.Some? {
        return ErrParameter;
      }
      ghost var before := list;
      ghost var bare := before[k];
      list := list[k := list[k].(backing := Some(iovs))];
      var sentsize := 0;
      for i := 0 to |iovs|
        invariant sentsize == Total(iovs[..i])
        invariant list == before[k := bare.(backing := Some(iovs))] && currMem == old(currMem)
      {
        TotalSnoc(iovs, i);
        sentsize := sentsize + iovs[i].len;
      }
      assert iovs[..|iovs|] == iovs;
      if maxMem != 0 && currMem + sentsize > maxMem {
        list := list[k := list[k].(backing := None)];
        assert list == before;
        return ErrOutOfMemory;
      }
      currMem := currMem + sentsize;
      return OkNodata;
    }

    method DetachBacking(id: u32) returns (resp: Response)
      modifies this`list, this`currMem
      ensures (Model(), resp) == DetachRes(old(Model()), id)
    {
      var k := FindRes(id);
      if k == |list| {
        return ErrResourceId;
      }
      if list[k].backing.None? {
        return ErrParameter;
      }
      FreeRes(list[k].backing.value);
      list := list[k := list[k].(backing := None)];
      return OkNodata;
    }
  }

  lemma {:induction false} FirstMatch(list: seq<Res>, id: u32, i: nat)
    requires i <= |list| && (forall k :: 0 <= k < i ==> list[k].id != id) && (i < |list| ==> list[i].id == id)
    ensures Find(list, id) == if i < |list| then Some(list[i]) else None
    ensures forall backing :: i < |list| ==> SetBacking(list, id, backing) == list[i := list[i].(backing := backing)]
    ensures i < |list| ==> Remove(list, id) == list[..i] + list[i + 1..]
    decreases i
  {
    if 0 < i {
      assert forall k :: 0 <= k < i - 1 ==> list[1..][k] == list[k + 1];
      FirstMatch(list[1..], id, i - 1);
    }
  }
}

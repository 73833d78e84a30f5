/**
 The list async_cmds: commands parked under a fence, and what process_fences makes of it
 (src/rvgpu-proxy/gpu/rvgpu-gpu-device.c).
 */
module AsyncCommands {

  /** struct cmd: a request, its fence, and what else is kept with it. */
  datatype Parked<R, X> = Parked(req: R, fence: nat, info: X)

  function Reqs<R, X>(cmds: seq<Parked<R, X>>): (r: seq<R>)
    ensures |r| == |cmds|
  {
    if cmds == [] then [] else [cmds[0].req] + Reqs(cmds[1..])
  }

  /** What is kept when a fence is served. */
  function Above<R, X>(cmds: seq<Parked<R, X>>, fence: nat): seq<Parked<R, X>> {
    if cmds == [] then []
    else if cmds[0].fence > fence then [cmds[0]] + Above(cmds[1..], fence)
    else Above(cmds[1..], fence)
  }

  /** What is answered, oldest first. */
  function Due<R, X>(cmds: seq<Parked<R, X>>, fence: nat): seq<Parked<R, X>> {
    if cmds == [] then []
    else if cmds[0].fence > fence then Due(cmds[1..], fence)
    else [cmds[0]] + Due(cmds[1..], fence)
  }

  lemma {:induction false} ReqsAppend<R, X>(a: seq<Parked<R, X>>, b: seq<Parked<R, X>>)
    ensures Reqs(a + b) == Reqs(a) + Reqs(b)
  {
    if a == [] {
      assert a + b == b;
    } else {
      assert (a + b)[1..] == a[1..] + b;
      ReqsAppend(a[1..], b);
    }
  }

  lemma ReqsOne<R, X>(c: Parked<R, X>)
    ensures Reqs([c]) == [c.req]
  {
    assert [c][1..] == [];
  }

  lemma {:induction false} ReqsAt<R, X>(cmds: seq<Parked<R, X>>, i: nat)
    requires i < |cmds|
    ensures Reqs(cmds)[i] == cmds[i].req
  {
    if i > 0 {
      ReqsAt(cmds[1..], i - 1);
    }
  }
}

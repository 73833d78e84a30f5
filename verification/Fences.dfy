/**
 Fenced requests. A fenced command is parked on async_cmds by the main thread, travels to the
 renderers, and is answered once the resource thread has seen every renderer report a fence
 at least as large (src/rvgpu-proxy/gpu/rvgpu-gpu-device.c, virgl_write_fence in
 src/rvgpu-renderer/virgl/rvgpu-virgl.c). The threads and renderers are the actors of a state
 machine; each step is one action of one of them, so a run is an interleaving.
 */
module Fences {
  import opened Bytes
  import opened AsyncCommands

  /** A parked request, its fence, and whether its command goes to every renderer. */
  type Command = Parked<nat, bool>

  predicate ToAll(c: Command) {
    c.info
  }

  /** The main thread between two requests, or sending a fenced command to renderer next. */
  datatype Main = Idle | Sending(toAll: bool, next: nat)

  /** What renderer j has been sent and what has come back, oldest first. */
  datatype Lane = Lane(
    chan: seq<nat>,     // fences of commands in the command pipe
    pending: seq<nat>,  // created in virglrenderer, not yet retired
    reports: seq<nat>,  // fence messages in the resource pipe
    recv: nat,          // recv_fence_ids[j]
    flag: bool,         // recv_fence_flags[j]
    sent: nat)          // last fence put into chan, 0 at first

  datatype State = State(
    main: Main,
    fetched: nat,         // requests taken from the virtqueue so far; they are numbered from 0
    async: seq<Command>,   // async_cmds
    used: seq<nat>,       // requests in the used ring, in order
    lanes: seq<Lane>,     // one for each renderer
    pipe: seq<nat>,       // fence_pipe
    served: nat,          // last value taken from it, 0 at first
    issued: seq<Command>)  // every fenced command so far

  // ----- process_fences and add_resp -----

  function ProcessFences(s: State, fence: nat): State {
    s.(async := Above(s.async, fence), used := s.used + Reqs(Due(s.async, fence)))
  }

  // ----- the resource thread -----

  /** recv_fence_ids */
  function Recvs(lanes: seq<Lane>): seq<nat> {
    seq(|lanes|, j requires 0 <= j < |lanes| => lanes[j].recv)
  }

  /** What the loop over recv_fence_ids looks for: a smallest entry, the given one if it is among them. */
  function Least(ids: seq<nat>, best: nat, j: nat): nat
    requires best < |ids| && j <= |ids|
    decreases |ids| - j
  {
    if j == |ids| then best
    else Least(ids, if ids[best] > ids[j] then j else best, j + 1)
  }

  lemma {:induction false} LeastIsLeast(ids: seq<nat>, best: nat, j: nat)
    requires best < |ids| && j <= |ids|
    ensures var k := Least(ids, best, j);
            && k < |ids| && ids[k] <= ids[best]
            && forall i :: j <= i < |ids| ==> ids[k] <= ids[i]
    decreases |ids| - j
  {
    if j < |ids| {
      LeastIsLeast(ids, if ids[best] > ids[j] then j else best, j + 1);
    }
  }

  function TakeReport(s: State, i: nat): State
    requires i < |s.lanes| && s.lanes[i].reports != []
  {
    var l := s.lanes[i];
    var lanes := s.lanes[i := l.(reports := l.reports[1..], recv := l.reports[0], flag := true)];
    var k := Least(Recvs(lanes), i, 0);
    LeastIsLeast(Recvs(lanes), i, 0);
    s.(lanes := lanes, pipe := s.pipe + if lanes[k].flag then [lanes[k].recv] else [])
  }

  // ----- the steps -----

  datatype Action =
    | AnswerNow                               // main: a request without fence, or refused
    | Fetch(fence: nat, toAll: bool)          // main: add_resp for a fenced request
    | SendNext                                // main: write the command to one renderer
    | Execute(j: nat)                         // renderer j: take a command, create its fence
    | Retire(j: nat, n: nat)                  // renderer j: n fences done, the last one is reported
    | Receive(j: nat)                         // resource thread: take one report
    | ServeFence                              // main: take a value from the fence pipe

  function LastFence(s: State): nat {
    if s.issued == [] then 0 else s.issued[|s.issued| - 1].fence
  }

  predicate Enabled(s: State, a: Action) {
    match a
    case AnswerNow => s.main.Idle?
    case Fetch(f, _) => s.main.Idle? && LastFence(s) < f < U32_LIMIT  // what the driver promises
    case SendNext => s.main.Sending?
    case Execute(j) => j < |s.lanes| && s.lanes[j].chan != []
    case Retire(j, n) => j < |s.lanes| && 0 < n <= |s.lanes[j].pending|
    case Receive(j) => j < |s.lanes| && s.lanes[j].reports != []
    case ServeFence => s.main.Idle? && s.pipe != []
  }

  function Step(s: State, a: Action): State
    requires Enabled(s, a)
  {
    match a
    case AnswerNow => s.(fetched := s.fetched + 1, used := s.used + [s.fetched])
    case Fetch(f, toAll) =>
      var c := Parked(s.fetched, f, toAll);
      s.(main := Sending(toAll, 0), fetched := s.fetched + 1, async := s.async + [c], issued := s.issued + [c])
    case SendNext =>
      var k := s.main.next;
      if k >= |s.lanes| || (k == 1 && !s.main.toAll) then s.(main := Idle)
      else s.(main := s.main.(next := k + 1),
              lanes := s.lanes[k := s.lanes[k].(chan := s.lanes[k].chan + [LastFence(s)], sent := LastFence(s))])
    case Execute(j) =>
      var l := s.lanes[j];
      s.(lanes := s.lanes[j := l.(chan := l.chan[1..], pending := l.pending + [l.chan[0]])])
    case Retire(j, n) =>
      var l := s.lanes[j];
      s.(lanes := s.lanes[j := l.(pending := l.pending[n..], reports := l.reports + [l.pending[n - 1]])])
    case Receive(j) => TakeReport(s, j)
    case ServeFence =>
      ProcessFences(s, s.pipe[0]).(pipe := s.pipe[1..], served := s.pipe[0])
  }

  function Init(n: nat): State {
    State(Idle, 0, [], [], seq(n, j => Lane([], [], [], 0, false, 0)), [], 0, [])
  }

  ghost predicate ValidRun(s: State, run: seq<Action>)
    decreases |run|
  {
    run == [] || (Enabled(s, run[0]) && ValidRun(Step(s, run[0]), run[1..]))
  }

  function After(s: State, run: seq<Action>): State
    requires ValidRun(s, run)
    decreases |run|
  {
    if run == [] then s else After(Step(s, run[0]), run[1..])
  }

  // ----- the invariant -----

  predicate Increasing(t: seq<nat>) {
    forall i, j :: 0 <= i < j < |t| ==> t[i] < t[j]
  }

  /** Everything renderer j still owes, oldest first, behind what it has reported last. */
  function Trail(l: Lane): seq<nat> {
    [l.recv] + l.reports + l.pending + l.chan
  }

  ghost predicate LaneOk(l: Lane) {
    && Increasing(Trail(l))
    && Trail(l)[|Trail(l)| - 1] == l.sent
    && (l.flag <==> 0 < l.recv)
  }

  /** The last fence among the issued commands that go to renderer j. */
  function LastFor(issued: seq<Command>, j: nat): nat
    decreases |issued|
  {
    if issued == [] then 0
    else
      var c := issued[|issued| - 1];
      if ToAll(c) || j == 0 then c.fence else LastFor(issued[..|issued| - 1], j)
  }

  function ButLast(issued: seq<Command>): seq<Command> {
    if issued == [] then [] else issued[..|issued| - 1]
  }

  /** Main has sent renderer j all that was issued for it, but for the command it is still sending. */
  ghost predicate SentOk(s: State, j: nat)
    requires j < |s.lanes|
  {
    s.lanes[j].sent ==
      LastFor(if s.main.Sending? && s.main.next <= j then ButLast(s.issued) else s.issued, j)
  }

  ghost predicate IssuedOk(issued: seq<Command>) {
    && (forall i :: 0 <= i < |issued| ==> 0 < issued[i].fence)
    && forall i, k :: 0 <= i < k < |issued| ==> issued[i].fence < issued[k].fence
  }

  ghost predicate MainOk(s: State) {
    s.main.Sending? ==>
      && s.issued != [] && s.main.next <= |s.lanes|
      && s.main.toAll == ToAll(s.issued[|s.issued| - 1])
      && (!s.main.toAll ==> s.main.next <= 1)
  }

  /** The values taken from the fence pipe last, and those still in it. */
  function Written(s: State): seq<nat> {
    [s.served] + s.pipe
  }

  /** They never decrease, no renderer is behind them, and the last is what the slowest renderer reported. */
  ghost predicate PipeOk(s: State) {
    && (forall i, k :: 0 <= i < k < |Written(s)| ==> Written(s)[i] <= Written(s)[k])
    && (forall i, j :: 0 <= i < |Written(s)| && 0 <= j < |s.lanes| ==> Written(s)[i] <= s.lanes[j].recv)
    && (exists j :: 0 <= j < |s.lanes| && s.lanes[j].recv == Written(s)[|s.pipe|])
  }

  ghost predicate Inv(s: State) {
    && 0 < |s.lanes|
    && (forall j :: 0 <= j < |s.lanes| ==> LaneOk(s.lanes[j]) && SentOk(s, j))
    && MainOk(s) && IssuedOk(s.issued) && PipeOk(s)
    && s.async == Above(s.issued, s.served)
  }

  lemma {:induction false} LastForBound(issued: seq<Command>, j: nat)
    requires IssuedOk(issued)
    ensures forall c :: c in issued && (ToAll(c) || j == 0) ==> c.fence <= LastFor(issued, j)
    ensures issued != [] ==> LastFor(issued, j) <= issued[|issued| - 1].fence
    ensures issued == [] ==> LastFor(issued, j) == 0
    ensures issued != [] ==> LastFor(ButLast(issued), j) < issued[|issued| - 1].fence
    decreases |issued|
  {
    if issued != [] {
      LastForBound(ButLast(issued), j);
    }
  }

  lemma {:induction false} AboveAppend(a: seq<Command>, b: seq<Command>, v: nat)
    ensures Above(a + b, v) == Above(a, v) + Above(b, v)
  {
    if a == [] {
      assert a + b == b;
    } else {
      assert (a + b)[1..] == a[1..] + b;
      AboveAppend(a[1..], b, v);
    }
  }

  lemma AboveSnoc(a: seq<Command>, c: Command, v: nat)
    requires c.fence > v
    ensures Above(a + [c], v) == Above(a, v) + [c]
  {
    AboveAppend(a, [c], v);
    assert Above([c], v) == [c];
  }

  lemma {:induction false} AboveAbove(a: seq<Command>, v: nat, w: nat)
    requires v <= w
    ensures Above(Above(a, v), w) == Above(a, w)
  {
    if a != [] {
      AboveAbove(a[1..], v, w);
      if a[0].fence > v {
        assert ([a[0]] + Above(a[1..], v))[1..] == Above(a[1..], v);
      }
    }
  }

  lemma {:induction false} AboveMembers(a: seq<Command>, v: nat)
    ensures forall c :: c in Above(a, v) <==> c in a && c.fence > v
  {
    if a != [] {
      AboveMembers(a[1..], v);
      assert forall c :: c in a <==> c == a[0] || c in a[1..];
    }
  }

  /** What renderer j has reported is at most what it was sent. */
  lemma RecvBound(l: Lane)
    requires LaneOk(l)
    ensures l.recv <= l.sent
  {
    assert Trail(l)[0] == l.recv;
  }

  lemma ServedBound(s: State)
    requires Inv(s)
    ensures s.served <= LastFence(s)
  {
    assert Written(s)[0] == s.served;
    RecvBound(s.lanes[0]);
    LastForBound(s.issued, 0);
  }

  lemma IssuedSnoc(issued: seq<Command>, c: Command)
    requires IssuedOk(issued) && 0 < c.fence && (issued != [] ==> issued[|issued| - 1].fence < c.fence)
    ensures IssuedOk(issued + [c]) && ButLast(issued + [c]) == issued
  {
  }

  lemma LastFenceBelow(s: State, f: nat)
    requires LastFence(s) < f
    ensures 0 < f && (s.issued != [] ==> s.issued[|s.issued| - 1].fence < f)
  {
  }

  lemma FetchSent(s: State, f: nat, toAll: bool)
    requires Inv(s) && Enabled(s, Fetch(f, toAll))
    ensures var after := Step(s, Fetch(f, toAll));
            forall j :: 0 <= j < |after.lanes| ==> LaneOk(after.lanes[j]) && SentOk(after, j)
  {
    hide LaneOk, PipeOk, IssuedOk, LastFor, Above;
    var after := Step(s, Fetch(f, toAll));
    assert ButLast(after.issued) == s.issued;
    forall j | 0 <= j < |after.lanes|
      ensures LaneOk(after.lanes[j]) && SentOk(after, j)
    {
      assert SentOk(s, j);
    }
  }

  lemma FetchParts(s: State, f: nat, toAll: bool)
    requires Enabled(s, Fetch(f, toAll))
    ensures var after, c := Step(s, Fetch(f, toAll)), Parked(s.fetched, f, toAll);
            && LastFence(s) < f && MainOk(after)
            && after.issued == s.issued + [c] && after.async == s.async + [c]
            && after.served == s.served && after.pipe == s.pipe && after.lanes == s.lanes
  {
  }

  lemma FetchInv(s: State, f: nat, toAll: bool)
    requires Inv(s) && Enabled(s, Fetch(f, toAll))
    ensures Inv(Step(s, Fetch(f, toAll)))
  {
    hide LaneOk, PipeOk, IssuedOk, LastFor, Above, SentOk, MainOk, Step, Enabled, LastFence, ButLast;
    var c := Parked(s.fetched, f, toAll);
    FetchParts(s, f, toAll);
    LastFenceBelow(s, f);
    IssuedSnoc(s.issued, c);
    ServedBound(s);
    AboveSnoc(s.issued, c, s.served);
    FetchSent(s, f, toAll);
    SamePipe(s, Step(s, Fetch(f, toAll)));
  }

  lemma SendLane(l: Lane, f: nat)
    requires LaneOk(l) && l.sent < f
    ensures LaneOk(l.(chan := l.chan + [f], sent := f))
  {
    assert Trail(l.(chan := l.chan + [f], sent := f)) == Trail(l) + [f];
  }

  lemma SendDone(s: State)
    requires Inv(s) && s.main.Sending? && (s.main.next >= |s.lanes| || (s.main.next == 1 && !s.main.toAll))
    ensures Inv(s.(main := Idle))
  {
    var after := s.(main := Idle);
    assert Written(after) == Written(s);
    LastForAgree(s.issued);
    forall j: nat | j < |s.lanes|
      ensures SentOk(after, j)
    {
      assert SentOk(s, j);
    }
  }

  lemma SendOne(s: State)
    requires Inv(s) && s.main.Sending? && s.main.next < |s.lanes| && (s.main.next == 1 ==> s.main.toAll)
    ensures Inv(Step(s, SendNext))
  {
    hide PipeOk, Above, LaneOk;
    var k, after := s.main.next, Step(s, SendNext);
    LastForBound(s.issued, k);
    SendLane(s.lanes[k], LastFence(s));
    forall j: nat | j < |s.lanes|
      ensures LaneOk(after.lanes[j]) && SentOk(after, j)
    {
      assert SentOk(s, j);
    }
    SamePipe(s, after);
  }

  /** Only what has been reported matters to the fence pipe. */
  lemma SamePipe(s: State, after: State)
    requires PipeOk(s) && after.served == s.served && after.pipe == s.pipe && |after.lanes| == |s.lanes|
    requires forall j :: 0 <= j < |s.lanes| ==> after.lanes[j].recv == s.lanes[j].recv
    ensures PipeOk(after)
  {
    assert Written(after) == Written(s);
    var j :| 0 <= j < |s.lanes| && s.lanes[j].recv == Written(s)[|s.pipe|];
    assert after.lanes[j].recv == Written(after)[|after.pipe|];
  }

  /** A command for renderer 0 is none of the others' business. */
  lemma LastForAgree(issued: seq<Command>)
    requires issued != []
    ensures !ToAll(issued[|issued| - 1]) ==> forall j: nat :: 0 < j ==> LastFor(issued, j) == LastFor(ButLast(issued), j)
  {
  }

  lemma ExecuteLane(l: Lane)
    requires LaneOk(l) && l.chan != []
    ensures LaneOk(l.(chan := l.chan[1..], pending := l.pending + [l.chan[0]]))
  {
    assert Trail(l.(chan := l.chan[1..], pending := l.pending + [l.chan[0]])) == Trail(l);
  }

  lemma RetireLane(l: Lane, n: nat)
    requires LaneOk(l) && 0 < n <= |l.pending|
    ensures LaneOk(l.(pending := l.pending[n..], reports := l.reports + [l.pending[n - 1]]))
  {
    hide Increasing;
    var after := l.(pending := l.pending[n..], reports := l.reports + [l.pending[n - 1]]);
    var kept := 1 + |l.reports|;
    assert Trail(after) == Trail(l)[..kept] + Trail(l)[kept + n - 1..];
    IncreasingParts(Trail(l), kept, kept + n - 1);
  }

  lemma IncreasingParts(t: seq<nat>, i: nat, j: nat)
    requires Increasing(t) && i <= j < |t|
    ensures Increasing(t[..i] + t[j..]) && (t[..i] + t[j..])[i + |t| - j - 1] == t[|t| - 1]
  {
  }

  lemma ReceiveLane(l: Lane)
    requires LaneOk(l) && l.reports != []
    ensures LaneOk(l.(reports := l.reports[1..], recv := l.reports[0], flag := true))
    ensures l.recv < l.reports[0]
  {
    assert Trail(l)[0] == l.recv && Trail(l)[1] == l.reports[0];
    assert Trail(l.(reports := l.reports[1..], recv := l.reports[0], flag := true)) == Trail(l)[1..];
  }

  lemma LaneInv(s: State, j: nat, l: Lane)
    requires Inv(s) && j < |s.lanes| && LaneOk(l) && l.sent == s.lanes[j].sent && l.recv == s.lanes[j].recv
    ensures Inv(s.(lanes := s.lanes[j := l]))
  {
    hide LaneOk, PipeOk, LastFor, Above, IssuedOk;
    var after := s.(lanes := s.lanes[j := l]);
    SamePipe(s, after);
    forall i: nat | i < |after.lanes|
      ensures LaneOk(after.lanes[i]) && SentOk(after, i)
    {
      assert SentOk(s, i);
    }
  }

  lemma ReceiveInv(s: State, i: nat)
    requires Inv(s) && Enabled(s, Receive(i))
    ensures Inv(Step(s, Receive(i)))
  {
    hide LaneOk, PipeOk, IssuedOk, LastFor, Above, Least;
    var l, after := s.lanes[i], Step(s, Receive(i));
    ReceiveLane(l);
    forall j | 0 <= j < |after.lanes|
      ensures LaneOk(after.lanes[j]) && SentOk(after, j)
    {
      assert SentOk(s, j);
    }
    ReceivePipe(s, i);
  }

  /** The resource thread writes the minimum, and only once every renderer has reported something. */
  lemma ReceivePipe(s: State, i: nat)
    requires Inv(s) && Enabled(s, Receive(i))
    ensures PipeOk(Step(s, Receive(i)))
  {
    hide PipeOk, IssuedOk, LastFor, Above, Least;
    var lanes := Step(s, Receive(i)).lanes;
    ReceiveLane(s.lanes[i]);
    LeastIsLeast(Recvs(lanes), i, 0);
    var k := Least(Recvs(lanes), i, 0);
    assert forall j :: 0 <= j < |lanes| ==> lanes[k].recv <= Recvs(lanes)[j] == lanes[j].recv;
    if lanes[k].flag {
      GrowPipe(s, lanes, k);
    } else {
      assert k != i && LaneOk(s.lanes[k]);
      KeepPipe(s, lanes, k);
      assert s.pipe + [] == s.pipe;
    }
  }

  lemma GrowPipe(s: State, lanes: seq<Lane>, k: nat)
    requires PipeOk(s) && |lanes| == |s.lanes| && k < |lanes|
    requires forall j :: 0 <= j < |lanes| ==> s.lanes[j].recv <= lanes[j].recv && lanes[k].recv <= lanes[j].recv
    ensures PipeOk(s.(lanes := lanes, pipe := s.pipe + [lanes[k].recv]))
  {
    var after := s.(lanes := lanes, pipe := s.pipe + [lanes[k].recv]);
    assert Written(after) == Written(s) + [lanes[k].recv];
    assert lanes[k].recv == Written(after)[|after.pipe|];
    assert forall i :: 0 <= i < |Written(s)| ==> Written(s)[i] <= s.lanes[k].recv <= lanes[k].recv;
  }

  lemma KeepPipe(s: State, lanes: seq<Lane>, k: nat)
    requires PipeOk(s) && |lanes| == |s.lanes| && k < |lanes| && lanes[k].recv == s.lanes[k].recv == 0
    ensures PipeOk(s.(lanes := lanes))
  {
    var after := s.(lanes := lanes);
    assert Written(after) == Written(s);
    assert forall i :: 0 <= i < |Written(s)| ==> Written(s)[i] <= s.lanes[k].recv;
    assert lanes[k].recv == Written(after)[|after.pipe|];
  }

  lemma ServeInv(s: State)
    requires Inv(s) && Enabled(s, ServeFence)
    ensures Inv(Step(s, ServeFence))
  {
    var after := Step(s, ServeFence);
    assert Written(after) == Written(s)[1..];
    assert Written(s)[0] <= Written(s)[1];
    AboveAbove(s.issued, s.served, s.pipe[0]);
    forall j | 0 <= j < |after.lanes|
      ensures LaneOk(after.lanes[j]) && SentOk(after, j)
    {
      assert SentOk(s, j);
    }
    var j :| 0 <= j < |s.lanes| && s.lanes[j].recv == Written(s)[|s.pipe|];
    assert after.lanes[j].recv == Written(after)[|after.pipe|];
  }

  lemma AnswerNowInv(s: State)
    requires Inv(s) && Enabled(s, AnswerNow)
    ensures Inv(Step(s, AnswerNow))
  {
    hide LaneOk, LastFor, Above, IssuedOk;
    SamePipe(s, Step(s, AnswerNow));
    forall j: nat | j < |s.lanes|
      ensures SentOk(Step(s, AnswerNow), j)
    {
      assert SentOk(s, j);
    }
  }

  lemma SendNextInv(s: State)
    requires Inv(s) && Enabled(s, SendNext)
    ensures Inv(Step(s, SendNext))
  {
    hide LaneOk, LastFor, Above, IssuedOk, PipeOk;
    if s.main.next >= |s.lanes| || (s.main.next == 1 && !s.main.toAll) {
      SendDone(s);
    } else {
      SendOne(s);
    }
  }

  lemma ExecuteInv(s: State, j: nat)
    requires Inv(s) && Enabled(s, Execute(j))
    ensures Inv(Step(s, Execute(j)))
  {
    hide LaneOk, LastFor, Above, IssuedOk, PipeOk;
    ExecuteLane(s.lanes[j]);
    LaneInv(s, j, Step(s, Execute(j)).lanes[j]);
  }

  lemma RetireInv(s: State, j: nat, n: nat)
    requires Inv(s) && Enabled(s, Retire(j, n))
    ensures Inv(Step(s, Retire(j, n)))
  {
    hide LaneOk, LastFor, Above, IssuedOk, PipeOk;
    RetireLane(s.lanes[j], n);
    LaneInv(s, j, Step(s, Retire(j, n)).lanes[j]);
  }

  /** Each step keeps the invariant. */
  lemma StepInv(s: State, a: Action)
    requires Inv(s) && Enabled(s, a)
    ensures Inv(Step(s, a))
  {
    hide *;
    match a {
      case AnswerNow => AnswerNowInv(s);
      case Fetch(f, toAll) => FetchInv(s, f, toAll);
      case SendNext => SendNextInv(s);
      case Execute(j) => ExecuteInv(s, j);
      case Retire(j, n) => RetireInv(s, j, n);
      case Receive(j) => ReceiveInv(s, j);
      case ServeFence => ServeInv(s);
    }
  }

  lemma InitInv(n: nat)
    requires 0 < n
    ensures Inv(Init(n))
  {
    var s := Init(n);
    assert Written(s) == [0];
    assert s.lanes[0].recv == Written(s)[|s.pipe|];
    forall j | 0 <= j < n
      ensures LaneOk(s.lanes[j]) && SentOk(s, j)
    {
      assert Trail(s.lanes[j]) == [0];
    }
  }

  /** The invariant holds after every interleaving. */
  lemma {:induction false} RunInv(s: State, run: seq<Action>)
    requires Inv(s) && ValidRun(s, run)
    ensures Inv(After(s, run))
    decreases |run|
  {
    if run != [] {
      StepInv(s, run[0]);
      RunInv(Step(s, run[0]), run[1..]);
    }
  }

  // ----- safety: the barrier -----

  /** Renderer j has retired f, reported it, and the report has been taken. */
  ghost predicate DoneWith(l: Lane, f: nat) {
    f <= l.recv && f !in l.reports && f !in l.pending && f !in l.chan
  }

  lemma DoneWithReported(l: Lane, f: nat)
    requires LaneOk(l) && f <= l.recv
    ensures DoneWith(l, f)
  {
    var t := Trail(l);
    assert t[0] == l.recv;
    forall i | 0 <= i < |l.reports| ensures l.reports[i] > f {
      assert t[1 + i] == l.reports[i];
    }
    forall i | 0 <= i < |l.pending| ensures l.pending[i] > f {
      assert t[1 + |l.reports| + i] == l.pending[i];
    }
    forall i | 0 <= i < |l.chan| ensures l.chan[i] > f {
      assert t[1 + |l.reports| + |l.pending| + i] == l.chan[i];
    }
  }

  /** A command leaves async_cmds only when every renderer it was sent to is done with it, and each of the
      others has reported a larger fence. */
  lemma FenceBarrier(s: State, c: Command)
    requires Inv(s) && Enabled(s, ServeFence)
    requires c in s.async && c !in Step(s, ServeFence).async
    ensures forall j :: 0 <= j < |s.lanes| ==> DoneWith(s.lanes[j], c.fence)
    ensures forall j :: 0 <= j < |s.lanes| && (ToAll(c) || j == 0) ==> c.fence <= s.lanes[j].sent
  {
    AboveMembers(s.async, s.pipe[0]);
    AboveMembers(s.issued, s.served);
    assert c.fence <= s.pipe[0] == Written(s)[1];
    forall j: nat | j < |s.lanes|
      ensures DoneWith(s.lanes[j], c.fence)
      ensures ToAll(c) || j == 0 ==> c.fence <= s.lanes[j].sent
    {
      DoneWithReported(s.lanes[j], c.fence);
      LastForBound(s.issued, j);
      assert SentOk(s, j);
    }
  }

  /** No other step answers a parked command. */
  lemma OnlyServeAnswers(s: State, a: Action, c: Command)
    requires Enabled(s, a) && !a.ServeFence? && c in s.async
    ensures c in Step(s, a).async
  {
  }

  /** In every interleaving, from the start. */
  lemma RunBarrier(n: nat, run: seq<Action>, a: Action, c: Command)
    requires 0 < n && ValidRun(Init(n), run) && Enabled(After(Init(n), run), a)
    requires c in After(Init(n), run).async && c !in Step(After(Init(n), run), a).async
    ensures var s := After(Init(n), run);
            && (forall j :: 0 <= j < |s.lanes| ==> DoneWith(s.lanes[j], c.fence))
            && (forall j :: 0 <= j < |s.lanes| && (ToAll(c) || j == 0) ==> c.fence <= s.lanes[j].sent)
  {
    InitInv(n);
    RunInv(Init(n), run);
    if !a.ServeFence? {
      OnlyServeAnswers(After(Init(n), run), a, c);
    }
    FenceBarrier(After(Init(n), run), c);
  }

  // ----- exactly one answer -----

  /** How often r occurs. */
  function Count(a: seq<nat>, r: nat): nat {
    if a == [] then 0 else (if a[0] == r then 1 else 0) + Count(a[1..], r)
  }

  lemma {:induction false} CountAppend(a: seq<nat>, b: seq<nat>, r: nat)
    ensures Count(a + b, r) == Count(a, r) + Count(b, r)
  {
    if a == [] {
      assert a + b == b;
    } else {
      assert (a + b)[1..] == a[1..] + b;
      CountAppend(a[1..], b, r);
    }
  }

  function From(first: nat, n: nat): seq<nat>
    decreases n
  {
    if n == 0 then [] else [first] + From(first + 1, n - 1)
  }

  lemma {:induction false} CountFrom(first: nat, n: nat, r: nat)
    ensures Count(From(first, n), r) == if first <= r < first + n then 1 else 0
    decreases n
  {
    if n > 0 {
      CountFrom(first + 1, n - 1, r);
    }
  }

  /** gpu_device_drain_once, with avail requests waiting in the virtqueue. */
  function Drain(s: State, avail: nat): State {
    s.(async := [], fetched := s.fetched + avail,
       used := s.used + Reqs(s.async) + From(s.fetched, avail))
  }

  datatype Event = Do(a: Action) | DrainOnce(avail: nat)

  predicate CanHappen(s: State, e: Event) {
    e.Do? ==> Enabled(s, e.a)
  }

  function Happen(s: State, e: Event): State
    requires CanHappen(s, e)
  {
    match e
    case Do(a) => Step(s, a)
    case DrainOnce(avail) => Drain(s, avail)
  }

  ghost predicate ValidHistory(s: State, events: seq<Event>)
    decreases |events|
  {
    events == [] || (CanHappen(s, events[0]) && ValidHistory(Happen(s, events[0]), events[1..]))
  }

  function AfterAll(s: State, events: seq<Event>): State
    requires ValidHistory(s, events)
    decreases |events|
  {
    if events == [] then s else AfterAll(Happen(s, events[0]), events[1..])
  }

  /** Request r is parked once or answered once, never both, and neither before it was fetched. */
  predicate OneAnswer(s: State, r: nat) {
    Count(s.used, r) + Count(Reqs(s.async), r) == if r < s.fetched then 1 else 0
  }

  lemma {:induction false} SplitDue(a: seq<Command>, f: nat, r: nat)
    ensures Count(Reqs(Due(a, f)), r) + Count(Reqs(Above(a, f)), r) == Count(Reqs(a), r)
  {
    if a != [] {
      SplitDue(a[1..], f, r);
      if a[0].fence > f {
        assert Above(a, f)[1..] == Above(a[1..], f);
      }
    }
  }

  lemma HappenOneAnswer(s: State, e: Event, r: nat)
    requires OneAnswer(s, r) && CanHappen(s, e)
    ensures OneAnswer(Happen(s, e), r)
  {
    hide Above, Due;
    match e {
      case DrainOnce(avail) =>
        CountAppend(s.used, Reqs(s.async), r);
        CountAppend(s.used + Reqs(s.async), From(s.fetched, avail), r);
        CountFrom(s.fetched, avail, r);
      case Do(a) =>
        if a.Fetch? {
          ReqsAppend(s.async, [Parked(s.fetched, a.fence, a.toAll)]);
          assert [Parked(s.fetched, a.fence, a.toAll)][1..] == [];
          assert Reqs([Parked(s.fetched, a.fence, a.toAll)]) == [s.fetched];
          CountAppend(Reqs(s.async), [s.fetched], r);
        } else if a.AnswerNow? {
          CountAppend(s.used, [s.fetched], r);
        } else if a.ServeFence? {
          SplitDue(s.async, s.pipe[0], r);
          CountAppend(s.used, Reqs(Due(s.async, s.pipe[0])), r);
        }
    }
  }

  /** Over every interleaving of the steps with drains, also drains at which commands are still under way. */
  lemma {:induction false} AnsweredOnce(s: State, events: seq<Event>, r: nat)
    requires OneAnswer(s, r) && ValidHistory(s, events)
    ensures OneAnswer(AfterAll(s, events), r)
    decreases |events|
  {
    if events != [] {
      HappenOneAnswer(s, events[0], r);
      AnsweredOnce(Happen(s, events[0]), events[1..], r);
    }
  }

  lemma EveryRequestAnsweredOnce(n: nat, events: seq<Event>)
    requires ValidHistory(Init(n), events)
    ensures forall r: nat :: OneAnswer(AfterAll(Init(n), events), r)
  {
    forall r: nat
      ensures OneAnswer(AfterAll(Init(n), events), r)
    {
      AnsweredOnce(Init(n), events, r);
    }
  }

  // ----- no stuck fence -----

  /** Nothing is under way: every pipe is empty and every created fence has been reported. */
  ghost predicate Quiescent(s: State) {
    && s.main.Idle? && s.pipe == []
    && forall j :: 0 <= j < |s.lanes| ==> s.lanes[j].chan == [] && s.lanes[j].pending == [] && s.lanes[j].reports == []
  }

  /** The steps that need no new request from the driver. */
  predicate Internal(a: Action) {
    !a.AnswerNow? && !a.Fetch?
  }

  /** The system never blocks: it is at rest exactly when no step is left to take. */
  lemma AtRest(s: State)
    ensures Quiescent(s) <==> forall a :: Internal(a) ==> !Enabled(s, a)
  {
    if forall a :: Internal(a) ==> !Enabled(s, a) {
      assert !Enabled(s, SendNext) && !Enabled(s, ServeFence);
      forall j: nat | j < |s.lanes|
        ensures s.lanes[j].chan == [] && s.lanes[j].pending == [] && s.lanes[j].reports == []
      {
        assert !Enabled(s, Execute(j)) && !Enabled(s, Retire(j, 1)) && !Enabled(s, Receive(j));
      }
    }
  }

  lemma {:induction false} LastForOthers(issued: seq<Command>, j: nat, f: nat)
    requires IssuedOk(issued) && 0 < j && 0 < f
    ensures LastFor(issued, j) < f <==> forall d :: d in issued && ToAll(d) ==> d.fence < f
    decreases |issued|
  {
    if issued != [] {
      LastForOthers(ButLast(issued), j, f);
      var c := issued[|issued| - 1];
      assert forall d :: d in issued <==> d == c || d in ButLast(issued);
      assert forall d :: d in issued ==> d.fence <= c.fence;
    }
  }

  lemma {:induction false} LastForFirst(issued: seq<Command>, j: nat)
    requires IssuedOk(issued)
    ensures LastFor(issued, j) <= LastFor(issued, 0)
    decreases |issued|
  {
    LastForBound(issued, j);
  }

  /** At rest, the last value served is what the slowest renderer was sent last. */
  lemma RestingServed(s: State)
    requires Inv(s) && Quiescent(s)
    ensures s.served == LastFor(s.issued, if |s.lanes| == 1 then 0 else 1)
  {
    assert Written(s) == [s.served];
    var k: nat :| k < |s.lanes| && s.lanes[k].recv == Written(s)[|s.pipe|];
    var one: nat := if |s.lanes| == 1 then 0 else 1;
    forall j: nat | j < |s.lanes|
      ensures s.lanes[j].recv == LastFor(s.issued, j) && s.served <= LastFor(s.issued, j)
    {
      assert LaneOk(s.lanes[j]) && SentOk(s, j);
      assert Trail(s.lanes[j]) == [s.lanes[j].recv];
      assert Written(s)[0] <= s.lanes[j].recv;
    }
    LastForFirst(s.issued, one);
    if k != 0 {
      LastForSame(s.issued, k, one);
    }
  }

  lemma {:induction false} LastForSame(issued: seq<Command>, j: nat, k: nat)
    requires 0 < j && 0 < k
    ensures LastFor(issued, j) == LastFor(issued, k)
    decreases |issued|
  {
    if issued != [] {
      LastForSame(ButLast(issued), j, k);
    }
  }

  /** A fence is stuck at rest exactly when the other renderers never see a command as late as it: a command
      for every renderer never is, one for renderer 0 only is unless one for every renderer comes after it. */
  lemma StuckAtRest(s: State, c: Command)
    requires Inv(s) && Quiescent(s)
    ensures c in s.async <==>
      c in s.issued && |s.lanes| > 1 && forall d :: d in s.issued && ToAll(d) ==> d.fence < c.fence
    ensures c in s.async ==> !ToAll(c)
  {
    RestingServed(s);
    AboveMembers(s.issued, s.served);
    if c in s.issued {
      LastForBound(s.issued, 0);
      if |s.lanes| > 1 {
        LastForOthers(s.issued, 1, c.fence);
      }
    }
  }

  /** One more step at the head of a run. */
  lemma RunCons(s: State, a: Action, t: State, rest: seq<Action>, end: State)
    requires Enabled(s, a) && Step(s, a) == t && ValidRun(t, rest) && After(t, rest) == end
    ensures ValidRun(s, [a] + rest) && After(s, [a] + rest) == end
  {
    assert ([a] + rest)[1..] == rest;
  }

  /** Two renderers, the second of which is sent nothing. */
  function Pair(main: Main, first: Lane): State {
    State(main, 1, [Parked(0, 1, false)], [], [first, Lane([], [], [], 0, false, 0)], [], 0, [Parked(0, 1, false)])
  }

  lemma StuckSteps()
    ensures var idle, fetch := Lane([], [], [], 0, false, 0), Fetch(1, false);
            && Enabled(Init(2), fetch) && Step(Init(2), fetch) == Pair(Sending(false, 0), idle)
            && Step(Pair(Sending(false, 0), idle), SendNext) == Pair(Sending(false, 1), Lane([1], [], [], 0, false, 1))
    ensures forall l: Lane :: Step(Pair(Sending(false, 1), l), SendNext) == Pair(Idle, l)
    ensures Step(Pair(Idle, Lane([1], [], [], 0, false, 1)), Execute(0)) == Pair(Idle, Lane([], [1], [], 0, false, 1))
  {
    assert Init(2).lanes == [Lane([], [], [], 0, false, 0), Lane([], [], [], 0, false, 0)];
    assert [] + [Parked(0, 1, false)] == [Parked(0, 1, false)];
    var idle, sent, done := Lane([], [], [], 0, false, 0), Lane([1], [], [], 0, false, 1), Lane([], [1], [], 0, false, 1);
    assert [] + [1 as nat] == [1] && [1 as nat][1..] == [];
    assert [idle, idle][0 := sent] == [sent, idle];
    assert [sent, idle][0 := done] == [done, idle];
  }

  lemma StuckReport()
    ensures Step(Pair(Idle, Lane([], [1], [], 0, false, 1)), Retire(0, 1)) == Pair(Idle, Lane([], [], [1], 0, false, 1))
    ensures Step(Pair(Idle, Lane([], [], [1], 0, false, 1)), Receive(0)) == Pair(Idle, Lane([], [], [], 1, true, 1))
  {
    var idle, done := Lane([], [], [], 0, false, 0), Lane([], [1], [], 0, false, 1);
    var told, heard := Lane([], [], [1], 0, false, 1), Lane([], [], [], 1, true, 1);
    assert [] + [1 as nat] == [1] && [1 as nat][1..] == [];
    assert [done, idle][0 := told] == [told, idle];
    assert [told, idle][0 := heard] == [heard, idle];
    assert Step(Pair(Idle, told), Receive(0)).lanes == [heard, idle];
    LeastSecond(Recvs([Lane([], [], [], 1, true, 1), Lane([], [], [], 0, false, 0)]));
  }

  /** With two renderers, one fenced command for renderer 0 and nothing after it: once all has been reported, the
      command is still parked. */
  lemma StuckRun() returns (run: seq<Action>)
    ensures run == [Fetch(1, false)] + ([SendNext] + ([SendNext] + ([Execute(0)] + ([Retire(0, 1)] + ([Receive(0)] + [])))))
    ensures ValidRun(Init(2), run) && Quiescent(After(Init(2), run))
    ensures After(Init(2), run).async == [Parked(0, 1, false)]
  {
    StuckSteps();
    StuckReport();
    hide Step;
    var end := Pair(Idle, Lane([], [], [], 1, true, 1));
    var idle, sent := Lane([], [], [], 0, false, 0), Lane([1], [], [], 0, false, 1);
    run := [];
    RunCons(Pair(Idle, Lane([], [], [1], 0, false, 1)), Receive(0), end, run, end);
    run := [Receive(0)] + run;
    RunCons(Pair(Idle, Lane([], [1], [], 0, false, 1)), Retire(0, 1), Pair(Idle, Lane([], [], [1], 0, false, 1)), run, end);
    run := [Retire(0, 1)] + run;
    RunCons(Pair(Idle, sent), Execute(0), Pair(Idle, Lane([], [1], [], 0, false, 1)), run, end);
    run := [Execute(0)] + run;
    RunCons(Pair(Sending(false, 1), sent), SendNext, Pair(Idle, sent), run, end);
    run := [SendNext] + run;
    RunCons(Pair(Sending(false, 0), idle), SendNext, Pair(Sending(false, 1), sent), run, end);
    run := [SendNext] + run;
    RunCons(Init(2), Fetch(1, false), Pair(Sending(false, 0), idle), run, end);
    run := [Fetch(1, false)] + run;
  }

  lemma LeastSecond(ids: seq<nat>)
    requires |ids| == 2 && ids[0] > ids[1]
    ensures Least(ids, 0, 0) == 1
  {
    assert Least(ids, 0, 0) == Least(ids, 0, 1) == Least(ids, 1, 2);
  }

  /** For the whole system: when the last fenced command of a run went to every renderer, all are answered. */
  lemma NoStuckFence(n: nat, run: seq<Action>)
    requires 0 < n && ValidRun(Init(n), run) && Quiescent(After(Init(n), run))
    ensures var s := After(Init(n), run);
            s.issued != [] && (n == 1 || ToAll(s.issued[|s.issued| - 1])) ==> s.async == []
  {
    InitInv(n);
    RunInv(Init(n), run);
    RunLanes(Init(n), run);
    var s := After(Init(n), run);
    if s.async != [] {
      StuckAtRest(s, s.async[0]);
      var last := s.issued[|s.issued| - 1];
      assert last in s.issued;
    }
  }

  lemma {:induction false} RunLanes(s: State, run: seq<Action>)
    requires ValidRun(s, run)
    ensures |After(s, run).lanes| == |s.lanes|
    decreases |run|
  {
    if run != [] {
      RunLanes(Step(s, run[0]), run[1..]);
    }
  }

  // ----- progress -----

  function LaneWork(l: Lane): nat {
    4 * |l.chan| + 3 * |l.pending| + 2 * |l.reports|
  }

  function LanesWork(lanes: seq<Lane>): nat {
    if lanes == [] then 0 else LaneWork(lanes[0]) + LanesWork(lanes[1..])
  }

  /** How many steps what is under way can still cause. */
  function Work(s: State): nat {
    (if s.main.Sending? && s.main.next <= |s.lanes| then 5 * (|s.lanes| - s.main.next) + 1 else 0)
    + LanesWork(s.lanes) + |s.pipe|
  }

  lemma {:induction false} LanesWorkUpdate(lanes: seq<Lane>, j: nat, l: Lane)
    requires j < |lanes|
    ensures LanesWork(lanes[j := l]) + LaneWork(lanes[j]) == LanesWork(lanes) + LaneWork(l)
  {
    if j == 0 {
      assert lanes[j := l][1..] == lanes[1..];
    } else {
      assert lanes[j := l][1..] == lanes[1..][j - 1 := l];
      LanesWorkUpdate(lanes[1..], j - 1, l);
    }
  }

  lemma StepWork(s: State, a: Action)
    requires Inv(s) && Internal(a) && Enabled(s, a)
    ensures Work(Step(s, a)) < Work(s)
  {
    var after := Step(s, a);
    match a {
      case SendNext =>
        if after.main.Sending? {
          LanesWorkUpdate(s.lanes, s.main.next, after.lanes[s.main.next]);
        }
      case Execute(j) => LanesWorkUpdate(s.lanes, j, after.lanes[j]);
      case Retire(j, n) => LanesWorkUpdate(s.lanes, j, after.lanes[j]);
      case Receive(j) => LanesWorkUpdate(s.lanes, j, after.lanes[j]);
      case ServeFence =>
    }
  }

  /** However the steps are scheduled, only so many can follow without a new request from the driver. */
  lemma {:induction false} WorkBoundsRun(s: State, run: seq<Action>)
    requires Inv(s) && ValidRun(s, run)
    requires forall i :: 0 <= i < |run| ==> Internal(run[i])
    ensures |run| + Work(After(s, run)) <= Work(s)
    decreases |run|
  {
    hide Inv, Enabled, Step, Work;
    if run != [] {
      StepInv(s, run[0]);
      StepWork(s, run[0]);
      WorkBoundsRun(Step(s, run[0]), run[1..]);
    }
  }

  /** And from every state some of them lead to rest, where StuckAtRest says what is answered. */
  lemma {:induction false} ComesToRest(s: State) returns (run: seq<Action>)
    requires Inv(s)
    ensures ValidRun(s, run) && Quiescent(After(s, run))
    ensures forall i :: 0 <= i < |run| ==> Internal(run[i])
    decreases Work(s)
  {
    hide Inv, Enabled, Step, Work, Quiescent;
    run := [];
    if !Quiescent(s) {
      AtRest(s);
      var a :| Internal(a) && Enabled(s, a);
      StepInv(s, a);
      StepWork(s, a);
      var rest := ComesToRest(Step(s, a));
      run := [a] + rest;
      assert run[1..] == rest;
    }
  }

  // ----- the proxy's side of it -----

  /** gpu_device_serve_fences takes all there is in the pipe. */
  function ServeEach(s: State): State
    requires s.main.Idle?
    decreases |s.pipe|
  {
    if s.pipe == [] then s else ServeEach(Step(s, ServeFence))
  }

  /**
   What the main thread and the resource thread keep, updated in place. The ghost field is the whole system's
   state; Valid ties it to the fields, and every method takes it through one step, or several.
   */
  class FenceQueue {
    var asyncCmds: seq<Command>
    var usedRing: seq<nat>
    var fetched: nat
    var fencePipe: seq<nat>
    const recvFenceIds: array<nat>
    const recvFenceFlags: array<bool>
    ghost var model: State

    ghost predicate Valid()
      reads this, recvFenceIds, recvFenceFlags
    {
      && asyncCmds == model.async && usedRing == model.used && fetched == model.fetched && fencePipe == model.pipe
      && recvFenceIds.Length == recvFenceFlags.Length == |model.lanes|
      && (forall j :: 0 <= j < recvFenceIds.Length ==>
            recvFenceIds[j] == model.lanes[j].recv && recvFenceFlags[j] == model.lanes[j].flag)
    }

    constructor (scanouts: nat)
      ensures Valid() && model == Init(scanouts)
      ensures fresh(recvFenceIds) && fresh(recvFenceFlags)
    {
      asyncCmds, usedRing, fetched, fencePipe := [], [], 0, [];
      recvFenceIds := new nat[scanouts](_ => 0);
      recvFenceFlags := new bool[scanouts](_ => false);
      model := Init(scanouts);
    }

    /** serve_ctrl on a request that is answered at once. */
    method AnswerNow()
      requires Valid() && model.main.Idle?
      modifies this
      ensures Valid() && model == Step(old(model), Action.AnswerNow)
    {
      model := Step(model, Action.AnswerNow);
      usedRing := usedRing + [fetched];
      fetched := fetched + 1;
    }

    method AddResp(fence: nat, toAll: bool)
      requires Valid() && Enabled(model, Fetch(fence, toAll))
      modifies this
      ensures Valid() && model == Step(old(model), Fetch(fence, toAll))
    {
      model := Step(model, Fetch(fence, toAll));
      asyncCmds := asyncCmds + [Parked(fetched, fence, toAll)];
      fetched := fetched + 1;
    }

    method ProcessFences(fence: nat) returns (processed: nat)
      modifies this`asyncCmds, this`usedRing
      ensures asyncCmds == Above(old(asyncCmds), fence)
      ensures usedRing == old(usedRing) + Reqs(Due(old(asyncCmds), fence))
      ensures processed == |Due(old(asyncCmds), fence)|
    {
      ghost var cmds := asyncCmds;
      var todo, kept := asyncCmds, [];
      processed := 0;
      while todo != []
        invariant Above(cmds, fence) == kept + Above(todo, fence)
        invariant old(usedRing) + Reqs(Due(cmds, fence)) == usedRing + Reqs(Due(todo, fence))
        invariant processed + |Due(todo, fence)| == |Due(cmds, fence)|
        decreases |todo|
      {
        if todo[0].fence > fence {
          kept := kept + [todo[0]];
        } else {
          usedRing := usedRing + [todo[0].req];
          processed := processed + 1;
        }
        todo := todo[1..];
      }
      asyncCmds := kept;
    }

    method ServeFences() returns (processed: nat)
      requires Valid() && model.main.Idle?
      modifies this`asyncCmds, this`usedRing, this`fencePipe, this`model
      ensures Valid() && fencePipe == [] && model.main.Idle?
      ensures ServeEach(old(model)) == model
    {
      processed := 0;
      while fencePipe != []
        invariant Valid() && model.main.Idle? && ServeEach(model) == ServeEach(old(model))
        decreases |fencePipe|
      {
        var fence := fencePipe[0];
        model := Step(model, ServeFence);
        fencePipe := fencePipe[1..];
        var n := ProcessFences(fence);
        processed := processed + n;
      }
    }

    /** The resource thread on a fence message from renderer i. */
    method Report(i: nat, fence: nat)
      requires Valid() && Enabled(model, Receive(i)) && model.lanes[i].reports[0] == fence
      modifies this`fencePipe, this`model, recvFenceIds, recvFenceFlags
      ensures Valid() && model == Step(old(model), Receive(i))
    {
      model := Step(model, Receive(i));
      recvFenceFlags[i], recvFenceIds[i] := true, fence;
      ghost var ids := Recvs(model.lanes);
      assert recvFenceIds[..] == ids;
      var least, slowest := fence, i;
      for j := 0 to recvFenceIds.Length
        invariant slowest < recvFenceIds.Length && least == recvFenceIds[slowest]
        invariant Least(ids, i, 0) == Least(ids, slowest, j)
      {
        if least > recvFenceIds[j] {
          least, slowest := recvFenceIds[j], j;
        }
      }
      if recvFenceFlags[slowest] {
        fencePipe := fencePipe + [least];
      }
    }

    method DrainOnce(avail: nat) returns (flushed: nat)
      requires Valid()
      modifies this`asyncCmds, this`usedRing, this`fetched, this`model
      ensures Valid() && model == Drain(old(model), avail)
      ensures flushed == |old(asyncCmds)| + avail
    {
      model := Drain(model, avail);
      flushed := 0;
      while asyncCmds != []
        invariant usedRing + Reqs(asyncCmds) == old(usedRing) + Reqs(old(asyncCmds))
        invariant flushed + |asyncCmds| == |old(asyncCmds)|
        invariant fetched == old(fetched) && model == Drain(old(model), avail)
        decreases |asyncCmds|
      {
        usedRing := usedRing + [asyncCmds[0].req];
        asyncCmds := asyncCmds[1..];
        flushed := flushed + 1;
      }
      assert usedRing + [] == usedRing;
      var left := avail;
      while left > 0
        invariant usedRing + From(fetched, left) == old(usedRing) + Reqs(old(asyncCmds)) + From(old(fetched), avail)
        invariant fetched + left == old(fetched) + avail
        invariant flushed + left == |old(asyncCmds)| + avail
        invariant asyncCmds == [] && model == Drain(old(model), avail)
      {
        usedRing := usedRing + [fetched];
        fetched := fetched + 1;
        left := left - 1;
        flushed := flushed + 1;
      }
    }
  }
}

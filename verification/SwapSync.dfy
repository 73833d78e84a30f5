/**
 The swap-sync protocol of one scanout. rvgpu_egl_draw waits for its next buffer and sends a
 DRAW; the compositor forwards, coalesces, presents and acknowledges it; swap_completed_loop
 frees the buffer (src/rvgpu-renderer/renderer/rvgpu-egl.c,
 src/rvgpu-renderer/compositor/rvgpu-compositor.c). Frames are numbered in the order drawn;
 frame f uses buffer f modulo the number of buffers, and the DRAW for it is its token.
 */
module SwapSync {
  import opened Bytes

  /** Where compositor_render is in its main loop; events is event_num. */
  datatype Phase = Collect(events: nat) | Skip | Swap | Ack

  datatype State = State(
    status: seq<bool>,      // composit_status
    drawn: nat,             // frames drawn; shared_buffer_fd_index is drawn modulo the buffers
    hand: seq<nat>,         // a buffer marked, its DRAW not sent yet
    control: seq<nat>,      // server_rvgpu_control_fd to request_event_loop
    pipe: seq<nat>,         // request_event_loop to compositor_render
    updated: seq<nat>,      // updated_indexes
    sync: seq<seq<nat>>,    // client_rvgpu_sync_fd, one list for each message
    acks: seq<nat>,         // every acknowledgement so far, in order
    current: Option<nat>,   // composit_tex_id: the frame the next swap shows
    presented: seq<nat>,    // what each swap showed
    phase: Phase,
    frameCount: nat,        // egl->frame_count
    lastFrameCount: nat)    // last_frame_count

  /** f modulo buffers */
  function Buffer(buffers: nat, f: nat): (r: nat)
    requires buffers > 0
    ensures r < buffers
  {
    if f < buffers then f else Buffer(buffers, f - buffers)
  }

  predicate Uses(buffers: nat, f: nat, i: nat)
    requires buffers > 0
  {
    Buffer(buffers, f) == i
  }

  datatype Action =
    | Mark          // renderer: the wait is over; mark the buffer
    | SendDraw      // renderer: send the DRAW and go on to the next buffer
    | Forward       // request_event_loop: a DRAW
    | TakeDraw      // compositor_render: a DRAW
    | TakeOther     // compositor_render: any other event
    | EndCollect    // compositor_render: poll shows nothing more
    | Coalesce      // compositor_render: acknowledge what a later DRAW has overtaken
    | Present       // compositor_render: rvgpu_pf_swap
    | Acknowledge   // compositor_render: acknowledge what was shown
    | Complete      // swap_completed_loop: one message

  predicate Enabled(s: State, a: Action)
    requires s.status != []
  {
    match a
    case Mark => s.hand == [] && !s.status[Buffer(|s.status|, s.drawn)]
    case SendDraw => s.hand != []
    case Forward => s.control != []
    case TakeDraw => s.phase.Collect? && s.pipe != []
    case TakeOther => s.phase.Collect?
    case EndCollect => s.phase.Collect? && s.pipe == [] && s.phase.events > 0
    case Coalesce => s.phase.Skip?
    case Present => s.phase.Swap?
    case Acknowledge => s.phase.Ack?
    case Complete => s.sync != []
  }

  /** With a single buffer a DRAW that comes twice in one frame of the compositor is not forwarded. */
  predicate Dropped(s: State) {
    |s.status| == 1 && s.lastFrameCount != 0 && s.lastFrameCount == s.frameCount
  }

  /** The loop over updated_indexes in swap_completed_loop. */
  function Clear(status: seq<bool>, frames: seq<nat>): (r: seq<bool>)
    requires status != []
    ensures |r| == |status|
    decreases |frames|
  {
    if frames == [] then status else Clear(status[Buffer(|status|, frames[0]) := false], frames[1..])
  }

  function Step(s: State, a: Action): (r: State)
    requires s.status != [] && Enabled(s, a)
    ensures |r.status| == |s.status|
  {
    match a
    case Mark => s.(status := s.status[Buffer(|s.status|, s.drawn) := true], hand := [s.drawn], drawn := s.drawn + 1)
    case SendDraw => s.(control := s.control + s.hand, hand := [])
    case Forward =>
      if Dropped(s) then s.(control := s.control[1..])
      else s.(control := s.control[1..], pipe := s.pipe + [s.control[0]],
              lastFrameCount := if |s.status| == 1 then s.frameCount else s.lastFrameCount)
    case TakeDraw =>
      s.(pipe := s.pipe[1..], updated := s.updated + [s.pipe[0]], current := Some(s.pipe[0]),
         phase := Collect(s.phase.events + 1))
    case TakeOther => s.(phase := Collect(s.phase.events + 1))
    case EndCollect => s.(phase := Skip)
    case Coalesce =>
      var n := |s.updated|;
      if n > 1 then s.(sync := s.sync + [s.updated[..n - 1]], updated := s.updated[n - 1..], phase := Swap)
      else s.(phase := Swap)
    case Present =>
      s.(frameCount := s.frameCount + 1, phase := Ack,
         presented := s.presented + if s.current.Some? then [s.current.value] else [])
    case Acknowledge =>
      if s.updated != [] then s.(sync := s.sync + [s.updated], updated := [], phase := Collect(0))
      else s.(phase := Collect(0))
    case Complete =>
      s.(sync := s.sync[1..], acks := s.acks + s.sync[0], status := Clear(s.status, s.sync[0]))
  }

  function Init(buffers: nat): State
    requires buffers > 0
  {
    State(seq(buffers, i => false), 0, [], [], [], [], [], [], None, [], Collect(0), 0, 0)
  }

  ghost predicate ValidRun(s: State, run: seq<Action>)
    requires s.status != []
    decreases |run|
  {
    run == [] || (Enabled(s, run[0]) && ValidRun(Step(s, run[0]), run[1..]))
  }

  function After(s: State, run: seq<Action>): State
    requires s.status != [] && ValidRun(s, run)
    decreases |run|
  {
    if run == [] then s else After(Step(s, run[0]), run[1..])
  }

  // ----- conservation of tokens -----

  /** The tokens on their way from the drawing to the acknowledgement, the oldest first. */
  function Tokens(s: State): seq<nat> {
    Flat(s.sync) + (s.updated + (s.pipe + (s.control + s.hand)))
  }

  /** Frames acked up to drawn - 1 have their tokens under way, in order, and no more than there are buffers. */
  ghost predicate Conserved(s: State) {
    && s.status != []
    && |s.acks| <= s.drawn <= |s.acks| + |s.status|
    && (forall i :: 0 <= i < |s.acks| ==> s.acks[i] == i)
    && |Tokens(s)| == s.drawn - |s.acks|
    && (forall i :: 0 <= i < |Tokens(s)| ==> Tokens(s)[i] == |s.acks| + i)
  }

  /** A buffer is marked exactly when the token of a frame drawn into it is under way. */
  ghost predicate Marked(s: State)
    requires s.status != []
  {
    forall i :: 0 <= i < |s.status| ==> (s.status[i] <==> exists f: nat :: |s.acks| <= f < s.drawn && Uses(|s.status|, f, i))
  }

  /** What the compositor shows is the last frame it has taken. */
  ghost predicate Shown(s: State) {
    && (s.current.Some? <==> |s.acks| + |Flat(s.sync)| + |s.updated| > 0)
    && (s.current.Some? ==> s.current.value == |s.acks| + |Flat(s.sync)| + |s.updated| - 1)
    && (forall i, j :: 0 <= i < j < |s.presented| ==> s.presented[i] <= s.presented[j])
    && (s.presented != [] ==> s.current.Some? && s.presented[|s.presented| - 1] <= s.current.value)
    && (s.current.Some? && (s.phase.Ack? || s.phase == Collect(0)) ==>
          s.presented != [] && s.presented[|s.presented| - 1] == s.current.value)
    && (s.phase == Collect(0) ==> s.updated == [])
    && (s.phase.Swap? || s.phase.Ack? ==> |s.updated| <= 1)
    && (forall b <- s.sync :: b != [])
  }

  /** With a single buffer, a DRAW was forwarded in this frame only if it is still waiting to be shown. */
  ghost predicate NoneDropped(s: State) {
    && s.lastFrameCount <= s.frameCount
    && (|s.status| == 1 && s.lastFrameCount == s.frameCount && s.lastFrameCount > 0 ==> |s.pipe| + |s.updated| == 1)
    && (|s.status| == 1 && s.phase.Ack? && s.updated != [] ==> s.lastFrameCount < s.frameCount)
  }

  ghost predicate Inv(s: State) {
    Conserved(s) && Marked(s) && Shown(s) && NoneDropped(s)
  }

  lemma TokensLength(s: State)
    ensures |Tokens(s)| == |Flat(s.sync)| + |s.updated| + |s.pipe| + |s.control| + |s.hand|
  {
  }

  /** No DRAW is ever lost to that rule. */
  lemma NeverDrops(s: State)
    requires Inv(s) && s.control != []
    ensures !Dropped(s)
  {
    TokensLength(s);
  }

  /** Every step between the drawing and the acknowledgement only moves tokens along. */
  lemma SameTokens(s: State, a: Action)
    requires s.status != [] && Enabled(s, a) && !a.Mark? && !a.Complete? && !(a.Forward? && Dropped(s))
    ensures Tokens(Step(s, a)) == Tokens(s)
  {
    var t := Step(s, a);
    match a {
      case SendDraw => assert s.control + s.hand == t.control + [];
      case Forward =>
        assert s.control == [s.control[0]] + t.control;
        Assoc([s.control[0]], t.control, s.hand);
        Assoc(s.pipe, [s.control[0]], t.control + s.hand);
      case TakeDraw =>
        var rest := s.control + s.hand;
        assert s.pipe == [s.pipe[0]] + t.pipe;
        Assoc([s.pipe[0]], t.pipe, rest);
        Assoc(s.updated, [s.pipe[0]], t.pipe + rest);
      case Coalesce =>
        var n, rest := |s.updated|, s.pipe + (s.control + s.hand);
        if n > 1 {
          assert s.updated == s.updated[..n - 1] + s.updated[n - 1..];
          Assoc(s.updated[..n - 1], s.updated[n - 1..], rest);
          FlatSnoc(s.sync, s.updated[..n - 1]);
          Assoc(Flat(s.sync), s.updated[..n - 1], s.updated[n - 1..] + rest);
        }
      case Acknowledge =>
        var rest := s.pipe + (s.control + s.hand);
        FlatSnoc(s.sync, s.updated);
        Assoc(Flat(s.sync), s.updated, rest);
        assert [] + rest == rest;
      case _ =>
    }
  }

  lemma MovedConserved(s: State, a: Action)
    requires Inv(s) && Enabled(s, a) && !a.Mark? && !a.Complete?
    ensures Conserved(Step(s, a)) && Marked(Step(s, a))
  {
    if a.Forward? {
      NeverDrops(s);
    }
    SameTokens(s, a);
  }

  lemma {:induction false} Window(n: nat, j: nat, k: nat)
    requires 0 < n && j < k < j + n
    ensures Buffer(n, j) != Buffer(n, k)
  {
    if j >= n {
      Window(n, j - n, k - n);
    }
  }

  /** A free buffer means a free place among the tokens. */
  lemma MarkRoom(s: State)
    requires Conserved(s) && Marked(s) && Enabled(s, Mark)
    ensures s.drawn < |s.acks| + |s.status|
  {
    if s.drawn == |s.acks| + |s.status| {
      assert Buffer(|s.status|, s.drawn) == Buffer(|s.status|, |s.acks|);
      assert Uses(|s.status|, |s.acks|, Buffer(|s.status|, s.drawn));
    }
  }

  lemma MarkConserved(s: State)
    requires Inv(s) && Enabled(s, Mark)
    ensures Conserved(Step(s, Mark))
  {
    MarkRoom(s);
    var t := Step(s, Mark);
    assert t.hand == s.hand + [s.drawn];
    Assoc(s.control, s.hand, [s.drawn]);
    Assoc(s.pipe, s.control + s.hand, [s.drawn]);
    Assoc(s.updated, s.pipe + (s.control + s.hand), [s.drawn]);
    Assoc(Flat(s.sync), s.updated + (s.pipe + (s.control + s.hand)), [s.drawn]);
    assert Tokens(t) == Tokens(s) + [s.drawn];
  }

  lemma MarkMarked(s: State)
    requires Inv(s) && Enabled(s, Mark)
    ensures Marked(Step(s, Mark))
  {
    var t, n := Step(s, Mark), |s.status|;
    forall i | 0 <= i < n
      ensures t.status[i] <==> exists f: nat :: |t.acks| <= f < t.drawn && Uses(n, f, i)
    {
      if i == Buffer(n, s.drawn) {
        assert Uses(n, s.drawn, i);
      } else if t.status[i] {
        var f: nat :| |s.acks| <= f < s.drawn && Uses(n, f, i);
      }
    }
  }

  /** Completing a message frees exactly the buffers it names. */
  lemma {:induction false} ClearAt(status: seq<bool>, frames: seq<nat>, i: nat)
    requires i < |status|
    ensures Clear(status, frames)[i] <==> status[i] && forall f :: f in frames ==> !Uses(|status|, f, i)
    decreases |frames|
  {
    if frames != [] {
      var after := status[Buffer(|status|, frames[0]) := false];
      ClearAt(after, frames[1..], i);
      assert after[i] <==> status[i] && !Uses(|status|, frames[0], i);
      assert forall f :: f in frames <==> f == frames[0] || f in frames[1..];
    }
  }

  lemma CompleteConserved(s: State)
    requires Inv(s) && Enabled(s, Complete)
    ensures Conserved(Step(s, Complete))
    ensures forall i :: 0 <= i < |s.sync[0]| ==> s.sync[0][i] == |s.acks| + i
    ensures |s.sync[0]| <= s.drawn - |s.acks|
  {
    var t, b := Step(s, Complete), s.sync[0];
    var rest := s.updated + (s.pipe + (s.control + s.hand));
    Assoc(b, Flat(s.sync[1..]), rest);
    assert Tokens(s) == b + Tokens(t);
    forall i | 0 <= i < |b|
      ensures b[i] == |s.acks| + i
    {
      assert b[i] == Tokens(s)[i];
    }
    forall i | 0 <= i < |Tokens(t)|
      ensures Tokens(t)[i] == |t.acks| + i
    {
      assert Tokens(t)[i] == Tokens(s)[|b| + i];
    }
  }

  lemma CompleteMarked(s: State)
    requires Inv(s) && Enabled(s, Complete)
    ensures Marked(Step(s, Complete))
  {
    CompleteConserved(s);
    var t, n, b := Step(s, Complete), |s.status|, s.sync[0];
    forall i: nat | i < n
      ensures t.status[i] <==> exists f: nat :: |t.acks| <= f < t.drawn && Uses(n, f, i)
    {
      ClearAt(s.status, b, i);
      if s.status[i] {
        var f: nat :| |s.acks| <= f < s.drawn && Uses(n, f, i);
        if f < |t.acks| {
          assert b[f - |s.acks|] == f;
          OnlyToken(n, |s.acks|, s.drawn, f);
        } else {
          OnlyToken(n, |s.acks|, s.drawn, f);
        }
      }
    }
  }

  /** No two tokens under way are for the same buffer. */
  lemma OnlyToken(n: nat, first: nat, last: nat, f: nat)
    requires 0 < n && first <= f < last <= first + n
    ensures forall g: nat :: first <= g < last && g != f ==> Buffer(n, g) != Buffer(n, f)
  {
    forall g: nat | first <= g < last && g != f
      ensures Buffer(n, g) != Buffer(n, f)
    {
      if g < f {
        Window(n, g, f);
      } else {
        Window(n, f, g);
      }
    }
  }

  /** Taking a DRAW makes its frame, the next one, the one to show. */
  lemma TakeShown(s: State)
    requires Inv(s) && Enabled(s, TakeDraw)
    ensures Shown(Step(s, TakeDraw))
  {
    assert s.pipe[0] == Tokens(s)[|Flat(s.sync)| + |s.updated|];
  }

  lemma CoalesceShown(s: State)
    requires Inv(s) && Enabled(s, Coalesce)
    ensures Shown(Step(s, Coalesce))
  {
    if |s.updated| > 1 {
      FlatSnoc(s.sync, s.updated[..|s.updated| - 1]);
    }
  }

  lemma AcknowledgeShown(s: State)
    requires Inv(s) && Enabled(s, Acknowledge)
    ensures Shown(Step(s, Acknowledge))
  {
    FlatSnoc(s.sync, s.updated);
  }

  lemma CompleteShown(s: State)
    requires Inv(s) && Enabled(s, Complete)
    ensures Shown(Step(s, Complete))
  {
    assert |Flat(s.sync)| == |s.sync[0]| + |Flat(s.sync[1..])|;
    assert forall b <- s.sync[1..] :: b in s.sync;
  }

  lemma PresentShown(s: State)
    requires Inv(s) && Enabled(s, Present)
    ensures Shown(Step(s, Present))
  {
  }

  /** The other steps do not touch what the compositor has taken or shown. */
  lemma OtherShown(s: State, a: Action)
    requires Inv(s) && Enabled(s, a) && (a.Mark? || a.SendDraw? || a.Forward? || a.TakeOther? || a.EndCollect?)
    ensures Shown(Step(s, a))
  {
  }

  lemma StepShown(s: State, a: Action)
    requires Inv(s) && Enabled(s, a)
    ensures Shown(Step(s, a))
  {
    match a {
      case TakeDraw => TakeShown(s);
      case Coalesce => CoalesceShown(s);
      case Acknowledge => AcknowledgeShown(s);
      case Complete => CompleteShown(s);
      case Present => PresentShown(s);
      case _ => OtherShown(s, a);
    }
  }

  lemma StepNoneDropped(s: State, a: Action)
    requires Inv(s) && Enabled(s, a)
    ensures NoneDropped(Step(s, a))
  {
    TokensLength(s);
    if a.Forward? {
      NeverDrops(s);
    }
  }

  lemma StepInv(s: State, a: Action)
    requires Inv(s) && Enabled(s, a)
    ensures Inv(Step(s, a))
  {
    StepShown(s, a);
    StepNoneDropped(s, a);
    match a {
      case Mark =>
        MarkConserved(s);
        MarkMarked(s);
      case Complete =>
        CompleteConserved(s);
        CompleteMarked(s);
      case _ => MovedConserved(s, a);
    }
  }

  lemma InitInv(buffers: nat)
    requires buffers > 0
    ensures Inv(Init(buffers))
  {
  }

  lemma {:induction false} RunInv(s: State, run: seq<Action>)
    requires Inv(s) && ValidRun(s, run)
    ensures Inv(After(s, run))
    decreases |run|
  {
    if run != [] {
      StepInv(s, run[0]);
      RunInv(Step(s, run[0]), run[1..]);
    }
  }

  /** From the start, after every run: acknowledgements are a prefix of the draws, and what is not acknowledged is
      under way once, in order, with at most one token for each buffer. */
  lemma RunConserves(buffers: nat, run: seq<Action>)
    requires buffers > 0 && ValidRun(Init(buffers), run)
    ensures var s := After(Init(buffers), run);
            && |s.status| == buffers
            && (forall i :: 0 <= i < |s.acks| ==> s.acks[i] == i)
            && |s.acks| + |Tokens(s)| == s.drawn && |Tokens(s)| <= buffers
            && (forall i :: 0 <= i < |Tokens(s)| ==> Tokens(s)[i] == |s.acks| + i)
            && (forall i, j :: 0 <= i < j < |s.presented| ==> s.presented[i] <= s.presented[j])
  {
    InitInv(buffers);
    RunInv(Init(buffers), run);
    RunBuffers(Init(buffers), run);
  }

  lemma {:induction false} RunBuffers(s: State, run: seq<Action>)
    requires s.status != [] && ValidRun(s, run)
    ensures |After(s, run).status| == |s.status|
    decreases |run|
  {
    if run != [] {
      RunBuffers(Step(s, run[0]), run[1..]);
    }
  }

  /** A buffer is marked exactly when one token for it is under way, and there are never two. */
  lemma OneToken(s: State, i: nat)
    requires Inv(s) && i < |s.status|
    ensures s.status[i] <==> exists k: nat :: k < |Tokens(s)| && Buffer(|s.status|, Tokens(s)[k]) == i
    ensures forall j, k :: 0 <= j < k < |Tokens(s)| ==> Buffer(|s.status|, Tokens(s)[j]) != Buffer(|s.status|, Tokens(s)[k])
  {
    var n := |s.status|;
    if s.status[i] {
      var f: nat :| |s.acks| <= f < s.drawn && Uses(n, f, i);
      assert Tokens(s)[f - |s.acks|] == f && Buffer(n, Tokens(s)[f - |s.acks|]) == i;
    }
    forall k: nat | k < |Tokens(s)| && Buffer(n, Tokens(s)[k]) == i
      ensures s.status[i]
    {
      assert Uses(n, |s.acks| + k, i);
    }
    forall j, k | 0 <= j < k < |Tokens(s)|
      ensures Buffer(n, Tokens(s)[j]) != Buffer(n, Tokens(s)[k])
    {
      Window(n, |s.acks| + j, |s.acks| + k);
    }
  }

  /** What is acknowledged after a swap is the frame that was shown; the others were overtaken before it. */
  lemma AcknowledgedWasShown(s: State, f: nat)
    requires Inv(s) && s.phase.Ack? && f in s.updated
    ensures s.updated == [f] && s.presented != [] && s.presented[|s.presented| - 1] == f
  {
    assert f == Tokens(s)[|Flat(s.sync)|];
  }

  /** A frame acknowledged without being shown has a later one to be shown in its place. */
  lemma CoalescedWasOvertaken(s: State, f: nat)
    requires Inv(s) && Enabled(s, Coalesce) && f in s.updated && f !in Step(s, Coalesce).updated
    ensures s.current.Some? && f < s.current.value && Step(s, Coalesce).updated == [s.current.value]
  {
    var n, m := |s.updated|, |Flat(s.sync)|;
    var i :| 0 <= i < n && s.updated[i] == f;
    assert s.updated[i] == Tokens(s)[m + i] && s.updated[n - 1] == Tokens(s)[m + n - 1];
  }

  // ----- progress -----

  /** The steps that need neither a new frame nor another event. */
  predicate System(a: Action) {
    !a.Mark? && !a.TakeOther?
  }

  /** At rest nothing is under way, and the compositor sleeps in poll. */
  ghost predicate Resting(s: State) {
    s.hand == [] && s.control == [] && s.pipe == [] && s.sync == [] && s.phase == Collect(0)
  }

  lemma RestingIff(s: State)
    requires s.status != []
    ensures Resting(s) <==> forall a :: System(a) ==> !Enabled(s, a)
  {
    if forall a :: System(a) ==> !Enabled(s, a) {
      assert !Enabled(s, SendDraw) && !Enabled(s, Forward) && !Enabled(s, TakeDraw) && !Enabled(s, EndCollect);
      assert !Enabled(s, Coalesce) && !Enabled(s, Present) && !Enabled(s, Acknowledge) && !Enabled(s, Complete);
    }
  }

  /** Deadlock freedom: while the renderer waits for its next buffer, another step is possible. */
  lemma NeverStuck(s: State)
    requires Inv(s) && !Enabled(s, Mark)
    ensures exists a :: System(a) && Enabled(s, a)
  {
    if Resting(s) {
      assert s.updated == [] && Flat(s.sync) == [];
      TokensLength(s);
    }
    RestingIff(s);
  }

  function PhaseWork(p: Phase): nat {
    match p
    case Collect(n) => if n == 0 then 0 else 4
    case Skip => 3
    case Swap => 2
    case Ack => 1
  }

  function Work(s: State): nat {
    9 * |s.hand| + 8 * |s.control| + 7 * |s.pipe| + 2 * |s.updated| + |Flat(s.sync)| + PhaseWork(s.phase)
  }

  lemma StepWork(s: State, a: Action)
    requires Inv(s) && System(a) && Enabled(s, a)
    ensures Work(Step(s, a)) < Work(s)
  {
    match a {
      case Coalesce =>
        if |s.updated| > 1 {
          FlatSnoc(s.sync, s.updated[..|s.updated| - 1]);
        }
      case Acknowledge => FlatSnoc(s.sync, s.updated);
      case Complete => assert s.sync[0] in s.sync;
      case _ =>
    }
  }

  /** However it is scheduled, the system is at rest after a bounded number of steps if no frame is drawn. */
  lemma {:induction false} WorkBoundsRun(s: State, run: seq<Action>)
    requires Inv(s) && ValidRun(s, run) && forall i :: 0 <= i < |run| ==> System(run[i])
    ensures |run| + Work(After(s, run)) <= Work(s)
    decreases |run|
  {
    if run != [] {
      StepInv(s, run[0]);
      StepWork(s, run[0]);
      WorkBoundsRun(Step(s, run[0]), run[1..]);
    }
  }

  /** There every DRAW has been acknowledged once, in order; the swaps showed frames in the order drawn, the last
      frame last; and every buffer is free again. */
  lemma RestingDone(buffers: nat, run: seq<Action>)
    requires buffers > 0 && ValidRun(Init(buffers), run) && Resting(After(Init(buffers), run))
    ensures var s := After(Init(buffers), run);
            && |s.acks| == s.drawn && (forall i :: 0 <= i < s.drawn ==> s.acks[i] == i)
            && (forall i, j :: 0 <= i < j < |s.presented| ==> s.presented[i] <= s.presented[j])
            && (s.drawn > 0 ==> s.presented != [] && s.presented[|s.presented| - 1] == s.drawn - 1)
            && (forall i :: 0 <= i < |s.status| ==> !s.status[i])
  {
    InitInv(buffers);
    RunInv(Init(buffers), run);
    var s := After(Init(buffers), run);
    assert s.updated == [] && Flat(s.sync) == [];
    TokensLength(s);
  }

  // ----- the fields behind it -----

  /** Frames as the messages name them. */
  function Indexes(n: nat, frames: seq<nat>): (r: seq<nat>)
    requires n > 0
    ensures |r| == |frames| && forall i :: 0 <= i < |r| ==> r[i] == Buffer(n, frames[i])
  {
    seq(|frames|, i requires 0 <= i < |frames| => Buffer(n, frames[i]))
  }

  lemma {:induction false} Rotate(n: nat, f: nat)
    requires n > 0
    ensures Buffer(n, f + 1) == if Buffer(n, f) + 1 < n then Buffer(n, f) + 1 else 0
    ensures Buffer(n, f + 1) == (Buffer(n, f) + 1) % n
  {
    if f >= n {
      Rotate(n, f - n);
    } else if f + 1 == n {
      assert n % n == 0;
    }
  }

  /** What the renderer, its swap_completed_loop and the compositor update in place. */
  class SwapChain {
    const compositStatus: array<bool>
    var fdIndex: nat
    var updatedIndexes: seq<nat>
    var syncPipe: seq<seq<nat>>
    ghost var model: State

    ghost predicate Valid()
      reads this, compositStatus
    {
      && model.status != [] && compositStatus[..] == model.status
      && (model.hand != [] ==> model.drawn > 0 && model.hand == [model.drawn - 1])
      && fdIndex == Buffer(|model.status|, model.drawn - |model.hand|)
      && updatedIndexes == Indexes(|model.status|, model.updated)
      && |syncPipe| == |model.sync|
      && forall i :: 0 <= i < |syncPipe| ==> syncPipe[i] == Indexes(|model.status|, model.sync[i])
    }

    constructor (buffers: nat)
      requires buffers > 0
      ensures Valid() && fresh(compositStatus) && model == Init(buffers)
    {
      compositStatus := new bool[buffers](_ => false);
      fdIndex, updatedIndexes, syncPipe := 0, [], [];
      model := Init(buffers);
    }

    /** The wait at the head of rvgpu_egl_draw, and the mark at its end. */
    method TryMark() returns (waiting: bool)
      requires Valid() && model.hand == []
      modifies this`model, compositStatus
      ensures Valid() && waiting == !Enabled(old(model), Mark)
      ensures model == if waiting then old(model) else Step(old(model), Mark)
    {
      waiting := compositStatus[fdIndex];
      if !waiting {
        compositStatus[fdIndex] := true;
        model := Step(model, Mark);
      }
    }

    method SendDraw() returns (index: nat)
      requires Valid() && model.hand != []
      modifies this`model, this`fdIndex
      ensures Valid() && model == Step(old(model), Action.SendDraw)
      ensures index == Buffer(|model.status|, model.control[|model.control| - 1])
    {
      Rotate(compositStatus.Length, model.drawn - 1);
      index := fdIndex;
      model := Step(model, Action.SendDraw);
      fdIndex := (fdIndex + 1) % compositStatus.Length;
    }

    method Append(ghost frame: nat, index: nat)
      requires Valid() && Enabled(model, TakeDraw) && frame == model.pipe[0] && index == Buffer(|model.status|, frame)
      modifies this`model, this`updatedIndexes
      ensures Valid() && model == Step(old(model), TakeDraw)
    {
      model := Step(model, TakeDraw);
      updatedIndexes := updatedIndexes + [index];
    }

    /** The first loop over the surfaces after the events are taken. */
    method Coalesce()
      requires Valid() && model.phase.Skip?
      modifies this`model, this`updatedIndexes, this`syncPipe
      ensures Valid() && model == Step(old(model), Action.Coalesce)
    {
      var size := |updatedIndexes|;
      ghost var was := updatedIndexes;
      if size > 1 {
        var skipped := [];
        for i := 0 to size - 1
          invariant skipped == updatedIndexes[..i]
        {
          skipped := skipped + [updatedIndexes[i]];
        }
        syncPipe := syncPipe + [skipped];
        for i := 0 to size - 1
          invariant updatedIndexes == was[i..] && model == old(model) && compositStatus[..] == old(compositStatus[..])
          invariant fdIndex == old(fdIndex) && syncPipe == old(syncPipe) + [was[..size - 1]]
        {
          updatedIndexes := updatedIndexes[1..];
        }
      }
      model := Step(model, Action.Coalesce);
    }

    /** The loop over the surfaces after the swap. */
    method AcknowledgeShown()
      requires Valid() && model.phase.Ack?
      modifies this`model, this`updatedIndexes, this`syncPipe
      ensures Valid() && model == Step(old(model), Acknowledge)
    {
      if |updatedIndexes| > 0 {
        syncPipe := syncPipe + [updatedIndexes];
        updatedIndexes := [];
      }
      model := Step(model, Acknowledge);
    }

    /** swap_completed_loop on one message. */
    method SwapCompleted()
      requires Valid() && model.sync != []
      modifies this`model, this`syncPipe, compositStatus
      ensures Valid() && model == Step(old(model), Complete)
    {
      ghost var frames := model.sync[0];
      for index := 0 to |syncPipe[0]|
        invariant model == old(model) && syncPipe == old(syncPipe) && updatedIndexes == old(updatedIndexes)
        invariant fdIndex == old(fdIndex)
        invariant Clear(model.status, frames) == Clear(compositStatus[..], frames[index..])
      {
        ghost var was := compositStatus[..];
        compositStatus[syncPipe[0][index]] := false;
        assert frames[index..][1..] == frames[index + 1..];
        assert compositStatus[..] == was[Buffer(|was|, frames[index]) := false];
      }
      syncPipe := syncPipe[1..];
      model := Step(model, Complete);
    }
  }
}

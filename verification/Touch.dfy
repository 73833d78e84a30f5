/**
 The touch encoder of src/rvgpu-renderer/renderer/rvgpu-input.c: contacts are added, moved and
 removed as increments in a queue that is sent or thrown away as a whole. What a receiver of the
 Linux multi-touch protocol, type B, makes of the stream must agree with the encoder's tables.
 */
module Touch {
  import opened Bytes

  const MAX_SLOTS := 16
  const NONE := -1

  // ----- what the receiver does -----

  datatype Event =
    | AbsMisc(window: nat)   // EV_ABS ABS_MISC: the window of what follows
    | MtSlot(slot: int)      // EV_ABS ABS_MT_SLOT
    | MtTracking(id: int)    // EV_ABS ABS_MT_TRACKING_ID, NONE to end a contact
    | MtX(x: int)            // EV_ABS ABS_MT_POSITION_X
    | MtY(y: int)            // EV_ABS ABS_MT_POSITION_Y
    | BtnTouch(down: bool)   // EV_KEY BTN_TOUCH
    | Report                 // EV_SYN SYN_REPORT

  datatype Contact = Contact(track: int, window: nat, x: int, y: int)

  /** What has been heard since the last report counts only from the next one on. */
  datatype Receiver = Receiver(
    slot: nat, window: nat,
    contacts: seq<Contact>, touch: bool,    // as heard
    shown: seq<Contact>, shownTouch: bool)  // as reported

  predicate Usable(r: Receiver) {
    |r.contacts| == |r.shown| == MAX_SLOTS && r.slot < MAX_SLOTS
  }

  predicate Active(c: Contact) {
    c.track >= 0
  }

  function Hear(r: Receiver, e: Event): (after: Receiver)
    requires Usable(r)
    ensures Usable(after)
  {
    var c := r.contacts[r.slot];
    match e
    case AbsMisc(w) => r.(window := w)
    case MtSlot(i) => if 0 <= i < MAX_SLOTS then r.(slot := i) else r
    case MtTracking(id) => r.(contacts := r.contacts[r.slot := c.(track := id, window := r.window)])
    case MtX(x) => r.(contacts := r.contacts[r.slot := c.(x := x, window := r.window)])
    case MtY(y) => r.(contacts := r.contacts[r.slot := c.(y := y, window := r.window)])
    case BtnTouch(down) => r.(touch := down)
    case Report => r.(shown := r.contacts, shownTouch := r.touch)
  }

  function Decode(r: Receiver, events: seq<Event>): (after: Receiver)
    requires Usable(r)
    ensures Usable(after)
    decreases |events|
  {
    if events == [] then r else Decode(Hear(r, events[0]), events[1..])
  }

  lemma {:induction false} DecodeAppend(r: Receiver, a: seq<Event>, b: seq<Event>)
    requires Usable(r)
    ensures Decode(r, a + b) == Decode(Decode(r, a), b)
    decreases |a|
  {
    if a == [] {
      assert a + b == b;
    } else {
      assert (a + b)[1..] == a[1..] + b;
      DecodeAppend(Hear(r, a[0]), a[1..], b);
    }
  }

  function Silent(): Receiver {
    var none := seq(MAX_SLOTS, i => Contact(NONE, 0, 0, 0));
    Receiver(0, 0, none, false, none, false)
  }

  // ----- the encoder -----

  /** Events are sent only if they tell something new. */
  function If(c: bool, e: Event): seq<Event> {
    if c then [e] else []
  }

  /** struct rvgpu_input_slot, without the coordinate transform. */
  datatype Slot = Slot(id: int, window: nat, x: int, y: int)

  datatype State = State(
    slots: seq<Slot>, olds: seq<Slot>,
    lastSlot: nat, oldSlot: nat,
    lastWindow: nat, oldWindow: nat,
    trackSeq: nat,
    queue: seq<Event>,
    sent: seq<Event>)

  predicate Shape(s: State) {
    |s.slots| == |s.olds| == MAX_SLOTS && s.lastSlot < MAX_SLOTS && s.oldSlot < MAX_SLOTS
  }

  /** find_slot, and with NONE find_free_slot: the first slot from i on that holds id. */
  function Find(slots: seq<Slot>, id: int, i: nat): (r: int)
    requires i <= |slots|
    ensures r == NONE || i <= r < |slots|
    ensures r != NONE ==> slots[r].id == id && forall j :: i <= j < r ==> slots[j].id != id
    ensures r == NONE ==> forall j :: i <= j < |slots| ==> slots[j].id != id
    decreases |slots| - i
  {
    if i == |slots| then NONE else if slots[i].id == id then i else Find(slots, id, i + 1)
  }

  function Init(): State {
    var none := seq(MAX_SLOTS, i => Slot(NONE, 0, NONE, NONE));
    State(none, none, 0, 0, 0, 0, 0, [], [])
  }

  function RemoveSlot(s: State, id: int): (r: State)
    requires Shape(s)
    ensures Shape(r)
  {
    var slot := Find(s.slots, id, 0);
    if slot == NONE then s
    else
      s.(queue := s.queue + If(s.lastSlot != slot, MtSlot(slot)) + [MtTracking(NONE), BtnTouch(false)],
         lastSlot := slot,
         slots := s.slots[slot := s.slots[slot].(id := NONE, x := NONE, y := NONE)])
  }

  function AddSlot(s: State, id: int, window: nat): (r: State)
    requires Shape(s)
    ensures Shape(r)
  {
    PutInto(Cleared(s, id).(trackSeq := s.trackSeq + 1), id, window, s.trackSeq % 0x1_0000)
  }

  /** A contact in the first free slot, if there is one. */
  function PutInto(t: State, id: int, window: nat, track: nat): (r: State)
    requires Shape(t)
    ensures Shape(r)
  {
    var slot := Find(t.slots, NONE, 0);
    if slot == NONE then t
    else
      t.(queue := t.queue + If(t.lastWindow != window, AbsMisc(window))
                  + [MtSlot(slot), MtTracking(track), BtnTouch(true)],
         lastSlot := slot, lastWindow := window,
         slots := t.slots[slot := t.slots[slot].(id := id, window := window)])
  }

  /** The new coordinates are what the transform gives for the point. */
  function MoveSlot(s: State, id: int, x: int, y: int): (r: State)
    requires Shape(s)
    ensures Shape(r)
  {
    var slot := Find(s.slots, id, 0);
    if slot == NONE then s
    else
      var c := s.slots[slot];
      if x == c.x && y == c.y then s
      else
        s.(queue := s.queue
             + If(s.lastWindow != c.window, AbsMisc(c.window))
             + If(s.lastSlot != slot, MtSlot(slot))
             + If(c.x != x, MtX(x))
             + If(c.y != y, MtY(y)),
           lastSlot := slot, lastWindow := c.window,
           slots := s.slots[slot := c.(x := x, y := y)])
  }

  function Send(s: State): (r: State)
    requires Shape(s)
    ensures Shape(r)
  {
    s.(sent := s.sent + if s.queue == [] then [] else s.queue + [Report],
       queue := [], olds := s.slots, oldSlot := s.lastSlot, oldWindow := s.lastWindow)
  }

  function Clear(s: State): (r: State)
    requires Shape(s)
    ensures Shape(r)
  {
    s.(queue := [], slots := s.olds, lastSlot := s.oldSlot, lastWindow := s.oldWindow)
  }

  // ----- agreement -----

  predicate SlotAgrees(c: Contact, s: Slot) {
    && (Active(c) <==> s.id != NONE)
    && (Active(c) ==> c.window == s.window)
    && (s.x != NONE ==> c.x == s.x)
    && (s.y != NONE ==> c.y == s.y)
  }

  ghost predicate Agrees(r: Receiver, slots: seq<Slot>, slot: nat, window: nat) {
    && r.slot == slot && r.window == window && |r.contacts| == |slots| == MAX_SLOTS
    && forall i :: 0 <= i < MAX_SLOTS ==> SlotAgrees(r.contacts[i], slots[i])
  }

  ghost predicate DistinctIds(slots: seq<Slot>) {
    forall i, j :: 0 <= i < j < |slots| && slots[i].id != NONE ==> slots[i].id != slots[j].id
  }

  /** The receiver has what was committed; with the queue as well it would have what is current. */
  ghost predicate Inv(s: State) {
    && Shape(s) && DistinctIds(s.slots) && DistinctIds(s.olds)
    && Agrees(Committed(s), s.olds, s.oldSlot, s.oldWindow) && Reported(Committed(s))
    && Agrees(Heard(s), s.slots, s.lastSlot, s.lastWindow)
  }

  /** The receiver after what was sent, and after the queue as well. */
  function Committed(s: State): (r: Receiver)
    ensures Usable(r)
  {
    Decode(Silent(), s.sent)
  }

  function Heard(s: State): (r: Receiver)
    ensures Usable(r)
  {
    Decode(Committed(s), s.queue)
  }

  /** Nothing heard is still to be reported. */
  predicate Reported(r: Receiver) {
    r.shown == r.contacts && r.shownTouch == r.touch
  }

  // ----- what each operation says to the receiver -----

  lemma DecodeIf(r: Receiver, c: bool, e: Event)
    requires Usable(r)
    ensures Decode(r, If(c, e)) == if c then Hear(r, e) else r
  {
    if c {
      assert Decode(Hear(r, e), [e][1..]) == Hear(r, e);
    }
  }

  lemma DecodeSnoc(r: Receiver, a: seq<Event>, e: Event)
    requires Usable(r)
    ensures Decode(r, a + [e]) == Hear(Decode(r, a), e)
  {
    DecodeAppend(r, a, [e]);
    DecodeIf(Decode(r, a), true, e);
  }

  lemma DecodeMaybe(r: Receiver, a: seq<Event>, c: bool, e: Event)
    requires Usable(r)
    ensures Decode(r, a + If(c, e)) == if c then Hear(Decode(r, a), e) else Decode(r, a)
  {
    DecodeAppend(r, a, If(c, e));
    DecodeIf(Decode(r, a), c, e);
  }

  lemma HeardRemove(queue: seq<Event>, start: Receiver, slot: nat)
    requires Usable(start) && slot < MAX_SLOTS
    ensures var r := Decode(start, queue);
            Decode(start, queue + If(r.slot != slot, MtSlot(slot)) + [MtTracking(NONE), BtnTouch(false)])
            == r.(slot := slot, touch := false,
                  contacts := r.contacts[slot := r.contacts[slot].(track := NONE, window := r.window)])
  {
    var r := Decode(start, queue);
    var q := queue + If(r.slot != slot, MtSlot(slot));
    DecodeMaybe(start, queue, r.slot != slot, MtSlot(slot));
    DecodeSnoc(start, q, MtTracking(NONE));
    DecodeSnoc(start, q + [MtTracking(NONE)], BtnTouch(false));
    assert q + [MtTracking(NONE)] + [BtnTouch(false)] == q + [MtTracking(NONE), BtnTouch(false)];
  }

  /** A removal ends the contact in the slot that has the id, and changes no other. */
  lemma RemoveHeard(s: State, id: int)
    requires Inv(s) && Find(s.slots, id, 0) != NONE
    ensures var slot, r := Find(s.slots, id, 0), Heard(s);
            Heard(RemoveSlot(s, id))
            == r.(slot := slot, touch := false,
                  contacts := r.contacts[slot := r.contacts[slot].(track := NONE, window := r.window)])
  {
    HeardRemove(s.queue, Committed(s), Find(s.slots, id, 0));
  }

  lemma RemoveInv(s: State, id: int)
    requires Inv(s)
    ensures Inv(RemoveSlot(s, id))
  {
    if Find(s.slots, id, 0) != NONE {
      RemoveHeard(s, id);
    }
  }

  lemma HeardAdd(queue: seq<Event>, start: Receiver, slot: nat, window: nat, track: nat)
    requires Usable(start) && slot < MAX_SLOTS
    ensures var r := Decode(start, queue);
            Decode(start, queue + If(r.window != window, AbsMisc(window))
                          + [MtSlot(slot), MtTracking(track), BtnTouch(true)])
            == r.(slot := slot, window := window, touch := true,
                  contacts := r.contacts[slot := r.contacts[slot].(track := track, window := window)])
  {
    var r := Decode(start, queue);
    var q := queue + If(r.window != window, AbsMisc(window));
    DecodeMaybe(start, queue, r.window != window, AbsMisc(window));
    DecodeSnoc(start, q, MtSlot(slot));
    DecodeSnoc(start, q + [MtSlot(slot)], MtTracking(track));
    DecodeSnoc(start, q + [MtSlot(slot)] + [MtTracking(track)], BtnTouch(true));
    assert q + [MtSlot(slot)] + [MtTracking(track)] + [BtnTouch(true)]
        == q + [MtSlot(slot), MtTracking(track), BtnTouch(true)];
  }

  lemma PutHeard(t: State, id: int, window: nat, track: nat)
    requires Inv(t) && Find(t.slots, NONE, 0) != NONE
    ensures var slot, r := Find(t.slots, NONE, 0), Heard(t);
            Heard(PutInto(t, id, window, track))
            == r.(slot := slot, window := window, touch := true,
                  contacts := r.contacts[slot := r.contacts[slot].(track := track, window := window)])
  {
    HeardAdd(t.queue, Committed(t), Find(t.slots, NONE, 0), window, track);
  }

  /** Room for the contact, its id not in the table. */
  function Cleared(s: State, id: int): (r: State)
    requires Shape(s)
    ensures Shape(r)
  {
    if Find(s.slots, id, 0) != NONE then RemoveSlot(s, id) else s
  }

  lemma ClearedInv(s: State, id: int)
    requires Inv(s)
    ensures Inv(Cleared(s, id))
    ensures id != NONE ==> forall j :: 0 <= j < MAX_SLOTS ==> Cleared(s, id).slots[j].id != id
    ensures id == NONE ==> (Find(Cleared(s, id).slots, NONE, 0) == NONE <==> Find(s.slots, NONE, 0) == NONE)
  {
    RemoveInv(s, id);
    var slot := Find(s.slots, id, 0);
    if slot != NONE {
      assert Cleared(s, id).slots[slot].id == NONE;
    }
  }

  /** The code takes any id, but NONE marks its free slots: adding that one leaves the receiver with a contact that
      the encoder takes for a free slot, unless there is no free slot to give it. */
  lemma AddInv(s: State, id: int, window: nat)
    requires Inv(s)
    ensures Inv(AddSlot(s, id, window)) <==> id != NONE || Find(s.slots, NONE, 0) == NONE
  {
    var kept, after := Cleared(s, id), AddSlot(s, id, window);
    ClearedInv(s, id);
    var slot := Find(kept.slots, NONE, 0);
    if slot != NONE {
      PutHeard(kept.(trackSeq := s.trackSeq + 1), id, window, s.trackSeq % 0x1_0000);
      if id == NONE {
        assert !SlotAgrees(Heard(after).contacts[slot], after.slots[slot]);
      }
    }
  }

  lemma HeardMove(queue: seq<Event>, start: Receiver, slot: nat, window: nat, newX: bool, x: int, newY: bool, y: int)
    requires Usable(start) && slot < MAX_SLOTS
    ensures var r := Decode(start, queue);
            var c := r.contacts[slot];
            Decode(start, queue + If(r.window != window, AbsMisc(window)) + If(r.slot != slot, MtSlot(slot))
                          + If(newX, MtX(x)) + If(newY, MtY(y)))
            == r.(slot := slot, window := window,
                  contacts := r.contacts[slot := c.(x := if newX then x else c.x, y := if newY then y else c.y,
                                                    window := if newX || newY then window else c.window)])
  {
    hide Decode, If;
    var r := Decode(start, queue);
    var q1 := queue + If(r.window != window, AbsMisc(window));
    var q2 := q1 + If(r.slot != slot, MtSlot(slot));
    DecodeMaybe(start, queue, r.window != window, AbsMisc(window));
    DecodeMaybe(start, q1, r.slot != slot, MtSlot(slot));
    DecodeMaybe(start, q2, newX, MtX(x));
    DecodeMaybe(start, q2 + If(newX, MtX(x)), newY, MtY(y));
  }

  lemma MoveHeard(s: State, id: int, x: int, y: int)
    requires Inv(s) && Find(s.slots, id, 0) != NONE
    ensures var slot, r, after := Find(s.slots, id, 0), Heard(s), Heard(MoveSlot(s, id, x, y));
            var c, last := r.contacts[slot], s.slots[slot];
            if x == last.x && y == last.y then after == r
            else after == r.(slot := slot, window := last.window,
                   contacts := r.contacts[slot := c.(x := if x == last.x then c.x else x,
                                                     y := if y == last.y then c.y else y, window := last.window)])
  {
    var slot := Find(s.slots, id, 0);
    var last := s.slots[slot];
    HeardMove(s.queue, Committed(s), slot, last.window, last.x != x, x, last.y != y, y);
  }

  lemma MoveInv(s: State, id: int, x: int, y: int)
    requires Inv(s)
    ensures Inv(MoveSlot(s, id, x, y))
  {
    if Find(s.slots, id, 0) != NONE {
      MoveHeard(s, id, x, y);
    }
  }

  /** Sending commits: the receiver then has what is current. */
  lemma SendInv(s: State)
    requires Inv(s)
    ensures Inv(Send(s))
  {
    if s.queue != [] {
      Assoc(s.sent, s.queue, [Report]);
      DecodeSnoc(Silent(), s.sent + s.queue, Report);
      DecodeAppend(Silent(), s.sent, s.queue);
    } else {
      assert s.sent + [] == s.sent;
    }
  }

  /** Clearing takes the encoder back to what the receiver has. */
  lemma ClearInv(s: State)
    requires Inv(s)
    ensures Inv(Clear(s))
  {
  }

  lemma InitInv()
    ensures Inv(Init())
  {
  }

  // ----- what arrives, by the arguments of each operation -----

  /** All contacts but the i-th are as before, and what was reported is. */
  ghost predicate OthersKept(r: Receiver, after: Receiver, i: nat) {
    && Usable(r) && Usable(after)
    && after.shown == r.shown && after.shownTouch == r.shownTouch
    && forall j :: 0 <= j < MAX_SLOTS && j != i ==> after.contacts[j] == r.contacts[j]
  }

  /** A contact that is moved is at its new place, with its tracking id and window, unless a coordinate is -1 and was
      not known before; no other changes. */
  lemma MoveArrives(s: State, i: nat, x: int, y: int)
    requires Inv(s) && i < MAX_SLOTS && s.slots[i].id != NONE
    ensures var t := MoveSlot(s, s.slots[i].id, x, y);
            var r, after := Heard(s), Heard(t);
            var c, known := after.contacts[i], s.slots[i];
            && t.slots == s.slots[i := s.slots[i].(x := x, y := y)]
            && OthersKept(r, after, i) && after.touch == r.touch
            && c.track == r.contacts[i].track && c.window == r.contacts[i].window
            && c.x == (if x == known.x == NONE then r.contacts[i].x else x)
            && c.y == (if y == known.y == NONE then r.contacts[i].y else y)
  {
    var id := s.slots[i].id;
    assert Find(s.slots, id, 0) == i;
    MoveHeard(s, id, x, y);
    assert SlotAgrees(Heard(s).contacts[i], s.slots[i]);
  }

  /** A new contact moved to x = -1 first: the receiver has it at 0. */
  lemma MoveLost()
    ensures var s := AddSlot(Init(), 7, 0);
            && Inv(s) && s.slots[0].id == 7
            && Heard(MoveSlot(s, 7, -1, 20)).contacts[0].x == 0 && Heard(MoveSlot(s, 7, -1, 20)).contacts[0].y == 20
  {
    hide Decode, AddSlot, MoveSlot, Heard, Inv;
    NewContact(7);
    MoveArrives(AddSlot(Init(), 7, 0), 0, -1, 20);
  }

  lemma NewContact(id: int)
    requires id != NONE
    ensures var s := AddSlot(Init(), id, 0);
            && Inv(s) && s.slots[0] == Slot(id, 0, NONE, NONE) && Heard(s).contacts[0].x == 0
  {
    hide Decode, AddSlot;
    InitInv();
    AddInv(Init(), id, 0);
    AddArrives(Init(), id, 0, 0);
    assert Heard(Init()) == Silent() by { DecodeNone(); }
  }

  lemma DecodeNone()
    ensures Heard(Init()) == Committed(Init()) == Silent()
  {
  }

  /** The slot an add can take: a free one, or the one the contact has already. */
  predicate Room(s: State, id: int, i: nat)
    requires Shape(s)
  {
    i < MAX_SLOTS && (s.slots[i].id == NONE || s.slots[i].id == id)
  }

  /** With room, the contact goes to the first slot there is: active, with the next tracking id, in its window. The
      slot it had before is given up, and no other changes. */
  lemma AddArrives(s: State, id: int, window: nat, i: nat)
    requires Inv(s) && id != NONE && Room(s, id, i) && forall j: nat :: j < i ==> !Room(s, id, j)
    ensures var t := AddSlot(s, id, window);
            var r, after := Heard(s), Heard(t);
            && t.slots[i] == (if s.slots[i].id == id then Slot(id, window, NONE, NONE)
                              else s.slots[i].(id := id, window := window))
            && t.trackSeq == s.trackSeq + 1 && after.touch
            && after.contacts[i] == r.contacts[i].(track := s.trackSeq % 0x1_0000, window := window)
            && after.shown == r.shown && after.shownTouch == r.shownTouch
            && forall j :: 0 <= j < MAX_SLOTS && j != i ==>
                 if s.slots[j].id == id then t.slots[j].id == NONE && after.contacts[j].track == NONE
                 else t.slots[j] == s.slots[j] && after.contacts[j] == r.contacts[j]
  {
    hide Decode, If;
    var kept := Cleared(s, id);
    ClearedInv(s, id);
    var had := Find(s.slots, id, 0);
    if had != NONE {
      RemoveHeard(s, id);
    }
    assert Room(s, id, i);
    assert Find(kept.slots, NONE, 0) == i by {
      var slot := Find(kept.slots, NONE, 0);
      assert kept.slots[i].id == NONE;
      assert slot < i ==> Room(s, id, slot);
    }
    PutHeard(kept.(trackSeq := s.trackSeq + 1), id, window, s.trackSeq % 0x1_0000);
  }

  /** Without room nothing is said, and the table stays as it is. */
  lemma AddRefused(s: State, id: int, window: nat)
    requires Shape(s) && forall j: nat :: !Room(s, id, j)
    ensures AddSlot(s, id, window) == s.(trackSeq := s.trackSeq + 1)
  {
    var had := Find(s.slots, id, 0);
    assert had != NONE ==> Room(s, id, had);
    var slot := Find(s.slots, NONE, 0);
    assert slot != NONE ==> Room(s, id, slot);
  }

  /** A contact that is removed is one no longer, and no other changes. */
  lemma RemoveArrives(s: State, i: nat)
    requires Inv(s) && i < MAX_SLOTS && s.slots[i].id != NONE
    ensures var t := RemoveSlot(s, s.slots[i].id);
            var r, after := Heard(s), Heard(t);
            && t.slots[i].id == NONE && (forall j :: 0 <= j < MAX_SLOTS ==> t.slots[j].id != s.slots[i].id)
            && (forall j :: 0 <= j < MAX_SLOTS && j != i ==> t.slots[j] == s.slots[j])
            && OthersKept(r, after, i) && !after.touch && after.contacts[i].track == NONE
  {
    var id := s.slots[i].id;
    assert Find(s.slots, id, 0) == i;
    RemoveHeard(s, id);
  }

  /** An id that no slot has is neither moved nor removed. */
  lemma UnknownIgnored(s: State, id: int, x: int, y: int)
    requires Shape(s) && forall j :: 0 <= j < MAX_SLOTS ==> s.slots[j].id != id
    ensures MoveSlot(s, id, x, y) == RemoveSlot(s, id) == s
  {
  }

  /** After a send the receiver reports all that was heard. */
  lemma SendArrives(s: State)
    requires Inv(s)
    ensures var r, after := Heard(s), Committed(Send(s));
            after.shown == r.contacts && after.shownTouch == r.touch && Heard(Send(s)) == after
  {
    SendInv(s);
    if s.queue != [] {
      Assoc(s.sent, s.queue, [Report]);
      DecodeSnoc(Silent(), s.sent + s.queue, Report);
      DecodeAppend(Silent(), s.sent, s.queue);
    } else {
      assert s.sent + [] == s.sent;
    }
  }

  /** After a rollback it is as if nothing had been queued. */
  lemma ClearArrives(s: State)
    requires Inv(s)
    ensures Committed(Clear(s)) == Committed(s) == Heard(Clear(s)) && Clear(s).slots == s.olds
  {
  }

  // ----- every run -----

  datatype Op =
    | Add(id: int, window: nat)
    | Move(id: int, x: int, y: int)
    | Remove(id: int)
    | Commit
    | Rollback

  function Apply(s: State, op: Op): (r: State)
    requires Shape(s)
    ensures Shape(r)
  {
    match op
    case Add(id, window) => AddSlot(s, id, window)
    case Move(id, x, y) => MoveSlot(s, id, x, y)
    case Remove(id) => RemoveSlot(s, id)
    case Commit => Send(s)
    case Rollback => Clear(s)
  }

  function ApplyAll(s: State, ops: seq<Op>): (r: State)
    requires Shape(s)
    ensures Shape(r)
    decreases |ops|
  {
    if ops == [] then s else ApplyAll(Apply(s, ops[0]), ops[1..])
  }

  /** No add in the run gives a free slot to the id NONE. */
  ghost predicate Clean(s: State, ops: seq<Op>)
    requires Shape(s)
    decreases |ops|
  {
    ops == [] || (AddsContact(s, ops[0]) && Clean(Apply(s, ops[0]), ops[1..]))
  }

  predicate AddsContact(s: State, op: Op)
    requires Shape(s)
  {
    op.Add? ==> op.id != NONE || Find(s.slots, NONE, 0) == NONE
  }

  /** Over every run without such an add, however often NONE is added once no slot is free. */
  lemma {:induction false} RunInv(s: State, ops: seq<Op>)
    requires Inv(s) && Clean(s, ops)
    ensures Inv(ApplyAll(s, ops))
    decreases |ops|
  {
    if ops != [] {
      ApplyInv(s, ops[0]);
      RunInv(Apply(s, ops[0]), ops[1..]);
    }
  }

  lemma ApplyInv(s: State, op: Op)
    requires Inv(s)
    ensures Inv(Apply(s, op)) <==> AddsContact(s, op)
  {
    match op {
      case Add(id, window) => AddInv(s, id, window);
      case Move(id, x, y) => MoveInv(s, id, x, y);
      case Remove(id) => RemoveInv(s, id);
      case Commit => SendInv(s);
      case Rollback => ClearInv(s);
    }
  }

  /** The state agrees with the receiver all along a run. */
  ghost predicate AgreesThroughout(s: State, ops: seq<Op>)
    requires Shape(s)
    decreases |ops|
  {
    Inv(s) && (ops == [] || AgreesThroughout(Apply(s, ops[0]), ops[1..]))
  }

  /** It does exactly if the run is clean. */
  lemma {:induction false} AgreesIffClean(s: State, ops: seq<Op>)
    requires Inv(s)
    ensures AgreesThroughout(s, ops) <==> Clean(s, ops)
    decreases |ops|
  {
    if ops != [] {
      ApplyInv(s, ops[0]);
      if AddsContact(s, ops[0]) {
        AgreesIffClean(Apply(s, ops[0]), ops[1..]);
      }
    }
  }

  /** From the start, for every run. */
  lemma EveryRunAgreesIff(ops: seq<Op>)
    ensures AgreesThroughout(Init(), ops) <==> Clean(Init(), ops)
  {
    InitInv();
    AgreesIffClean(Init(), ops);
  }

  /** A single add under the id NONE is enough to break it. */
  lemma NoneBreaks(window: nat)
    ensures !Inv(AddSlot(Init(), NONE, window))
  {
    InitInv();
    AddInv(Init(), NONE, window);
    assert Init().slots[0].id == NONE;
  }

  lemma EveryRunAgrees(ops: seq<Op>)
    requires Clean(Init(), ops)
    ensures Inv(ApplyAll(Init(), ops))
  {
    InitInv();
    RunInv(Init(), ops);
  }

  // ----- struct rvgpu_input_state -----

  class InputState {
    const slots: array<Slot>
    const olds: array<Slot>
    var lastSlot: nat
    var oldSlot: nat
    var lastWindow: nat
    var oldWindow: nat
    var trackSeq: nat
    var queue: seq<Event>
    var out: seq<Event>

    ghost function Value(): State
      reads this, slots, olds
    {
      State(slots[..], olds[..], lastSlot, oldSlot, lastWindow, oldWindow, trackSeq, queue, out)
    }

    ghost predicate Valid()
      reads this, slots, olds
    {
      slots != olds && Shape(Value())
    }

    constructor ()
      ensures Valid() && Value() == Init() && fresh(slots) && fresh(olds)
    {
      slots, olds := new Slot[MAX_SLOTS](_ => Slot(NONE, 0, NONE, NONE)), new Slot[MAX_SLOTS](_ => Slot(NONE, 0, NONE, NONE));
      lastSlot, oldSlot, lastWindow, oldWindow, trackSeq := 0, 0, 0, 0, 0;
      queue, out := [], [];
      new;
      assert slots[..] == Init().slots && olds[..] == Init().olds;
    }

    method FindSlot(id: int) returns (slot: int)
      requires Valid()
      ensures slot == Find(slots[..], id, 0)
    {
      for i := 0 to MAX_SLOTS
        invariant Find(slots[..], id, 0) == Find(slots[..], id, i)
      {
        if slots[i].id == id {
          return i;
        }
      }
      return NONE;
    }

    /** rvgpu_in_events, as long as the queue grows. */
    method Events(events: seq<Event>)
      modifies this`queue
      ensures queue == old(queue) + events
    {
      queue := queue + events;
    }

    method Remove(id: int)
      requires Valid()
      modifies this`queue, this`lastSlot, slots
      ensures Valid() && Value() == RemoveSlot(old(Value()), id)
    {
      var slot := FindSlot(id);
      if slot != NONE {
        var events := [MtTracking(NONE), BtnTouch(false)];
        if lastSlot == slot {
          Events(events);
        } else {
          Events([MtSlot(slot)] + events);
          lastSlot := slot;
        }
        slots[slot] := slots[slot].(id := NONE, x := NONE, y := NONE);
      }
    }

    method Add(id: int, window: nat)
      requires Valid()
      modifies this`queue, this`lastSlot, this`lastWindow, this`trackSeq, slots
      ensures Valid() && Value() == AddSlot(old(Value()), id, window)
    {
      var slot := FindSlot(id);
      var track := trackSeq % 0x1_0000;
      trackSeq := trackSeq + 1;
      if slot != NONE {
        Remove(id);
      }
      ghost var kept := Value();
      assert kept == Cleared(old(Value()), id).(trackSeq := old(trackSeq) + 1);
      PutDown(id, window, track, kept);
    }

    /** The rest of it, once the id is not in use. */
    method PutDown(id: int, window: nat, track: nat, ghost t: State)
      requires Valid() && Value() == t
      modifies this`queue, this`lastSlot, this`lastWindow, slots
      ensures Valid() && Value() == PutInto(t, id, window, track)
    {
      var slot := FindSlot(NONE);
      if slot == NONE {
        return;
      }
      slots[slot] := slots[slot].(id := id, window := window);
      var events := [MtSlot(slot), MtTracking(track), BtnTouch(true)];
      if lastWindow == window {
        Events(events);
      } else {
        Events([AbsMisc(window)] + events);
      }
      lastSlot := slot;
      lastWindow := window;
    }

    method Move(id: int, x: int, y: int)
      requires Valid()
      modifies this`queue, this`lastSlot, this`lastWindow, slots
      ensures Valid() && Value() == MoveSlot(old(Value()), id, x, y)
    {
      var slot := FindSlot(id);
      if slot == NONE {
        return;
      }
      var c := slots[slot];
      if x != c.x || y != c.y {
        if lastWindow != c.window {
          Events([AbsMisc(c.window)]);
          lastWindow := c.window;
        }
        ghost var q1 := old(queue) + If(old(lastWindow) != c.window, AbsMisc(c.window));
        assert queue == q1;
        if lastSlot != slot {
          Events([MtSlot(slot)]);
          lastSlot := slot;
        }
        ghost var q2 := q1 + If(old(lastSlot) != slot, MtSlot(slot));
        assert queue == q2;
        MovePosition(slot, x, y);
      }
    }

    method MovePosition(slot: nat, x: int, y: int)
      requires Valid() && slot < MAX_SLOTS
      modifies this`queue, slots
      ensures var c := old(slots[slot]);
              && queue == old(queue) + If(c.x != x, MtX(x)) + If(c.y != y, MtY(y))
              && slots[..] == old(slots[..])[slot := c.(x := x, y := y)]
    {
      var c := slots[slot];
      if c.x != x {
        Events([MtX(x)]);
        slots[slot] := slots[slot].(x := x);
      }
      if c.y != y {
        Events([MtY(y)]);
        slots[slot] := slots[slot].(y := y);
      }
    }

    method SendQueue()
      requires Valid()
      modifies this`out, this`queue, this`oldSlot, this`oldWindow, olds
      ensures Valid() && Value() == Send(old(Value()))
    {
      if |queue| != 0 {
        Events([Report]);
        out := out + queue;
      }
      queue := [];
      forall i | 0 <= i < MAX_SLOTS {
        olds[i] := slots[i];
      }
      assert olds[..] == slots[..];
      oldSlot, oldWindow := lastSlot, lastWindow;
    }

    method ClearQueue()
      requires Valid()
      modifies this`queue, this`lastSlot, this`lastWindow, slots
      ensures Valid() && Value() == Clear(old(Value()))
    {
      queue := [];
      lastSlot, lastWindow := oldSlot, oldWindow;
      forall i | 0 <= i < MAX_SLOTS {
        slots[i] := olds[i];
      }
      assert slots[..] == olds[..];
    }
  }
}

/**
 The slots of the emulated touchscreen, shared by the touch sources
 (src/rvgpu-proxy/gpu/rvgpu-input-device.c). get_slot asserts that a slot can always be found;
 this holds exactly as long as the sources together have no more slots than the touchscreen.
 */
module SlotTable {
  import opened Pigeonhole

  const N := 64   // TOUCH_MAX_SLOTS
  const FREE := -1

  /** struct input_slot */
  datatype Entry = Entry(src: int, slot: nat)

  /** What touch_translate makes of an ABS event, as far as the slots go. */
  datatype Event = SetSlot(src: nat, slot: nat) | EndContact(src: nat) | Position(src: nat)

  datatype State = State(slots: seq<Entry>, srcSlots: map<nat, nat>)

  function SrcSlot(s: State, src: nat): nat {
    if src in s.srcSlots then s.srcSlots[src] else 0
  }

  /** The first slot from i on that holds e, or with FREE in src a free one; |slots| if there is none. */
  function Holding(slots: seq<Entry>, e: Entry, i: nat): (r: nat)
    requires i <= |slots|
    ensures i <= r <= |slots|
    ensures r < |slots| ==> slots[r] == e
    ensures forall j :: i <= j < r ==> slots[j] != e
    decreases |slots| - i
  {
    if i == |slots| || slots[i] == e then i else Holding(slots, e, i + 1)
  }

  function Unused(slots: seq<Entry>, i: nat): (r: nat)
    requires i <= |slots|
    ensures i <= r <= |slots|
    ensures r < |slots| ==> slots[r].src == FREE
    ensures forall j :: i <= j < r ==> slots[j].src != FREE
    decreases |slots| - i
  {
    if i == |slots| || slots[i].src == FREE then i else Unused(slots, i + 1)
  }

  /** The slot get_slot returns; |slots| when its assertion fails. */
  function Chosen(slots: seq<Entry>, e: Entry): nat {
    if Holding(slots, e, 0) < |slots| then Holding(slots, e, 0) else Unused(slots, 0)
  }

  function Wanted(s: State, ev: Event): Entry {
    match ev
    case SetSlot(src, slot) => Entry(src, slot)
    case EndContact(src) => Entry(src, SrcSlot(s, src))
    case Position(src) => Entry(src, SrcSlot(s, src))
  }

  predicate Succeeds(s: State, ev: Event) {
    Chosen(s.slots, Wanted(s, ev)) < |s.slots|
  }

  function Step(s: State, ev: Event): State
    requires Succeeds(s, ev)
  {
    var e := Wanted(s, ev);
    var i := Chosen(s.slots, e);
    var got := State(s.slots[i := e], s.srcSlots[ev.src := e.slot]);
    if ev.EndContact? then got.(slots := got.slots[i := e.(src := FREE)]) else got
  }

  function Init(): State {
    State(seq(N, i => Entry(FREE, 0)), map[])
  }

  /** The events are from sources below s, each with slots below k. */
  predicate From(ev: Event, s: nat, k: nat) {
    ev.src < s && (ev.SetSlot? ==> ev.slot < k)
  }

  ghost predicate AssertionHolds(s: State, run: seq<Event>)
    decreases |run|
  {
    run == [] || (Succeeds(s, run[0]) && AssertionHolds(Step(s, run[0]), run[1..]))
  }

  // ----- no two slots for one contact -----

  ghost predicate Inv(st: State, s: nat, k: nat) {
    && |st.slots| == N
    && (forall i :: 0 <= i < N && st.slots[i].src != FREE ==> 0 <= st.slots[i].src < s && st.slots[i].slot < k)
    && (forall i, j :: 0 <= i < j < N && st.slots[i].src != FREE ==> st.slots[i] != st.slots[j])
    && (forall src <- st.srcSlots :: st.srcSlots[src] < k)
  }

  lemma StepInv(st: State, ev: Event, s: nat, k: nat)
    requires 0 < k && Inv(st, s, k) && From(ev, s, k) && Succeeds(st, ev)
    ensures Inv(Step(st, ev), s, k)
  {
  }

  // ----- the table holds the contacts in use -----

  /** What the events alone say: which contacts were named since they last ended, and the slot each source is at. */
  datatype Fingers = Fingers(down: set<Entry>, at: map<nat, nat>)

  function Named(f: Fingers, ev: Event): Entry {
    Entry(ev.src, if ev.SetSlot? then ev.slot else if ev.src in f.at then f.at[ev.src] else 0)
  }

  function Follow(f: Fingers, ev: Event): Fingers {
    var e := Named(f, ev);
    Fingers(if ev.EndContact? then f.down - {e} else f.down + {e}, f.at[ev.src := e.slot])
  }

  /** At each event of the run its contact is in use, or fewer than 64 are. */
  ghost predicate Fits(f: Fingers, run: seq<Event>)
    decreases |run|
  {
    run == [] || ((Named(f, run[0]) in f.down || |f.down| < 64) && Fits(Follow(f, run[0]), run[1..]))
  }

  function Occupied(slots: seq<Entry>): set<Entry> {
    set e <- slots | e.src != FREE
  }

  /** No contact has two slots. */
  ghost predicate Tidy(slots: seq<Entry>) {
    forall i, j :: 0 <= i < j < |slots| && slots[i].src != FREE ==> slots[i] != slots[j]
  }

  ghost predicate Holds(st: State, f: Fingers) {
    |st.slots| == N && Tidy(st.slots) && Occupied(st.slots) == f.down && st.srcSlots == f.at
  }

  lemma OccupiedSnoc(slots: seq<Entry>, e: Entry)
    requires Tidy(slots + [e])
    ensures Tidy(slots)
    ensures e.src == FREE ==> Occupied(slots + [e]) == Occupied(slots)
    ensures e.src != FREE ==> Occupied(slots + [e]) == Occupied(slots) + {e} && e !in Occupied(slots)
  {
    var all := slots + [e];
    assert forall x :: x in all <==> x in slots || x == e;
    forall i, j | 0 <= i < j < |slots| && slots[i].src != FREE
      ensures slots[i] != slots[j]
    {
      assert all[i] != all[j];
    }
    if e in slots {
      var i :| 0 <= i < |slots| && slots[i] == e;
      assert all[i] == all[|slots|];
    }
  }

  predicate Full(slots: seq<Entry>) {
    forall i :: 0 <= i < |slots| ==> slots[i].src != FREE
  }

  lemma FullSnoc(slots: seq<Entry>, e: Entry)
    ensures Full(slots + [e]) <==> Full(slots) && e.src != FREE
  {
    var all := slots + [e];
    if Full(all) {
      assert all[|slots|] == e && forall i :: 0 <= i < |slots| ==> slots[i] == all[i];
    }
  }

  /** A table without a free slot holds as many contacts as it has slots, and only such a one does. */
  lemma {:induction false} OccupiedCount(slots: seq<Entry>)
    requires Tidy(slots)
    ensures |Occupied(slots)| <= |slots| && (|Occupied(slots)| == |slots| <==> Full(slots))
  {
    if slots != [] {
      hide Occupied, Tidy, Full;
      var n := |slots| - 1;
      assert slots == slots[..n] + [slots[n]];
      OccupiedSnoc(slots[..n], slots[n]);
      FullSnoc(slots[..n], slots[n]);
      OccupiedCount(slots[..n]);
    }
  }

  /** The assertion of get_slot fails exactly if 64 other contacts are in use. */
  lemma SucceedsIff(st: State, f: Fingers, ev: Event)
    requires Holds(st, f)
    ensures Succeeds(st, ev) <==> Named(f, ev) in f.down || |f.down| < 64
    ensures |f.down| <= 64
  {
    var e := Wanted(st, ev);
    OccupiedCount(st.slots);
    assert e.src != FREE;
    if e in f.down {
      var i :| 0 <= i < N && st.slots[i] == e;
    }
    if |f.down| < N {
      var i :| 0 <= i < N && st.slots[i].src == FREE;
    }
  }

  /** An event puts its contact into the table or, when it ends it, takes it out, and leaves every other in its slot. */
  lemma StepHolds(st: State, f: Fingers, ev: Event)
    requires Holds(st, f) && Succeeds(st, ev)
    ensures Holds(Step(st, ev), Follow(f, ev))
    ensures forall i :: 0 <= i < N && st.slots[i].src != FREE && st.slots[i] != Named(f, ev) ==>
              Step(st, ev).slots[i] == st.slots[i]
  {
    var e, after := Wanted(st, ev), Step(st, ev).slots;
    var i := Chosen(st.slots, e);
    assert st.slots[i] == e || st.slots[i].src == FREE;
    StepOccupied(st.slots, i, e, if ev.EndContact? then e.(src := FREE) else e);
    assert after == st.slots[i := if ev.EndContact? then e.(src := FREE) else e];
  }

  lemma StepOccupied(slots: seq<Entry>, i: nat, e: Entry, put: Entry)
    requires i < |slots| && Tidy(slots) && e.src != FREE && (put == e || put.src == FREE)
    requires slots[i] == e || (slots[i].src == FREE && e !in slots)
    ensures var after := slots[i := put];
            && Tidy(after)
            && Occupied(after) == if put == e then Occupied(slots) + {e} else Occupied(slots) - {e}
  {
    var after := slots[i := put];
    forall x: Entry | x.src != FREE
      ensures x in after <==> if x == e then put == e else x in slots
    {
      if x in slots {
        var j :| 0 <= j < |slots| && slots[j] == x;
        assert x != e ==> after[j] == x;
      }
      if x in after {
        var j :| 0 <= j < |slots| && after[j] == x;
        assert j != i ==> slots[j] == x;
      }
      assert after[i] == put;
    }
  }

  /** So over every run: the assertion holds exactly while the contacts in use fit, and the table holds just them. */
  lemma {:induction false} RunHolds(st: State, f: Fingers, run: seq<Event>)
    requires Holds(st, f)
    ensures AssertionHolds(st, run) <==> Fits(f, run)
    decreases |run|
  {
    if run != [] {
      SucceedsIff(st, f, run[0]);
      if Succeeds(st, run[0]) {
        StepHolds(st, f, run[0]);
        RunHolds(Step(st, run[0]), Follow(f, run[0]), run[1..]);
      }
    }
  }

  /** From the start nothing is in use. */
  lemma InitHolds()
    ensures Holds(Init(), Fingers({}, map[]))
  {
  }

  /** A contact that has ended leaves its slot to the next. */
  lemma EndFrees(st: State, f: Fingers, src: nat)
    requires Holds(st, f) && Succeeds(st, EndContact(src))
    ensures var after := Follow(f, EndContact(src));
            && |after.down| < 64 && Named(f, EndContact(src)) !in after.down
            && forall ev :: Succeeds(Step(st, EndContact(src)), ev)
  {
    var ev := EndContact(src);
    StepHolds(st, f, ev);
    OccupiedCount(Step(st, ev).slots);
    assert Step(st, ev).slots[Chosen(st.slots, Wanted(st, ev))].src == FREE;
    forall next
      ensures Succeeds(Step(st, ev), next)
    {
      SucceedsIff(Step(st, ev), Follow(f, ev), next);
    }
  }

  // ----- pigeonhole -----

  function Code(e: Entry, k: nat): int {
    e.src * k + e.slot
  }

  lemma CodeInjective(e: Entry, f: Entry, k: nat)
    requires 0 <= e.src && 0 <= f.src && e.slot < k && f.slot < k && Code(e, k) == Code(f, k)
    ensures e == f
  {
    if e.src < f.src {
      Rows(e.src, f.src, k);
    } else if f.src < e.src {
      Rows(f.src, e.src, k);
    }
  }

  lemma Rows(a: nat, b: nat, k: nat)
    requires a < b
    ensures a * k + k <= b * k
  {
    assert b * k == a * k + (b - a) * k;
    assert (b - a) * k == k + (b - a - 1) * k;
  }

  lemma CodeBelow(e: Entry, s: nat, k: nat)
    requires 0 <= e.src < s && e.slot < k
    ensures 0 <= Code(e, k) < s * k
  {
    Rows(e.src, s, k);
  }

  lemma DistinctEntries(all: seq<Entry>, s: nat, k: nat)
    requires forall e <- all :: 0 <= e.src < s && e.slot < k
    requires forall i, j :: 0 <= i < j < |all| ==> all[i] != all[j]
    ensures |all| <= s * k
  {
    var codes := seq(|all|, i requires 0 <= i < |all| => Code(all[i], k));
    forall i, j | 0 <= i < j < |all|
      ensures codes[i] != codes[j]
    {
      if codes[i] == codes[j] {
        CodeInjective(all[i], all[j], k);
      }
    }
    forall i | 0 <= i < |codes|
      ensures 0 <= codes[i] < s * k
    {
      CodeBelow(all[i], s, k);
    }
    DistinctFit(codes, s * k);
  }

  /** A full table holds N different contacts, so one more means more than N contacts there can be. */
  lemma FullTable(st: State, e: Entry, s: nat, k: nat)
    requires Inv(st, s, k) && 0 <= e.src < s && e.slot < k
    requires forall i :: 0 <= i < N ==> st.slots[i].src != FREE && st.slots[i] != e
    ensures N < s * k
  {
    DistinctEntries(st.slots + [e], s, k);
  }

  lemma NoneLeft(st: State, ev: Event, s: nat, k: nat)
    requires 0 < k && Inv(st, s, k) && From(ev, s, k) && !Succeeds(st, ev)
    ensures N < s * k
  {
    assert 0 <= Wanted(st, ev).src < s && Wanted(st, ev).slot < k;
    FullTable(st, Wanted(st, ev), s, k);
  }

  lemma {:induction false} HoldsWhenFew(st: State, run: seq<Event>, s: nat, k: nat)
    requires 0 < k && s * k <= N && Inv(st, s, k)
    requires forall ev <- run :: From(ev, s, k)
    ensures AssertionHolds(st, run)
    decreases |run|
  {
    if run != [] {
      assert run[0] in run && forall ev <- run[1..] :: ev in run;
      if !Succeeds(st, run[0]) {
        NoneLeft(st, run[0], s, k);
      }
      StepInv(st, run[0], s, k);
      HoldsWhenFew(Step(st, run[0]), run[1..], s, k);
    }
  }

  // ----- and when there are more -----

  /** The contacts of sources with k slots each, numbered. */
  function Nth(k: nat, n: nat): (e: Entry)
    requires 0 < k
    ensures e.src >= 0 && e.slot < k
  {
    Entry(n / k, n % k)
  }

  /** Every contact there can be puts a finger down, one after the other. */
  function AllDown(k: nat, first: nat, last: nat): seq<Event>
    requires 0 < k && first <= last
    decreases last - first
  {
    if first == last then [] else [Down(k, first)] + AllDown(k, first + 1, last)
  }

  function Down(k: nat, n: nat): Event
    requires 0 < k
  {
    SetSlot(Nth(k, n).src, Nth(k, n).slot)
  }

  ghost predicate Filled(st: State, k: nat, n: nat)
    requires 0 < k
  {
    && n <= |st.slots| == N
    && (forall i :: 0 <= i < n ==> st.slots[i] == Nth(k, i))
    && (forall i :: n <= i < N ==> st.slots[i].src == FREE)
  }

  lemma NthDiffer(i: nat, n: nat, k: nat)
    requires 0 < k && i != n
    ensures Nth(k, i) != Nth(k, n)
  {
    assert i == k * (i / k) + i % k && n == k * (n / k) + n % k;
  }

  lemma NextDown(st: State, k: nat, n: nat)
    requires 0 < k && Filled(st, k, n)
    ensures n == N ==> !Succeeds(st, Down(k, n))
    ensures n < N ==> Succeeds(st, Down(k, n)) && Filled(Step(st, Down(k, n)), k, n + 1)
  {
    forall i | 0 <= i < n
      ensures st.slots[i] != Nth(k, n)
    {
      NthDiffer(i, n, k);
    }
    assert Holding(st.slots, Nth(k, n), 0) == N;
    var r := Unused(st.slots, 0);
    assert r < n ==> st.slots[r] == Nth(k, r);
    if n < N {
      assert st.slots[n].src == FREE;
    }
  }

  lemma {:induction false} FailsWhenMany(st: State, k: nat, n: nat)
    requires 0 < k && Filled(st, k, n)
    ensures !AssertionHolds(st, AllDown(k, n, N + 1))
    decreases N - n
  {
    var ev, rest := Down(k, n), AllDown(k, n + 1, N + 1);
    assert AllDown(k, n, N + 1) == [ev] + rest;
    NextDown(st, k, n);
    if n < N {
      FailsWhenMany(Step(st, ev), k, n + 1);
    }
  }

  lemma Quotient(x: nat, s: nat, k: nat)
    requires 0 < k && x < s * k
    ensures x / k < s
  {
  }

  lemma {:induction false} AllDownFrom(s: nat, k: nat, first: nat, last: nat)
    requires 0 < k && first <= last <= s * k
    ensures forall ev <- AllDown(k, first, last) :: From(ev, s, k)
    decreases last - first
  {
    if first < last {
      AllDownFrom(s, k, first + 1, last);
      Quotient(first, s, k);
    }
  }

  /** With s sources of k slots each, the assertion in get_slot holds in every run exactly if s * k <= 64. The proxy
      accepts 16 sources, and each encoder uses 16 slots: 256. */
  lemma AssertionHoldsIff(s: nat, k: nat)
    requires 0 < k
    ensures (forall run :: (forall ev <- run :: From(ev, s, k)) ==> AssertionHolds(Init(), run)) <==> s * k <= N
  {
    if s * k <= N {
      forall run: seq<Event> | forall ev <- run :: From(ev, s, k)
        ensures AssertionHolds(Init(), run)
      {
        HoldsWhenFew(Init(), run, s, k);
      }
    } else {
      AllDownFrom(s, k, 0, N + 1);
      FailsWhenMany(Init(), k, 0);
    }
  }

  // ----- struct input_device -----

  class InputDevice {
    const slots: array<Entry>
    var srcSlots: map<nat, nat>

    ghost function Value(): State
      reads this, slots
    {
      State(slots[..], srcSlots)
    }

    constructor ()
      ensures slots.Length == N && fresh(slots) && Value() == Init()
    {
      slots := new Entry[N](_ => Entry(FREE, 0));
      srcSlots := map[];
      new;
      assert slots[..] == Init().slots;
    }

    /** ok is what the assertion of get_slot checks. */
    method GetSlot(src: nat, srcSlot: nat) returns (ok: bool, slot: nat)
      modifies this`srcSlots, slots
      ensures slot == Chosen(old(slots[..]), Entry(src, srcSlot)) && ok == (slot < slots.Length)
      ensures srcSlots == old(srcSlots)[src := srcSlot]
      ensures slots[..] == if ok then old(slots[..])[slot := Entry(src, srcSlot)] else old(slots[..])
    {
      var firstFree := slots.Length;
      srcSlots := srcSlots[src := srcSlot];
      for i := 0 to slots.Length
        invariant slots[..] == old(slots[..]) && srcSlots == old(srcSlots)[src := srcSlot]
        invariant Holding(slots[..], Entry(src, srcSlot), 0) == Holding(slots[..], Entry(src, srcSlot), i)
        invariant firstFree < slots.Length ==> Unused(slots[..], 0) == firstFree
        invariant firstFree == slots.Length ==> Unused(slots[..], 0) == Unused(slots[..], i)
        invariant firstFree <= slots.Length
      {
        if slots[i] == Entry(src, srcSlot) {
          return true, i;
        }
        if firstFree == slots.Length && slots[i].src == FREE {
          firstFree := i;
        }
      }
      ok, slot := firstFree < slots.Length, firstFree;
      if ok {
        slots[slot] := Entry(src, srcSlot);
      }
    }

    /** touch_translate, as far as the slots go. */
    method Translate(ev: Event) returns (ok: bool)
      requires slots.Length == N
      modifies this`srcSlots, slots
      ensures ok == Succeeds(old(Value()), ev)
      ensures ok ==> Value() == Step(old(Value()), ev)
    {
      var slot: nat;
      if ev.SetSlot? {
        ok, slot := GetSlot(ev.src, ev.slot);
      } else {
        ok, slot := GetSlot(ev.src, if ev.src in srcSlots then srcSlots[ev.src] else 0);
      }
      if ok && ev.EndContact? {
        slots[slot] := slots[slot].(src := FREE);
      }
    }
  }
}

/**
 The layout list: add_layout_surfaces and remove_layout_surfaces in
 src/rvgpu-renderer/compositor/rvgpu-compositor.c over the array helpers in
 src/rvgpu-renderer/compositor/rvgpu-json-helpers.c.
 */
module Layout {
  import opened Bytes

  /** The member "id" of a JSON object: an integer of 64 bits, a real number truncated to an int, or nothing usable. */
  datatype Id = Int(n: int) | Real(n: int) | Missing

  datatype Entry = Entry(id: Id, surface: nat)

  datatype Order = Append | Prepend | Before | After

  /** What is left of a json_int_t in an int. */
  function Narrow(n: int): (r: int)
    ensures InRange(r) && (r - n) % 0x1_0000_0000 == 0
    ensures r == n <==> InRange(n)
  {
    var low := n % 0x1_0000_0000;
    if low < 0x8000_0000 then low else low - 0x1_0000_0000
  }

  predicate InRange(n: int) {
    -0x8000_0000 <= n < 0x8000_0000
  }

  /** get_int_from_jsonobj, which narrows */
  function Key(e: Entry): Option<int> {
    match e.id
    case Int(n) => Some(Narrow(n))
    case Real(n) => Some(n)
    case Missing => None
  }

  /** json_integer_value, which does not narrow, and is 0 for whatever is not an integer. */
  function IntegerValue(e: Entry): int {
    if e.id.Int? then e.id.n else 0
  }

  // ----- what the two operations do -----

  /** The entries of a request that are inserted: those that do not name the reference. */
  function Accepted(request: seq<Entry>, ref: int): seq<Entry>
  {
    if request == [] then []
    else if Key(request[0]) == Some(ref) then Accepted(request[1..], ref)
    else [request[0]] + Accepted(request[1..], ref)
  }

  /** The ids a request names. */
  function Ids(request: seq<Entry>): seq<int>
  {
    if request == [] then []
    else if Key(request[0]).None? then Ids(request[1..])
    else [Key(request[0]).value] + Ids(request[1..])
  }

  /** What is left of a list when the entries with one of the ids are removed. */
  function Kept(list: seq<Entry>, ids: seq<int>): seq<Entry>
  {
    if list == [] then []
    else if IntegerValue(list[0]) in ids then Kept(list[1..], ids)
    else [list[0]] + Kept(list[1..], ids)
  }

  /** The first entry from i on with the key ref, or |list|. */
  function Position(list: seq<Entry>, ref: int, i: nat): (r: nat)
    requires i <= |list|
    ensures i <= r <= |list|
    ensures r < |list| ==> Key(list[r]) == Some(ref)
    ensures forall j :: i <= j < r ==> Key(list[j]) != Some(ref)
    decreases |list| - i
  {
    if i == |list| || Key(list[i]) == Some(ref) then i else Position(list, ref, i + 1)
  }

  function Target(list: seq<Entry>, order: Order, ref: int): (t: nat)
    ensures t <= |list|
  {
    match order
    case Append => |list|
    case Prepend => 0
    case Before => Position(list, ref, 0)
    case After =>
      var p := Position(list, ref, 0);
      if p < |list| then p + 1 else p
  }

  function Reversed(a: seq<Entry>): (r: seq<Entry>)
    ensures |r| == |a| && forall i :: 0 <= i < |a| ==> r[i] == a[|a| - 1 - i]
  {
    if a == [] then [] else Reversed(a[1..]) + [a[0]]
  }

  function AddSurfaces(list: seq<Entry>, request: seq<Entry>, order: Order, ref: int): seq<Entry> {
    var accepted := Accepted(request, ref);
    var kept := Kept(list, Ids(accepted));
    var t := Target(kept, order, ref);
    Inserted(kept, t, Reversed(accepted))
  }

  function RemoveSurfaces(list: seq<Entry>, request: seq<Entry>): seq<Entry> {
    Kept(list, Ids(request))
  }

  // ----- what this means for the list -----

  lemma {:induction false} KeptMembers(list: seq<Entry>, ids: seq<int>)
    ensures forall e :: e in Kept(list, ids) <==> e in list && IntegerValue(e) !in ids
  {
    if list != [] {
      KeptMembers(list[1..], ids);
      assert forall e :: e in list <==> e == list[0] || e in list[1..];
    }
  }

  lemma {:induction false} AcceptedMembers(request: seq<Entry>, ref: int)
    ensures forall e :: e in Accepted(request, ref) <==> e in request && Key(e) != Some(ref)
  {
    if request != [] {
      AcceptedMembers(request[1..], ref);
      assert forall e :: e in request <==> e == request[0] || e in request[1..];
    }
  }

  lemma {:induction false} AcceptedIds(request: seq<Entry>, ref: int, k: int)
    ensures k in Ids(Accepted(request, ref)) <==> k in Ids(request) && k != ref
  {
    if request != [] {
      AcceptedIds(request[1..], ref, k);
    }
  }

  lemma {:induction false} KeptAppend(a: seq<Entry>, b: seq<Entry>, ids: seq<int>)
    ensures Kept(a + b, ids) == Kept(a, ids) + Kept(b, ids)
  {
    if a == [] {
      assert a + b == b;
    } else {
      assert (a + b)[1..] == a[1..] + b;
      KeptAppend(a[1..], b, ids);
    }
  }

  function Inserted(kept: seq<Entry>, t: nat, block: seq<Entry>): (r: seq<Entry>)
    requires t <= |kept|
    ensures |r| == |kept| + |block| && r[t..t + |block|] == block
    ensures forall p :: 0 <= p < |kept| ==> r[if p < t then p else p + |block|] == kept[p]
  {
    kept[..t] + block + kept[t..]
  }

  /** Two entries that are kept, in the order they were. */
  lemma KeptOrder(list: seq<Entry>, ids: seq<int>, i: nat, j: nat) returns (p: nat, q: nat)
    requires i < j < |list| && IntegerValue(list[i]) !in ids && IntegerValue(list[j]) !in ids
    ensures p < q < |Kept(list, ids)| && Kept(list, ids)[p] == list[i] && Kept(list, ids)[q] == list[j]
  {
    assert list == list[..j] + list[j..];
    KeptAppend(list[..j], list[j..], ids);
    q := |Kept(list[..j], ids)|;
    p := KeptPlace(list[..j], ids, i);
  }

  lemma KeptPlace(list: seq<Entry>, ids: seq<int>, i: nat) returns (p: nat)
    requires i < |list| && IntegerValue(list[i]) !in ids
    ensures p < |Kept(list, ids)| && Kept(list, ids)[p] == list[i]
  {
    KeptMembers(list, ids);
    assert list[i] in Kept(list, ids);
    p :| p < |Kept(list, ids)| && Kept(list, ids)[p] == list[i];
  }

  /** Surfaces not named keep their relative order. */
  lemma OrderKept(list: seq<Entry>, request: seq<Entry>, order: Order, ref: int, i: nat, j: nat)
    requires i < j < |list|
    requires var ids := Ids(Accepted(request, ref)); IntegerValue(list[i]) !in ids && IntegerValue(list[j]) !in ids
    ensures var r := AddSurfaces(list, request, order, ref);
            exists p, q :: 0 <= p < q < |r| && r[p] == list[i] && r[q] == list[j]
  {
    var accepted := Accepted(request, ref);
    var kept := Kept(list, Ids(accepted));
    var t := Target(kept, order, ref);
    var p, q := KeptOrder(list, Ids(accepted), i, j);
    InsertedOrder(kept, t, Reversed(accepted), p, q);
    var r := AddSurfaces(list, request, order, ref);
    assert r == Inserted(kept, t, Reversed(accepted));
    var p', q' :| 0 <= p' < q' < |r| && r[p'] == kept[p] && r[q'] == kept[q];
  }

  lemma InsertedOrder(kept: seq<Entry>, t: nat, block: seq<Entry>, p: nat, q: nat)
    requires p < q < |kept| && t <= |kept|
    ensures var r := Inserted(kept, t, block);
            exists p', q' :: 0 <= p' < q' < |r| && r[p'] == kept[p] && r[q'] == kept[q]
  {
    var r := Inserted(kept, t, block);
    var p', q' := if p < t then p else p + |block|, if q < t then q else q + |block|;
    assert r[p'] == kept[p] && r[q'] == kept[q];
  }

  /** The reference is in the list, and not as a real number, which the removal takes for id 0, when 0 is added. */
  ghost predicate HasReference(list: seq<Entry>, request: seq<Entry>, ref: int) {
    exists e <- list :: Key(e) == Some(ref) && (e.id.Real? ==> 0 !in Ids(Accepted(request, ref)))
  }

  /** Exactly then it is still there when the named ids are removed. */
  lemma ReferenceKept(list: seq<Entry>, request: seq<Entry>, ref: int)
    requires forall e <- request :: e.id.Real? ==> InRange(e.id.n)
    ensures (exists e <- Kept(list, Ids(Accepted(request, ref))) :: Key(e) == Some(ref))
            <==> HasReference(list, request, ref)
  {
    var ids := Ids(Accepted(request, ref));
    AcceptedMembers(request, ref);
    IdsInRange(Accepted(request, ref));
    AcceptedIds(request, ref, ref);
    KeptMembers(list, ids);
    forall e <- list | Key(e) == Some(ref)
      ensures e in Kept(list, ids) <==> e.id.Real? ==> 0 !in ids
    {
    }
  }

  /** With the reference in the list, the block is next to it. */
  lemma NextToReference(list: seq<Entry>, request: seq<Entry>, order: Order, ref: int)
    requires order.Before? || order.After?
    requires forall e <- request :: e.id.Real? ==> InRange(e.id.n)
    requires HasReference(list, request, ref)
    ensures var r, n := AddSurfaces(list, request, order, ref), |Accepted(request, ref)|;
            var t := Target(Kept(list, Ids(Accepted(request, ref))), order, ref);
            && t + n <= |r| && r[t..t + n] == Reversed(Accepted(request, ref))
            && (order.Before? ==> t + n < |r| && Key(r[t + n]) == Some(ref))
            && (order.After? ==> t > 0 && Key(r[t - 1]) == Some(ref))
  {
    hide *;
    ReferenceKept(list, request, ref);
    BlockAt(Kept(list, Ids(Accepted(request, ref))), Accepted(request, ref), order, ref);
    Added(list, request, order, ref);
  }

  lemma Added(list: seq<Entry>, request: seq<Entry>, order: Order, ref: int)
    ensures var accepted := Accepted(request, ref);
            var kept := Kept(list, Ids(accepted));
            AddSurfaces(list, request, order, ref) == Inserted(kept, Target(kept, order, ref), Reversed(accepted))
  {
  }

  lemma BlockAt(kept: seq<Entry>, accepted: seq<Entry>, order: Order, ref: int)
    requires order.Before? || order.After?
    requires exists e <- kept :: Key(e) == Some(ref)
    ensures var t, n := Target(kept, order, ref), |accepted|;
            var r := Inserted(kept, t, Reversed(accepted));
            && t + n <= |r| && r[t..t + n] == Reversed(accepted)
            && (order.Before? ==> t + n < |r| && Key(r[t + n]) == Some(ref))
            && (order.After? ==> t > 0 && Key(r[t - 1]) == Some(ref))
  {
    var at, t := Position(kept, ref, 0), Target(kept, order, ref);
    assert at < |kept|;
    assert Inserted(kept, t, Reversed(accepted))[if at < t then at else at + |accepted|] == kept[at];
  }

  /** An appended block ends the list and a prepended one starts it, what was kept before or behind it; a block whose
      reference is not there is appended. */
  lemma BlockEnds(list: seq<Entry>, request: seq<Entry>, order: Order, ref: int)
    requires forall e <- request :: e.id.Real? ==> InRange(e.id.n)
    ensures var r, block := AddSurfaces(list, request, order, ref), Reversed(Accepted(request, ref));
            var kept := Kept(list, Ids(Accepted(request, ref)));
            && (order.Prepend? ==> r == block + kept)
            && (order.Append? ==> r == kept + block)
            && ((order.Before? || order.After?) && !HasReference(list, request, ref) ==> r == kept + block)
  {
    hide HasReference, Accepted, Ids, Kept, Reversed, Inserted, Position;
    var accepted := Accepted(request, ref);
    var kept := Kept(list, Ids(accepted));
    ReferenceKept(list, request, ref);
    Added(list, request, order, ref);
    InsertedEnds(kept, Reversed(accepted));
    Absent(kept, ref);
  }

  lemma InsertedEnds(kept: seq<Entry>, block: seq<Entry>)
    ensures Inserted(kept, 0, block) == block + kept && Inserted(kept, |kept|, block) == kept + block
  {
  }

  lemma Absent(kept: seq<Entry>, ref: int)
    ensures Position(kept, ref, 0) == |kept| || exists e <- kept :: Key(e) == Some(ref)
  {
    var at := Position(kept, ref, 0);
    if at < |kept| {
      assert kept[at] in kept;
    }
  }

  /** Of the request only what names the reference is dropped, and the rest keeps its order. */
  lemma {:induction false} AcceptedPlace(request: seq<Entry>, ref: int, i: nat)
    requires i < |request| && Key(request[i]) != Some(ref)
    ensures |Accepted(request[..i], ref)| < |Accepted(request, ref)|
    ensures Accepted(request, ref)[|Accepted(request[..i], ref)|] == request[i]
    decreases |request|
  {
    if i > 0 {
      AcceptedPlace(request[1..], ref, i - 1);
      assert request[..i][1..] == request[1..][..i - 1] && request[..i][0] == request[0];
    } else {
      assert request[..0] == [];
    }
  }

  /** Surfaces that are not removed keep their relative order. */
  lemma RemovalOrder(list: seq<Entry>, request: seq<Entry>, i: nat, j: nat)
    requires i < j < |list| && IntegerValue(list[i]) !in Ids(request) && IntegerValue(list[j]) !in Ids(request)
    ensures var r := RemoveSurfaces(list, request);
            exists p, q :: 0 <= p < q < |r| && r[p] == list[i] && r[q] == list[j]
  {
    var p, q := KeptOrder(list, Ids(request), i, j);
    var r := RemoveSurfaces(list, request);
    assert r[p] == list[i] && r[q] == list[j];
  }

  function Occurs(a: seq<Entry>, k: int): nat {
    if a == [] then 0 else (if Key(a[0]) == Some(k) then 1 else 0) + Occurs(a[1..], k)
  }

  /** How often the very id is in the list. */
  function OccursId(a: seq<Entry>, id: Id): nat {
    if a == [] then 0 else (if a[0].id == id then 1 else 0) + OccursId(a[1..], id)
  }

  /** How often an integer that does not fit an int is there whose narrowed value is k. */
  function OccursWide(a: seq<Entry>, k: int): nat {
    if a == [] then 0
    else (if a[0].id.Int? && !InRange(a[0].id.n) && Narrow(a[0].id.n) == k then 1 else 0) + OccursWide(a[1..], k)
  }

  lemma {:induction false} OccursIdAppend(a: seq<Entry>, b: seq<Entry>, id: Id)
    ensures OccursId(a + b, id) == OccursId(a, id) + OccursId(b, id)
  {
    if a == [] {
      assert a + b == b;
    } else {
      assert (a + b)[1..] == a[1..] + b;
      OccursIdAppend(a[1..], b, id);
    }
  }

  lemma {:induction false} OccursIdReversed(a: seq<Entry>, id: Id)
    ensures OccursId(Reversed(a), id) == OccursId(a, id)
  {
    if a != [] {
      OccursIdReversed(a[1..], id);
      OccursIdAppend(Reversed(a[1..]), [a[0]], id);
    }
  }

  lemma {:induction false} OccursIdKept(list: seq<Entry>, ids: seq<int>, n: int)
    ensures OccursId(Kept(list, ids), Int(n)) == if n in ids then 0 else OccursId(list, Int(n))
  {
    if list != [] {
      OccursIdKept(list[1..], ids, n);
    }
  }

  lemma {:induction false} OccursAppend(a: seq<Entry>, b: seq<Entry>, k: int)
    ensures Occurs(a + b, k) == Occurs(a, k) + Occurs(b, k)
  {
    if a == [] {
      assert a + b == b;
    } else {
      assert (a + b)[1..] == a[1..] + b;
      OccursAppend(a[1..], b, k);
    }
  }

  lemma {:induction false} OccursReversed(a: seq<Entry>, k: int)
    ensures Occurs(Reversed(a), k) == Occurs(a, k)
  {
    if a != [] {
      OccursReversed(a[1..], k);
      OccursAppend(Reversed(a[1..]), [a[0]], k);
    }
  }

  lemma {:induction false} IdsInRange(request: seq<Entry>)
    requires forall e <- request :: e.id.Real? ==> InRange(e.id.n)
    ensures forall k <- Ids(request) :: InRange(k)
  {
    if request != [] {
      assert request[0] in request;
      IdsInRange(request[1..]);
    }
  }

  /** What a removal leaves of the entries with key k: not those that hold it as the integer it is. */
  lemma {:induction false} OccursKept(list: seq<Entry>, ids: seq<int>, k: int)
    requires InRange(k) && forall i <- ids :: InRange(i)
    ensures Occurs(list, k) == OccursId(list, Int(k)) + OccursId(list, Real(k)) + OccursWide(list, k)
    ensures Occurs(Kept(list, ids), k)
         == (if k in ids then 0 else OccursId(list, Int(k)))
          + (if 0 in ids then 0 else OccursId(list, Real(k)))
          + OccursWide(list, k)
  {
    if list != [] {
      OccursKept(list[1..], ids, k);
    }
  }

  /** An int that is named occurs afterwards as often as the request says, and once more for each entry of the list
      that has it as a real number, which the removal takes for id 0, or as a wider integer, which it does not see. */
  lemma NamedOccurs(list: seq<Entry>, request: seq<Entry>, order: Order, ref: int, k: int)
    requires forall e <- request :: e.id.Real? ==> InRange(e.id.n)
    requires k in Ids(Accepted(request, ref))
    ensures var accepted := Accepted(request, ref);
            Occurs(AddSurfaces(list, request, order, ref), k)
            == Occurs(accepted, k) + OccursWide(list, k) + if 0 in Ids(accepted) then 0 else OccursId(list, Real(k))
  {
    var accepted := Accepted(request, ref);
    var kept := Kept(list, Ids(accepted));
    AcceptedMembers(request, ref);
    IdsInRange(accepted);
    OccursAdded(kept, Target(kept, order, ref), accepted, k);
    OccursKept(list, Ids(accepted), k);
  }

  /** An integer id of any width: what was there under it stays, unless an accepted id narrows to it. */
  lemma IntegerOccurs(list: seq<Entry>, request: seq<Entry>, order: Order, ref: int, n: int)
    ensures var accepted := Accepted(request, ref);
            OccursId(AddSurfaces(list, request, order, ref), Int(n))
            == OccursId(accepted, Int(n)) + if n in Ids(accepted) then 0 else OccursId(list, Int(n))
  {
    hide Accepted, Ids, Kept, Reversed, OccursId, Target;
    var accepted := Accepted(request, ref);
    var kept := Kept(list, Ids(accepted));
    var t := Target(kept, order, ref);
    OccursIdKept(list, Ids(accepted), n);
    OccursIdAppend(kept[..t], Reversed(accepted), Int(n));
    OccursIdAppend(kept[..t] + Reversed(accepted), kept[t..], Int(n));
    OccursIdAppend(kept[..t], kept[t..], Int(n));
    OccursIdReversed(accepted, Int(n));
    assert kept == kept[..t] + kept[t..];
  }

  /** So adding a surface under an integer id leaves it there once, whatever was in the list, exactly if the id fits
      an int. */
  lemma ReplacedIff(e: Entry, order: Order, ref: int)
    requires e.id.Int? && Key(e) != Some(ref)
    ensures (forall list :: OccursId(AddSurfaces(list, [e], order, ref), e.id) == 1) <==> InRange(e.id.n)
  {
    forall list: seq<Entry>
      ensures OccursId(AddSurfaces(list, [e], order, ref), e.id) == 1 + if InRange(e.id.n) then 0 else OccursId(list, e.id)
    {
      OneAdded(list, e, order, ref);
    }
    OneIs(e);
    OneAdded([e], e, order, ref);
  }

  lemma OneIs(e: Entry)
    ensures OccursId([e], e.id) == 1
  {
    assert [e][1..] == [];
  }

  lemma OneAccepted(e: Entry, ref: int)
    requires e.id.Int? && Key(e) != Some(ref)
    ensures Accepted([e], ref) == [e] && Ids([e]) == [Narrow(e.id.n)]
  {
    assert [e][1..] == [];
    IdsSnoc([], e);
    assert [] + [e] == [e];
  }

  lemma OneAdded(list: seq<Entry>, e: Entry, order: Order, ref: int)
    requires e.id.Int? && Key(e) != Some(ref)
    ensures OccursId(AddSurfaces(list, [e], order, ref), e.id) == 1 + if InRange(e.id.n) then 0 else OccursId(list, e.id)
  {
    OneAccepted(e, ref);
    IntegerOccurs(list, [e], order, ref, e.id.n);
    OneIs(e);
    assert e.id == Int(e.id.n);
  }

  /** 2^32 + 1 narrows to 1: adding it again takes surface 1 out and leaves it in the list twice. */
  lemma WideTwice()
    ensures var e := Entry(Int(0x1_0000_0001), 7);
            var after := AddSurfaces([Entry(Int(1), 5), e], [e], Append, -1);
            OccursId(after, Int(1)) == 0 && OccursId(after, e.id) == 2
  {
    var e := Entry(Int(0x1_0000_0001), 7);
    var list := [Entry(Int(1), 5), e];
    assert Narrow(0x1_0000_0001) == 1;
    assert [e][1..] == [] && list[1..] == [e];
    OneAccepted(e, -1);
    IntegerOccurs(list, [e], Append, -1, 1);
    IntegerOccurs(list, [e], Append, -1, 0x1_0000_0001);
    assert OccursId(list, e.id) == OccursId([e], e.id) == 1;
  }

  /** A surface with the real number 3 as its id stays when 3 is added. */
  lemma RealTwice()
    ensures Occurs(AddSurfaces([Entry(Real(3), 5)], [Entry(Int(3), 7)], Append, -1), 3) == 2
  {
    var list, e := [Entry(Real(3), 5)], Entry(Int(3), 7);
    assert [e][1..] == [] && list[1..] == [];
    OneAccepted(e, -1);
    NamedOccurs(list, [e], Append, -1, 3);
    assert OccursId(list, Real(3)) == 1 && Occurs([e], 3) == 1;
  }

  lemma OccursAdded(kept: seq<Entry>, t: nat, accepted: seq<Entry>, k: int)
    requires t <= |kept|
    ensures Occurs(Inserted(kept, t, Reversed(accepted)), k) == Occurs(kept, k) + Occurs(accepted, k)
  {
    OccursAppend(kept[..t], Reversed(accepted), k);
    OccursAppend(kept[..t] + Reversed(accepted), kept[t..], k);
    OccursAppend(kept[..t], kept[t..], k);
    OccursReversed(accepted, k);
    assert kept == kept[..t] + kept[t..];
  }

  /** A list of integer ids that fit an int, no id twice. */
  ghost predicate Proper(list: seq<Entry>) {
    Ints(list) && forall k :: Occurs(list, k) <= 1
  }

  ghost predicate Ints(list: seq<Entry>) {
    forall e <- list :: e.id.Int? && InRange(e.id.n)
  }

  datatype Request = Add(surfaces: seq<Entry>, order: Order, ref: int) | Remove(surfaces: seq<Entry>)

  function Serve(list: seq<Entry>, q: Request): seq<Entry> {
    match q
    case Add(surfaces, order, ref) => AddSurfaces(list, surfaces, order, ref)
    case Remove(surfaces) => RemoveSurfaces(list, surfaces)
  }

  function ServeAll(list: seq<Entry>, qs: seq<Request>): seq<Entry>
    decreases |qs|
  {
    if qs == [] then list else ServeAll(Serve(list, qs[0]), qs[1..])
  }

  lemma {:induction false} IntsOccur(list: seq<Entry>, k: int)
    requires Ints(list)
    ensures OccursId(list, Real(k)) == 0 && OccursWide(list, k) == 0
    ensures !InRange(k) ==> Occurs(list, k) == 0
  {
    if list != [] {
      assert list[0] in list;
      IntsOccur(list[1..], k);
    }
  }

  lemma {:induction false} AcceptedOccurs(request: seq<Entry>, ref: int, k: int)
    ensures Occurs(Accepted(request, ref), k) == if k == ref then 0 else Occurs(request, k)
  {
    if request != [] {
      AcceptedOccurs(request[1..], ref, k);
    }
  }

  lemma {:induction false} OccursNot(a: seq<Entry>, k: int)
    requires k !in Ids(a)
    ensures Occurs(a, k) == 0
  {
    if a != [] {
      OccursNot(a[1..], k);
    }
  }

  /** What every add and every remove makes of an id: an accepted one is there once, one removed is not, and every
      other stays. */
  lemma ServeOccurs(list: seq<Entry>, q: Request, k: int)
    requires Proper(list) && Proper(q.surfaces) && InRange(k)
    ensures q.Add? && k in Ids(q.surfaces) && k != q.ref ==> Occurs(Serve(list, q), k) == 1
    ensures q.Add? && (k !in Ids(q.surfaces) || k == q.ref) ==> Occurs(Serve(list, q), k) == Occurs(list, k)
    ensures q.Remove? ==> Occurs(Serve(list, q), k) == if k in Ids(q.surfaces) then 0 else Occurs(list, k)
  {
    IntsOccur(list, k);
    match q {
      case Remove(surfaces) =>
        IdsInRange(surfaces);
        OccursKept(list, Ids(surfaces), k);
      case Add(surfaces, order, ref) =>
        var accepted := Accepted(surfaces, ref);
        var kept := Kept(list, Ids(accepted));
        AcceptedMembers(surfaces, ref);
        IdsInRange(accepted);
        AcceptedOccurs(surfaces, ref, k);
        OccursAdded(kept, Target(kept, order, ref), accepted, k);
        OccursKept(list, Ids(accepted), k);
        AcceptedIds(surfaces, ref, k);
        if k !in Ids(surfaces) {
          OccursNot(surfaces, k);
        } else {
          OccursSome(surfaces, k);
        }
    }
  }

  lemma {:induction false} OccursSome(a: seq<Entry>, k: int)
    requires k in Ids(a)
    ensures Occurs(a, k) >= 1
  {
    if Key(a[0]) != Some(k) {
      OccursSome(a[1..], k);
    }
  }

  lemma ServeProper(list: seq<Entry>, q: Request)
    requires Proper(list) && Proper(q.surfaces)
    ensures Proper(Serve(list, q))
  {
    IntsOnly(list, q);
    forall k
      ensures Occurs(Serve(list, q), k) <= 1
    {
      if InRange(k) {
        ServeOccurs(list, q, k);
      } else {
        IntsOccur(Serve(list, q), k);
      }
    }
  }

  lemma IntsOnly(list: seq<Entry>, q: Request)
    requires Ints(list) && Ints(q.surfaces)
    ensures Ints(Serve(list, q))
  {
    match q {
      case Remove(surfaces) => KeptMembers(list, Ids(surfaces));
      case Add(surfaces, order, ref) =>
        AcceptedMembers(surfaces, ref);
        KeptMembers(list, Ids(Accepted(surfaces, ref)));
        assert forall e <- Reversed(Accepted(surfaces, ref)) :: e in surfaces;
    }
  }

  /** With such lists and requests no surface is ever in the list twice. */
  lemma {:induction false} RunProper(list: seq<Entry>, qs: seq<Request>)
    requires Proper(list) && forall q <- qs :: Proper(q.surfaces)
    ensures Proper(ServeAll(list, qs))
    decreases |qs|
  {
    if qs != [] {
      assert qs[0] in qs;
      ServeProper(list, qs[0]);
      RunProper(Serve(list, qs[0]), qs[1..]);
    }
  }

  /** No id that fits an int is there twice as an integer; of wider and real ones nothing is said. */
  ghost predicate Single(list: seq<Entry>) {
    forall n :: InRange(n) ==> OccursId(list, Int(n)) <= 1
  }

  lemma {:induction false} AcceptedId(request: seq<Entry>, ref: int, n: int)
    requires InRange(n)
    ensures var accepted := Accepted(request, ref);
            && OccursId(accepted, Int(n)) <= OccursId(request, Int(n))
            && (OccursId(accepted, Int(n)) > 0 ==> n in Ids(accepted))
  {
    if request != [] {
      AcceptedId(request[1..], ref, n);
    }
  }

  lemma ServeSingle(list: seq<Entry>, q: Request)
    requires Single(list) && Single(q.surfaces)
    ensures Single(Serve(list, q))
  {
    forall n | InRange(n)
      ensures OccursId(Serve(list, q), Int(n)) <= 1
    {
      match q {
        case Remove(surfaces) => OccursIdKept(list, Ids(surfaces), n);
        case Add(surfaces, order, ref) =>
          IntegerOccurs(list, surfaces, order, ref, n);
          AcceptedId(surfaces, ref, n);
      }
    }
  }

  /** Over every run, whatever else is in the requests: such an id is never in the list twice. */
  lemma {:induction false} RunSingle(list: seq<Entry>, qs: seq<Request>)
    requires Single(list) && forall q <- qs :: Single(q.surfaces)
    ensures Single(ServeAll(list, qs))
    decreases |qs|
  {
    if qs != [] {
      assert qs[0] in qs;
      ServeSingle(list, qs[0]);
      RunSingle(Serve(list, qs[0]), qs[1..]);
    }
  }

  // ----- the list as it is updated -----

  lemma {:induction false} KeptMore(list: seq<Entry>, ids: seq<int>, k: int)
    ensures Kept(Kept(list, ids), [k]) == Kept(list, ids + [k])
  {
    if list != [] {
      KeptMore(list[1..], ids, k);
    }
  }

  lemma {:induction false} KeptNone(list: seq<Entry>)
    ensures Kept(list, []) == list
  {
    if list != [] {
      KeptNone(list[1..]);
    }
  }

  lemma IdsSnoc(a: seq<Entry>, e: Entry)
    ensures Ids(a + [e]) == if Key(e).Some? then Ids(a) + [Key(e).value] else Ids(a)
  {
    IdsAppend(a, [e]);
    assert [e][1..] == [];
    assert Ids([e]) == if Key(e).Some? then [Key(e).value] else [];
  }

  lemma {:induction false} IdsAppend(a: seq<Entry>, b: seq<Entry>)
    ensures Ids(a + b) == Ids(a) + Ids(b)
  {
    if a == [] {
      assert a + b == b;
    } else {
      assert (a + b)[1..] == a[1..] + b;
      IdsAppend(a[1..], b);
    }
  }

  class LayoutList {
    var entries: seq<Entry>

    constructor ()
      ensures entries == []
    {
      entries := [];
    }

    /** remove_jsonobj_with_int_key */
    method RemoveKey(key: int)
      modifies this
      ensures entries == Kept(old(entries), [key])
    {
      var i := 0;
      ghost var done, left := [], entries;
      while i < |entries|
        invariant entries == done + left && i == |done|
        invariant Kept(old(entries), [key]) == done + Kept(left, [key])
        decreases |left|
      {
        if key == IntegerValue(entries[i]) {
          entries := entries[..i] + entries[i + 1..];
        } else {
          done := done + [entries[i]];
          i := i + 1;
        }
        left := left[1..];
      }
    }

    /** insert_jsonarray_with_index: every entry of the source goes in at the same index. */
    method InsertAt(block: seq<Entry>, target: nat)
      requires target <= |entries|
      modifies this
      ensures entries == Inserted(old(entries), target, Reversed(block))
    {
      assert block[..0] == [];
      for i := 0 to |block|
        invariant entries == Inserted(old(entries), target, Reversed(block[..i]))
      {
        InsertedMore(old(entries), target, block[..i], block[i]);
        assert block[..i + 1] == block[..i] + [block[i]];
        entries := entries[..target] + [block[i]] + entries[target..];
      }
      assert block[..|block|] == block;
    }

    /** The first loop of add_layout_surfaces, which also takes entries out of the request it runs over. */
    method MakeRoom(request: seq<Entry>, ref: int) returns (surfaces: seq<Entry>)
      modifies this
      ensures surfaces == Accepted(request, ref) && entries == Kept(old(entries), Ids(surfaces))
    {
      hide *;
      surfaces := request;
      var i := 0;
      ghost var done, left := [], request;
      MakingStart(entries, request, ref);
      while i < |surfaces|
        invariant surfaces == done + left && i == |done|
        invariant Making(old(entries), entries, request, ref, done, left)
        decreases |left|
      {
        var e := surfaces[i];
        MakingStep(old(entries), entries, request, ref, done, left);
        if KeyIs(e, ref) {
          surfaces := surfaces[..i] + surfaces[i + 1..];
        } else {
          RemoveNamed(old(entries), done, e);
          done := done + [e];
          i := i + 1;
        }
        left := left[1..];
      }
      MakingEnd(old(entries), entries, request, ref, done, left);
    }

    method Add(request: seq<Entry>, order: Order, ref: int)
      modifies this
      ensures entries == AddSurfaces(old(entries), request, order, ref)
    {
      var surfaces := MakeRoom(request, ref);
      var target := |entries|;
      if order.Prepend? {
        target := 0;
      } else if order.Before? || order.After? {
        target := FindTarget(order, ref);
      }
      InsertAt(surfaces, target);
    }

    method FindTarget(order: Order, ref: int) returns (target: nat)
      requires order.Before? || order.After?
      ensures target == Target(entries, order, ref)
    {
      for i := 0 to |entries|
        invariant Position(entries, ref, 0) == Position(entries, ref, i)
      {
        if Key(entries[i]) == Some(ref) {
          return if order.After? then i + 1 else i;
        }
      }
      return |entries|;
    }

    /** The turn of both loops that looks for the id of a request's entry. */
    method RemoveNamed(ghost was: seq<Entry>, ghost done: seq<Entry>, e: Entry)
      requires entries == Kept(was, Ids(done))
      modifies this
      ensures entries == Kept(was, Ids(done + [e]))
    {
      IdsSnoc(done, e);
      if Key(e).Some? {
        KeptMore(was, Ids(done), Key(e).value);
        RemoveKey(Key(e).value);
      }
    }

    method Remove(request: seq<Entry>)
      modifies this
      ensures entries == RemoveSurfaces(old(entries), request)
    {
      KeptNone(entries);
      for i := 0 to |request|
        invariant entries == Kept(old(entries), Ids(request[..i]))
      {
        assert request[..i + 1] == request[..i] + [request[i]];
        RemoveNamed(old(entries), request[..i], request[i]);
      }
      assert request[..|request|] == request;
    }
  }

  predicate KeyIs(e: Entry, ref: int) {
    Key(e) == Some(ref)
  }

  /** The first loop of add_layout_surfaces with left still to look at. */
  ghost predicate Making(was: seq<Entry>, now: seq<Entry>, request: seq<Entry>, ref: int, done: seq<Entry>,
                         left: seq<Entry>) {
    Accepted(request, ref) == done + Accepted(left, ref) && now == Kept(was, Ids(done))
  }

  lemma MakingStart(was: seq<Entry>, request: seq<Entry>, ref: int)
    ensures Making(was, was, request, ref, [], request)
    ensures request == [] + request
  {
    KeptNone(was);
  }

  lemma MakingStep(was: seq<Entry>, now: seq<Entry>, request: seq<Entry>, ref: int, done: seq<Entry>, left: seq<Entry>)
    requires Making(was, now, request, ref, done, left) && left != []
    ensures now == Kept(was, Ids(done))
    ensures KeyIs(left[0], ref) ==> Making(was, now, request, ref, done, left[1..])
    ensures !KeyIs(left[0], ref) ==> Making(was, Kept(was, Ids(done + [left[0]])), request, ref, done + [left[0]], left[1..])
    ensures (done + left)[..|done|] + (done + left)[|done| + 1..] == done + left[1..]
    ensures (done + [left[0]]) + left[1..] == done + left && (done + left)[|done|] == left[0]
  {
    hide Kept, Ids, Key;
    Assoc(done, [left[0]], Accepted(left[1..], ref));
    Assoc(done, [left[0]], left[1..]);
    assert left == [left[0]] + left[1..];
  }

  lemma MakingEnd(was: seq<Entry>, now: seq<Entry>, request: seq<Entry>, ref: int, done: seq<Entry>, left: seq<Entry>)
    requires Making(was, now, request, ref, done, left) && left == []
    ensures done == Accepted(request, ref) && done + left == done && now == Kept(was, Ids(done))
  {
  }

  lemma {:induction false} ReversedSnoc(a: seq<Entry>, e: Entry)
    ensures Reversed(a + [e]) == [e] + Reversed(a)
  {
    if a == [] {
      assert a + [e] == [e];
    } else {
      assert (a + [e])[1..] == a[1..] + [e];
      ReversedSnoc(a[1..], e);
    }
  }

  lemma InsertedMore(list: seq<Entry>, target: nat, block: seq<Entry>, e: Entry)
    requires target <= |list|
    ensures var now := Inserted(list, target, Reversed(block));
            now[..target] + [e] + now[target..] == Inserted(list, target, Reversed(block + [e]))
  {
    ReversedSnoc(block, e);
  }
}

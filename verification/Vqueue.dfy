/**
 The device side of a split virtqueue (src/rvgpu-proxy/gpu/rvgpu-vqueue.c): walking a descriptor
 chain, ring indices that wrap at 2^16, and reference-counted requests.
 */
module Vqueue {
  import opened Bytes
  import opened Pigeonhole
  import opened Iov

  const IOVEC_LEN: nat := 1024  // VQUEUE_REQUEST_IOVEC_LEN
  const NUM: nat := 1024        // the size gpu_device_config_init gives both queues
  const IDX: nat := 0x1_0000    // where a uint16_t wraps

  /** A descriptor: what map_guest gives for it, its WRITE flag, and next if its NEXT flag is set. */
  datatype Desc = Desc(mem: Option<seq<byte>>, write: bool, next: Option<nat>)

  // ----- the walk of vqueue_get_request -----

  function At(table: seq<Desc>, didx: nat): Desc
    requires |table| == NUM
  {
    table[didx % 1024]
  }

  /** Whether the descriptor is one of those collected for reading, or for writing. */
  predicate Counts(d: Desc, write: bool) {
    d.mem.Some? && d.write == write
  }

  /** How many of those visited do. */
  function Count(table: seq<Desc>, seen: seq<nat>, write: bool): nat
    requires |table| == NUM
    decreases |seen|
  {
    if seen == [] then 0
    else Count(table, seen[..|seen| - 1], write) + if Counts(At(table, seen[|seen| - 1]), write) then 1 else 0
  }

  /** The memory of those that do, in the order visited. */
  function Select(table: seq<Desc>, seen: seq<nat>, write: bool): (r: seq<seq<byte>>)
    requires |table| == NUM
    ensures |r| == Count(table, seen, write)
    decreases |seen|
  {
    if seen == [] then []
    else
      var d := At(table, seen[|seen| - 1]);
      Select(table, seen[..|seen| - 1], write) + if Counts(d, write) then [d.mem.value] else []
  }

  lemma SelectSnoc(table: seq<Desc>, seen: seq<nat>, at: nat, write: bool)
    requires |table| == NUM
    ensures var d := At(table, at);
            Select(table, seen + [at], write) == Select(table, seen, write) + if Counts(d, write) then [d.mem.value] else []
    ensures Count(table, seen + [at], write) == Count(table, seen, write) + if Counts(At(table, at), write) then 1 else 0
  {
    assert (seen + [at])[..|seen|] == seen;
  }

  /** Where the walk is, and what it has visited; more is false once it has stopped. */
  datatype Walk = Walk(at: nat, seen: seq<nat>, more: bool)

  function Visit(table: seq<Desc>, s: Walk): Walk
    requires |table| == NUM
  {
    var d, seen := At(table, s.at), s.seen + [s.at];
    var full := d.mem.Some? && Count(table, seen, d.write) >= IOVEC_LEN;
    Walk(if d.next.Some? then d.next.value else s.at, seen, !full && d.next.Some?)
  }

  /** The walk after at most n visits. */
  function Visits(table: seq<Desc>, s: Walk, n: nat): Walk
    requires |table| == NUM
    decreases n
  {
    if n == 0 || !s.more then s else Visits(table, Visit(table, s), n - 1)
  }

  function Begin(head: nat): Walk {
    Walk(head, [], true)
  }

  /** From the head on, each descriptor visited names the next one. */
  ghost predicate Linked(table: seq<Desc>, head: nat, seen: seq<nat>, next: nat)
    requires |table| == NUM
    decreases |seen|
  {
    if seen == [] then next == head
    else
      var last := seen[|seen| - 1];
      At(table, last).next == Some(next) && Linked(table, head, seen[..|seen| - 1], last)
  }

  lemma {:induction false} LinkedAt(table: seq<Desc>, head: nat, seen: seq<nat>, next: nat)
    requires |table| == NUM && Linked(table, head, seen, next)
    ensures (seen + [next])[0] == head
    ensures forall i, j :: 0 <= i < |seen| && j == i + 1 ==> table[seen[i] % 1024].next == Some((seen + [next])[j])
    decreases |seen|
  {
    if seen != [] {
      var n := |seen| - 1;
      LinkedAt(table, head, seen[..n], seen[n]);
      assert seen[..n] + [seen[n]] == seen;
    }
  }

  /** Neither list is ever overrun; the walk stops when one is full, or at the end of the chain. */
  ghost predicate Limited(table: seq<Desc>, s: Walk)
    requires |table| == NUM
  {
    var r, w := Count(table, s.seen, false), Count(table, s.seen, true);
    && r <= IOVEC_LEN && w <= IOVEC_LEN
    && (s.more ==> r < IOVEC_LEN && w < IOVEC_LEN)
    && (!s.more ==> s.seen != [] && (r == IOVEC_LEN || w == IOVEC_LEN || At(table, s.seen[|s.seen| - 1]).next.None?))
  }

  lemma VisitLimited(table: seq<Desc>, s: Walk)
    requires |table| == NUM && s.more && Limited(table, s)
    ensures Limited(table, Visit(table, s))
  {
    SelectSnoc(table, s.seen, s.at, false);
    SelectSnoc(table, s.seen, s.at, true);
  }

  lemma {:induction false} VisitsLimited(table: seq<Desc>, s: Walk, n: nat)
    requires |table| == NUM && Limited(table, s)
    ensures Limited(table, Visits(table, s, n))
    decreases n
  {
    if n > 0 && s.more {
      VisitLimited(table, s);
      VisitsLimited(table, Visit(table, s), n - 1);
    }
  }

  /** The visit before last led to the last one visited, and that to where the walk is. */
  lemma VisitLinked(table: seq<Desc>, head: nat, s: Walk)
    requires |table| == NUM && s.more && Linked(table, head, s.seen, s.at)
    ensures var t := Visit(table, s);
            if t.more then Linked(table, head, t.seen, t.at) else Linked(table, head, t.seen[..|t.seen| - 1], t.seen[|t.seen| - 1])
  {
    assert Visit(table, s).seen[..|s.seen|] == s.seen;
  }

  /** The descriptor i links further on, if the chain gets there. */
  function Onward(table: seq<Desc>, didx: nat, i: nat): Option<nat>
    requires |table| == NUM
    decreases i
  {
    if i == 0 then Some(didx)
    else if At(table, didx).next.None? then None
    else Onward(table, At(table, didx).next.value, i - 1)
  }

  /** From here on the chain never ends, and nothing on it can be mapped. */
  ghost predicate Endless(table: seq<Desc>, didx: nat)
    requires |table| == NUM
  {
    forall i: nat ::
      var d := Onward(table, didx, i);
      d.Some? && At(table, d.value).mem.None?
  }

  ghost predicate EndlessAt(table: seq<Desc>, s: Walk, k: nat)
    requires |table| == NUM
  {
    Endless(table, Visits(table, s, k).at)
  }

  ghost predicate NeverEndless(table: seq<Desc>, s: Walk)
    requires |table| == NUM
  {
    forall k: nat | Visits(table, s, k).more :: !EndlessAt(table, s, k)
  }

  ghost predicate Stops(table: seq<Desc>, s: Walk)
    requires |table| == NUM
  {
    exists n: nat :: !Visits(table, s, n).more
  }

  lemma EndlessNext(table: seq<Desc>, didx: nat)
    requires |table| == NUM && Endless(table, didx)
    ensures At(table, didx).mem.None? && At(table, didx).next.Some? && Endless(table, At(table, didx).next.value)
  {
    assert Onward(table, didx, 0) == Some(didx);
    assert Onward(table, didx, 1).Some?;
    forall i: nat
      ensures Onward(table, At(table, didx).next.value, i) == Onward(table, didx, i + 1)
    {
    }
  }

  /** Then the walk goes on forever. */
  lemma {:induction false} EndlessNeverStops(table: seq<Desc>, s: Walk, n: nat)
    requires |table| == NUM && s.more && Endless(table, s.at)
    ensures Visits(table, s, n).more
    decreases n
  {
    if n > 0 {
      EndlessNext(table, s.at);
      EndlessNeverStops(table, Visit(table, s), n - 1);
    }
  }

  /** The walk stops, or collects something, before it has followed i links to a descriptor that ends or is mapped. */
  lemma {:induction false} Advances(table: seq<Desc>, s: Walk, i: nat) returns (n: nat)
    requires |table| == NUM && s.more
    requires Onward(table, s.at, i).None? || At(table, Onward(table, s.at, i).value).mem.Some?
    ensures var t := Visits(table, s, n); !t.more || Got(table, t) > Got(table, s)
    decreases i
  {
    var t := Visit(table, s);
    SelectSnoc(table, s.seen, s.at, false);
    SelectSnoc(table, s.seen, s.at, true);
    assert Visits(table, s, 1) == Visits(table, t, 0) == t;
    n := 1;
    if t.more && At(table, s.at).mem.None? {
      n := Advances(table, t, i - 1);
      n := n + 1;
    }
  }

  function Got(table: seq<Desc>, s: Walk): nat
    requires |table| == NUM
  {
    Count(table, s.seen, false) + Count(table, s.seen, true)
  }

  lemma {:induction false} VisitsAdd(table: seq<Desc>, s: Walk, m: nat, n: nat)
    requires |table| == NUM
    ensures Visits(table, Visits(table, s, m), n) == Visits(table, s, m + n)
    decreases m
  {
    if m > 0 && s.more {
      VisitsAdd(table, Visit(table, s), m - 1, n);
    }
  }

  lemma {:induction false} OtherwiseStops(table: seq<Desc>, s: Walk) returns (n: nat)
    requires |table| == NUM && Limited(table, s)
    requires NeverEndless(table, s)
    ensures !Visits(table, s, n).more
    decreases 2 * IOVEC_LEN - Got(table, s)
  {
    n := 0;
    if s.more {
      assert !EndlessAt(table, s, 0);
      var i: nat :| Onward(table, s.at, i).None? || At(table, Onward(table, s.at, i).value).mem.None? == false;
      n := Advances(table, s, i);
      var t := Visits(table, s, n);
      if t.more {
        VisitsLimited(table, s, n);
        forall k: nat | Visits(table, t, k).more
          ensures !EndlessAt(table, t, k)
        {
          VisitsAdd(table, s, n, k);
          assert !EndlessAt(table, s, n + k);
        }
        var m := OtherwiseStops(table, t);
        VisitsAdd(table, s, n, m);
        n := n + m;
      }
    }
  }

  lemma VisitsStay(table: seq<Desc>, s: Walk, n: nat, k: nat)
    requires |table| == NUM && n <= k && Visits(table, s, k).more
    ensures Visits(table, s, n).more
  {
    VisitsAdd(table, s, n, k - n);
  }

  lemma EndlessLater(table: seq<Desc>, s: Walk, k: nat, n: nat)
    requires |table| == NUM && Visits(table, s, k).more && EndlessAt(table, s, k)
    ensures Visits(table, s, n).more
  {
    if n >= k {
      VisitsAdd(table, s, k, n - k);
      EndlessNeverStops(table, Visits(table, s, k), n - k);
    } else {
      VisitsStay(table, s, n, k);
    }
  }

  lemma StopsUnlessEndless(table: seq<Desc>, head: nat)
    requires |table| == NUM
    ensures Stops(table, Begin(head)) <==> NeverEndless(table, Begin(head))
  {
    if NeverEndless(table, Begin(head)) {
      var n := OtherwiseStops(table, Begin(head));
    }
    if Stops(table, Begin(head)) {
      var n: nat :| !Visits(table, Begin(head), n).more;
      forall k: nat | Visits(table, Begin(head), k).more
        ensures !EndlessAt(table, Begin(head), k)
      {
        if EndlessAt(table, Begin(head), k) {
          EndlessLater(table, Begin(head), k, n);
        }
      }
    }
  }

  // ----- the same in terms of the chain alone, with bounds -----

  predicate Unmapped(table: seq<Desc>, d: Option<nat>)
    requires |table| == NUM
  {
    d.Some? && At(table, d.value).mem.None?
  }

  /** The next 1025 descriptors all exist, and none can be mapped. */
  predicate Trapped(table: seq<Desc>, didx: nat)
    requires |table| == NUM
  {
    forall i: nat | i <= NUM :: Unmapped(table, Onward(table, didx, i))
  }

  predicate TrappedBehind(table: seq<Desc>, head: nat, j: nat)
    requires |table| == NUM
  {
    Onward(table, head, j).Some? && Trapped(table, Onward(table, head, j).value)
  }

  /** So it is from one of the first 1024 descriptors of the chain on. */
  predicate TrapAhead(table: seq<Desc>, head: nat)
    requires |table| == NUM
  {
    exists j: nat | j < NUM :: TrappedBehind(table, head, j)
  }

  lemma {:induction false} OnwardAdd(table: seq<Desc>, didx: nat, i: nat, j: nat)
    requires |table| == NUM && Onward(table, didx, i).Some?
    ensures Onward(table, Onward(table, didx, i).value, j) == Onward(table, didx, i + j)
    decreases i
  {
    if i > 0 {
      OnwardAdd(table, At(table, didx).next.value, i - 1, j);
    }
  }

  lemma {:induction false} OnwardBack(table: seq<Desc>, didx: nat, i: nat, j: nat)
    requires |table| == NUM && i <= j && Onward(table, didx, j).Some?
    ensures Onward(table, didx, i).Some?
    decreases i
  {
    if i > 0 {
      OnwardBack(table, At(table, didx).next.value, i - 1, j - 1);
    }
  }

  /** The chain comes back to the descriptor at a, after b - a links. */
  predicate Repeats(table: seq<Desc>, head: nat, a: nat, b: nat)
    requires |table| == NUM
  {
    && a < b && Onward(table, head, a).Some? && Onward(table, head, b).Some?
    && Onward(table, head, a).value % 1024 == Onward(table, head, b).value % 1024
  }

  /** From then on it only goes round. */
  lemma RepeatsOn(table: seq<Desc>, head: nat, a: nat, b: nat, i: nat)
    requires |table| == NUM && Repeats(table, head, a, b)
    ensures Unmapped(table, Onward(table, head, a + i)) <==> Unmapped(table, Onward(table, head, b + i))
    ensures Onward(table, head, a + i).Some? <==> Onward(table, head, b + i).Some?
  {
    var x, y := Onward(table, head, a).value, Onward(table, head, b).value;
    OnwardAdd(table, head, a, i);
    OnwardAdd(table, head, b, i);
    assert At(table, x) == At(table, y);
    if i > 0 {
      assert Onward(table, x, i) == Onward(table, y, i);
    }
  }

  /** Among 1025 descriptors two are the same. */
  lemma SomeRepeat(table: seq<Desc>, head: nat, n: nat) returns (a: nat, b: nat)
    requires |table| == NUM && n >= NUM && Onward(table, head, n).Some?
    ensures Repeats(table, head, a, b) && b <= n
  {
    forall i: nat | i <= n
      ensures Onward(table, head, i).Some?
    {
      OnwardBack(table, head, i, n);
    }
    if forall i: nat, j: nat | i < j <= n :: !Repeats(table, head, i, j) {
      NoRepeat(table, head, n);
      assert false;
    }
    a, b :| a < b <= n && Repeats(table, head, a, b);
  }

  lemma NoRepeat(table: seq<Desc>, head: nat, n: nat)
    requires |table| == NUM && forall i: nat | i <= n :: Onward(table, head, i).Some?
    requires forall i: nat, j: nat | i < j <= n :: !Repeats(table, head, i, j)
    ensures n < NUM
  {
    var codes := seq(n + 1, i requires 0 <= i <= n => Onward(table, head, i).value % 1024);
    forall i, j | 0 <= i < j < |codes|
      ensures codes[i] != codes[j]
    {
      assert !Repeats(table, head, i, j);
    }
    DistinctFit(codes, NUM);
  }

  /** Unmapped from n on, the chain is so from where it first repeats. */
  lemma {:induction false} UnmappedBefore(table: seq<Desc>, head: nat, a: nat, b: nat, n: nat, p: nat)
    requires |table| == NUM && Repeats(table, head, a, b) && a <= p
    requires forall i: nat | n <= i :: Unmapped(table, Onward(table, head, i))
    ensures Unmapped(table, Onward(table, head, p))
    decreases n - p
  {
    if p < n {
      RepeatsOn(table, head, a, b, p - a);
      UnmappedBefore(table, head, a, b, n, p + (b - a));
    }
  }

  /** The bound is enough: 1025 descriptors contain a whole round. */
  lemma {:induction false} TrappedIsEndless(table: seq<Desc>, didx: nat, i: nat)
    requires |table| == NUM && Trapped(table, didx)
    ensures Unmapped(table, Onward(table, didx, i))
    decreases i
  {
    if i > NUM {
      assert Unmapped(table, Onward(table, didx, NUM));
      var a, b := SomeRepeat(table, didx, NUM);
      RepeatsOn(table, didx, a, b, i - b);
      TrappedIsEndless(table, didx, i - (b - a));
    }
  }

  lemma EndlessIff(table: seq<Desc>, didx: nat)
    requires |table| == NUM
    ensures Endless(table, didx) <==> Trapped(table, didx)
  {
    if Trapped(table, didx) {
      forall i: nat
        ensures Unmapped(table, Onward(table, didx, i))
      {
        TrappedIsEndless(table, didx, i);
      }
    }
    if Endless(table, didx) {
      forall i: nat | i <= NUM
        ensures Unmapped(table, Onward(table, didx, i))
      {
      }
    }
  }

  /** Endless from the n-th descriptor on means endless from any that is met again. */
  lemma EndlessEarlier(table: seq<Desc>, head: nat, a: nat, b: nat, n: nat)
    requires |table| == NUM && Repeats(table, head, a, b)
    requires Onward(table, head, n).Some? && Endless(table, Onward(table, head, n).value)
    ensures TrappedBehind(table, head, a)
  {
    var x, y := Onward(table, head, n).value, Onward(table, head, a).value;
    forall i: nat | n <= i
      ensures Unmapped(table, Onward(table, head, i))
    {
      OnwardAdd(table, head, n, i - n);
    }
    forall i: nat
      ensures Unmapped(table, Onward(table, y, i))
    {
      OnwardAdd(table, head, a, i);
      UnmappedBefore(table, head, a, b, n, a + i);
    }
    EndlessIff(table, y);
  }

  /** While the walk goes on it is where the chain is, and has seen what comes before on it. */
  lemma {:induction false} WalkIsChain(table: seq<Desc>, s: Walk, n: nat)
    requires |table| == NUM && Visits(table, s, n).more && s.more
    ensures Onward(table, s.at, n) == Some(Visits(table, s, n).at)
    decreases n
  {
    if n > 0 {
      WalkIsChain(table, Visit(table, s), n - 1);
    }
  }

  lemma EndlessWalkTrapped(table: seq<Desc>, head: nat, k: nat)
    requires |table| == NUM && Visits(table, Begin(head), k).more && EndlessAt(table, Begin(head), k)
    ensures TrapAhead(table, head)
  {
    WalkIsChain(table, Begin(head), k);
    var d := Onward(table, head, k).value;
    EndlessIff(table, d);
    if k < NUM {
      assert TrappedBehind(table, head, k);
    } else {
      OnwardBack(table, head, NUM, k);
      var a, b := SomeRepeat(table, head, NUM);
      EndlessEarlier(table, head, a, b, k);
    }
  }

  lemma {:induction false} CountAtMost(table: seq<Desc>, seen: seq<nat>, write: bool)
    requires |table| == NUM
    ensures Count(table, seen, write) <= |seen|
    decreases |seen|
  {
    if seen != [] {
      CountAtMost(table, seen[..|seen| - 1], write);
    }
  }

  /** Within the first 1023 visits no list fills up. */
  lemma {:induction false} EarlyGoesOn(table: seq<Desc>, s: Walk, n: nat)
    requires |table| == NUM && s.more && |s.seen| + n < IOVEC_LEN && Onward(table, s.at, n).Some?
    ensures Visits(table, s, n).more
    decreases n
  {
    if n > 0 {
      var t := Visit(table, s);
      CountAtMost(table, t.seen, At(table, s.at).write);
      EarlyGoesOn(table, t, n - 1);
    }
  }

  lemma TrapReached(table: seq<Desc>, head: nat, n: nat) returns (k: nat)
    requires |table| == NUM && TrappedBehind(table, head, n)
    ensures k <= n && Visits(table, Begin(head), k).more && EndlessAt(table, Begin(head), k)
    decreases n
  {
    EndlessIff(table, Onward(table, head, n).value);
    if exists j: nat | j < n :: TrappedBehind(table, head, j) {
      var j: nat :| j < n && TrappedBehind(table, head, j);
      k := TrapReached(table, head, j);
    } else {
      forall i: nat | i <= n
        ensures Onward(table, head, i).Some?
      {
        OnwardBack(table, head, i, n);
      }
      forall i: nat, j: nat | i < j <= n
        ensures !Repeats(table, head, i, j)
      {
        if Repeats(table, head, i, j) {
          EndlessEarlier(table, head, i, j, n);
        }
      }
      NoRepeat(table, head, n);
      EarlyGoesOn(table, Begin(head), n);
      WalkIsChain(table, Begin(head), n);
      k := n;
    }
  }

  /** The walk ends on every chain, cyclic or not, except on one that gets to where 1025 descriptors in a row can be
      reached and none of them mapped. */
  lemma StopsUnlessTrapped(table: seq<Desc>, head: nat)
    requires |table| == NUM
    ensures Stops(table, Begin(head)) <==> !TrapAhead(table, head)
  {
    hide Endless, Trapped, Visits, Onward;
    StopsUnlessEndless(table, head);
    if TrapAhead(table, head) {
      var j: nat :| j < NUM && TrappedBehind(table, head, j);
      var k := TrapReached(table, head, j);
    } else {
      forall k: nat | Visits(table, Begin(head), k).more
        ensures !EndlessAt(table, Begin(head), k)
      {
        if EndlessAt(table, Begin(head), k) {
          EndlessWalkTrapped(table, head, k);
        }
      }
    }
  }

  /** A table that is all one descriptor that links to itself and cannot be mapped: the walk hangs. */
  lemma SelfLoopHangs(head: nat)
    ensures var table := seq(NUM, i => Desc(None, false, Some(0)));
            TrapAhead(table, head) && !Stops(table, Begin(head))
  {
    var table := seq(NUM, i => Desc(None, false, Some(0)));
    forall i: nat
      ensures Unmapped(table, Onward(table, head, i))
    {
      SelfLoop(table, head, i);
    }
    assert Onward(table, head, 0) == Some(head);
    assert TrappedBehind(table, head, 0);
    StopsUnlessTrapped(table, head);
  }

  lemma {:induction false} SelfLoop(table: seq<Desc>, head: nat, i: nat)
    requires |table| == NUM && forall d <- table :: d == Desc(None, false, Some(0))
    ensures Unmapped(table, Onward(table, head, i))
    decreases i
  {
    assert At(table, head) in table;
    if i > 0 {
      SelfLoop(table, 0, i - 1);
    }
  }

  ghost predicate AllMapped(table: seq<Desc>) {
    forall d :: d in table ==> d.mem.Some?
  }

  lemma {:induction false} MappedCount(table: seq<Desc>, seen: seq<nat>)
    requires |table| == NUM && AllMapped(table)
    ensures Count(table, seen, false) + Count(table, seen, true) == |seen|
    decreases |seen|
  {
    if seen != [] {
      MappedCount(table, seen[..|seen| - 1]);
      assert At(table, seen[|seen| - 1]) in table;
    }
  }

  lemma {:induction false} SeenGrows(table: seq<Desc>, s: Walk, n: nat)
    requires |table| == NUM
    ensures var t := Visits(table, s, n); t.more ==> |t.seen| == |s.seen| + n
    decreases n
  {
    if n > 0 && s.more {
      SeenGrows(table, Visit(table, s), n - 1);
    }
  }

  /** When mapping succeeds, at most 2047 descriptors are visited, however the chain is linked. */
  lemma EndsWithin2047(table: seq<Desc>, head: nat)
    requires |table| == NUM && AllMapped(table)
    ensures !Visits(table, Begin(head), 2 * IOVEC_LEN - 1).more
    ensures |Visits(table, Begin(head), 2 * IOVEC_LEN - 1).seen| <= 2 * IOVEC_LEN - 1
  {
    var t := Visits(table, Begin(head), 2 * IOVEC_LEN - 1);
    VisitsLimited(table, Begin(head), 2 * IOVEC_LEN - 1);
    MappedCount(table, t.seen);
    SeenGrows(table, Begin(head), 2 * IOVEC_LEN - 1);
    SeenBound(table, Begin(head), 2 * IOVEC_LEN - 1);
  }

  lemma {:induction false} SeenBound(table: seq<Desc>, s: Walk, n: nat)
    requires |table| == NUM
    ensures |Visits(table, s, n).seen| <= |s.seen| + n
    decreases n
  {
    if n > 0 && s.more {
      SeenBound(table, Visit(table, s), n - 1);
    }
  }

  /** The descriptors of a whole walk: linked from the head on, up to the end of the chain or a full list. */
  ghost predicate Walked(table: seq<Desc>, head: nat, seen: seq<nat>)
    requires |table| == NUM
  {
    && seen != [] && Linked(table, head, seen[..|seen| - 1], seen[|seen| - 1])
    && (At(table, seen[|seen| - 1]).next.None? || Count(table, seen, false) == IOVEC_LEN || Count(table, seen, true) == IOVEC_LEN)
  }

  // ----- what is collected, read off the table -----

  /** The descriptors visited. */
  function Descs(table: seq<Desc>, seen: seq<nat>): (ds: seq<Desc>)
    requires |table| == NUM
    ensures |ds| == |seen|
  {
    seq(|seen|, i requires 0 <= i < |seen| => table[seen[i] % 1024])
  }

  /** Their readable or their writable memory, in order, leaving out what could not be mapped. */
  function Pick(ds: seq<Desc>, write: bool): seq<seq<byte>> {
    if ds == [] then []
    else
      (match ds[0].mem
       case Some(m) => if ds[0].write == write then [m] else []
       case None => [])
      + Pick(ds[1..], write)
  }

  /** The chain from the head on, up to its end or to where a list is full, whichever comes first. */
  ghost predicate Gathered(table: seq<Desc>, head: nat, seen: seq<nat>)
    requires |table| == NUM
  {
    && seen != [] && seen[0] == head
    && (forall i, j :: 0 <= i < j < |seen| && j == i + 1 ==> table[seen[i] % 1024].next == Some(seen[j]))
    && (forall k :: 0 <= k < |seen| ==> HasRoom(table, seen[..k]))
    && (table[seen[|seen| - 1] % 1024].next.None? || !HasRoom(table, seen))
  }

  ghost predicate HasRoom(table: seq<Desc>, seen: seq<nat>)
    requires |table| == NUM
  {
    |Pick(Descs(table, seen), false)| < IOVEC_LEN && |Pick(Descs(table, seen), true)| < IOVEC_LEN
  }

  lemma {:induction false} PickAppend(a: seq<Desc>, b: seq<Desc>, write: bool)
    ensures Pick(a + b, write) == Pick(a, write) + Pick(b, write)
  {
    if a == [] {
      assert a + b == b;
    } else {
      assert (a + b)[1..] == a[1..] + b;
      PickAppend(a[1..], b, write);
    }
  }

  lemma {:induction false} SelectIsPick(table: seq<Desc>, seen: seq<nat>, write: bool)
    requires |table| == NUM
    ensures Select(table, seen, write) == Pick(Descs(table, seen), write)
    decreases |seen|
  {
    if seen != [] {
      var n := |seen| - 1;
      var last := [table[seen[n] % 1024]];
      SelectIsPick(table, seen[..n], write);
      assert Descs(table, seen) == Descs(table, seen[..n]) + last;
      PickAppend(Descs(table, seen[..n]), last, write);
      assert last[1..] == [];
    }
  }

  /** No list was full before the last visit. */
  ghost predicate Early(table: seq<Desc>, seen: seq<nat>)
    requires |table| == NUM
  {
    forall k :: 0 <= k < |seen| ==> HasRoom(table, seen[..k])
  }

  lemma EarlyMore(table: seq<Desc>, s: Walk)
    requires |table| == NUM && s.more && Limited(table, s) && Early(table, s.seen)
    ensures Early(table, Visit(table, s).seen)
  {
    var after := Visit(table, s).seen;
    SelectIsPick(table, s.seen, false);
    SelectIsPick(table, s.seen, true);
    forall k | 0 <= k < |after|
      ensures HasRoom(table, after[..k])
    {
      assert after[..k] == s.seen[..k];
      if k == |s.seen| {
        assert s.seen[..k] == s.seen;
      }
    }
  }

  lemma WalkBegins(table: seq<Desc>, head: nat)
    requires |table| == NUM
    ensures var s := Begin(head);
            && Early(table, s.seen) && Limited(table, s) && Linked(table, head, s.seen, head)
            && Select(table, s.seen, false) == Select(table, s.seen, true) == []
  {
  }

  lemma GatheredEnd(table: seq<Desc>, head: nat, seen: seq<nat>)
    requires |table| == NUM && Walked(table, head, seen) && Early(table, seen)
    ensures Gathered(table, head, seen)
  {
    var n := |seen| - 1;
    LinkedAt(table, head, seen[..n], seen[n]);
    assert seen[..n] + [seen[n]] == seen;
    SelectIsPick(table, seen, false);
    SelectIsPick(table, seen, true);
  }

  /** So which descriptors these are is settled by the table and the head. */
  lemma {:induction false} GatheredSame(table: seq<Desc>, head: nat, a: seq<nat>, b: seq<nat>)
    requires |table| == NUM && Gathered(table, head, a) && Gathered(table, head, b)
    ensures a == b
  {
    if |a| <= |b| {
      PrefixSame(table, head, a, b, |a|);
    } else {
      PrefixSame(table, head, b, a, |b|);
    }
  }

  lemma {:induction false} PrefixSame(table: seq<Desc>, head: nat, a: seq<nat>, b: seq<nat>, k: nat)
    requires |table| == NUM && Gathered(table, head, a) && Gathered(table, head, b) && 0 < k <= |a| <= |b|
    ensures a[..k] == b[..k] && (k == |a| ==> a == b)
    decreases k
  {
    if k > 1 {
      PrefixSame(table, head, a, b, k - 1);
      assert a[k - 2] == a[..k - 1][k - 2] == b[..k - 1][k - 2] == b[k - 2];
    }
    assert a[k - 1] == b[k - 1];
    assert a[..k] == a[..k - 1] + [a[k - 1]] && b[..k] == b[..k - 1] + [b[k - 1]];
    assert k == |a| ==> a[..k] == a;
    assert k < |b| ==> HasRoom(table, b[..k]) && table[b[k - 1] % 1024].next == Some(b[k]);
  }

  // ----- requests -----

  class Request {
    const idx: nat
    var r: seq<seq<byte>>
    var w: seq<seq<byte>>
    var mapped: bool
    var refcount: nat
    ghost var unmaps: seq<nat>  // how often each of r, and then of w, has been unmapped
    ghost var freed: bool
    ghost var given: seq<byte>  // what the driver's writable memory held when it was mapped

    /** Owned by one holder, its memory mapped and not written to. */
    ghost predicate Live()
      reads this
    {
      && refcount == 1 && mapped && !freed && |unmaps| == |r| + |w| && Flat(w) == given
      && forall i :: 0 <= i < |unmaps| ==> unmaps[i] == 0
    }

    /** The driver's memory starts with the response, as much of it as there is room for, and the used element says how
        much that is. */
    ghost predicate Got(resp: seq<byte>, used: Used)
      reads this
    {
      var n := Min(|resp|, |given|);
      used == Used(idx, n) && Flat(w) == resp[..n] + given[n..]
    }

    /** Each mapping was undone once, and the request freed. */
    ghost predicate Done()
      reads this
    {
      && refcount == 0 && !mapped && freed && |unmaps| == |r| + |w|
      && forall i :: 0 <= i < |unmaps| ==> unmaps[i] == 1
    }

    constructor (idx: nat)
      ensures this.idx == idx && r == w == [] && refcount == 1 && !mapped && !freed && unmaps == []
    {
      this.idx := idx;
      r, w, refcount, mapped := [], [], 1, false;
      unmaps, freed, given := [], false, [];
    }

    method Ref()
      requires 0 < refcount && !freed
      modifies this`refcount
      ensures refcount == old(refcount) + 1
    {
      refcount := refcount + 1;
    }

    /** The last reference must not go while the memory is mapped. */
    method Unref()
      requires 0 < refcount && !freed && (refcount == 1 ==> !mapped)
      modifies this`refcount, this`freed
      ensures refcount == old(refcount) - 1 && (freed <==> refcount == 0)
    {
      refcount := refcount - 1;
      if refcount > 0 {
        return;
      }
      freed := true;
    }

    /** One turn of the loop in vqueue_get_request: the iovec is kept only if the mapping succeeded. */
    method Add(d: Desc) returns (full: bool)
      modifies this`r, this`w
      ensures r == old(r) + if d.mem.Some? && !d.write then [d.mem.value] else []
      ensures w == old(w) + if d.mem.Some? && d.write then [d.mem.value] else []
      ensures full == (d.mem.Some? && (if d.write then |w| else |r|) >= IOVEC_LEN)
    {
      full := false;
      if d.mem.Some? {
        if d.write {
          w := w + [d.mem.value];
          full := |w| >= IOVEC_LEN;
        } else {
          r := r + [d.mem.value];
          full := |r| >= IOVEC_LEN;
        }
      }
    }

    method CollectOne(table: seq<Desc>, didx: nat, ghost walk: Walk) returns (more: bool, next: nat)
      requires |table| == NUM && didx == walk.at && walk.more
      requires r == Select(table, walk.seen, false) && w == Select(table, walk.seen, true)
      modifies this`r, this`w
      ensures var after := Visit(table, walk);
              && more == after.more && next == after.at
              && r == Select(table, after.seen, false) && w == Select(table, after.seen, true)
    {
      SelectSnoc(table, walk.seen, didx, false);
      SelectSnoc(table, walk.seen, didx, true);
      var d := At(table, didx);
      var full := Add(d);
      more, next := !full && d.next.Some?, didx;
      if d.next.Some? {
        next := d.next.value;
      }
    }

    /** The loop over the descriptors. */
    method Collect(table: seq<Desc>) returns (ghost seen: seq<nat>)
      requires |table| == NUM && r == w == [] && !TrapAhead(table, idx)
      modifies this`r, this`w, this`unmaps, this`given
      ensures Gathered(table, idx, seen) && given == Flat(w)
      ensures r == Pick(Descs(table, seen), false) && w == Pick(Descs(table, seen), true)
      ensures unmaps == seq(|r| + |w|, _ => 0)
    {
      hide Early, Gathered, Pick, Descs, At, Select, Count;
      ghost var walk := Begin(idx);
      WalkBegins(table, idx);
      StopsUnlessTrapped(table, idx);
      ghost var n: nat :| !Visits(table, walk, n).more;
      var didx, more := idx, true;
      while more
        invariant didx == walk.at && more == walk.more
        invariant Limited(table, walk) && if more then Linked(table, idx, walk.seen, didx) else Walked(table, idx, walk.seen)
        invariant r == Select(table, walk.seen, false) && w == Select(table, walk.seen, true)
        invariant !Visits(table, walk, n).more && Early(table, walk.seen)
        decreases more, n
      {
        EarlyMore(table, walk);
        VisitLinked(table, idx, walk);
        VisitLimited(table, walk);
        more, didx := CollectOne(table, didx, walk);
        walk, n := Visit(table, walk), n - 1;
      }
      seen := walk.seen;
      GatheredEnd(table, idx, seen);
      SelectIsPick(table, seen, false);
      SelectIsPick(table, seen, true);
      unmaps, given := seq(|r| + |w|, _ => 0), Flat(w);
    }

    /** Both unmapping loops of vqueue_send_response. */
    method Unmap()
      requires |unmaps| == |r| + |w| && forall i :: 0 <= i < |unmaps| ==> unmaps[i] == 0
      modifies this`unmaps
      ensures |unmaps| == |r| + |w| && forall i :: 0 <= i < |unmaps| ==> unmaps[i] == 1
    {
      for i := 0 to |r|
        invariant |unmaps| == |r| + |w|
        invariant forall k :: 0 <= k < |unmaps| ==> unmaps[k] == if k < i then 1 else 0
      {
        unmaps := unmaps[i := unmaps[i] + 1];
      }
      for i := 0 to |w|
        invariant |unmaps| == |r| + |w|
        invariant forall k :: 0 <= k < |unmaps| ==> unmaps[k] == if k < |r| + i then 1 else 0
      {
        unmaps := unmaps[|r| + i := unmaps[|r| + i] + 1];
      }
    }
  }

  // ----- the rings -----

  datatype Used = Used(id: nat, len: nat)

  /** The slots of a ring hold the last NUM entries ever put into it, the k-th at k modulo NUM. */
  ghost predicate Holds<T>(ring: seq<T>, history: seq<T>) {
    |ring| == NUM && forall k :: 0 <= k < |history| && |history| <= k + NUM ==> ring[k % 1024] == history[k]
  }

  /** A ring slot is the same before and after an index wraps. */
  lemma SlotOf(n: nat)
    ensures (n % 0x1_0000) % 1024 == n % 1024
  {
    var q, r := n / 0x1_0000, n % 0x1_0000;
    assert n == NUM * (64 * q + r / 1024) + r % 1024;
  }

  lemma WrapNext(n: nat)
    ensures (n % 0x1_0000 + 1) % 0x1_0000 == (n + 1) % 0x1_0000
  {
  }

  lemma SlotsDiffer(j: nat, k: nat)
    requires j < k < j + NUM
    ensures j % 1024 != k % 1024
  {
  }

  /** Overwriting the slot of the index, wrapped at 2^16 as it is, keeps the newest NUM entries. */
  lemma HoldsMore<T>(ring: seq<T>, history: seq<T>, x: T)
    requires Holds(ring, history)
    ensures Holds(ring[(|history| % 0x1_0000) % 1024 := x], history + [x])
  {
    var n := |history|;
    SlotOf(n);
    forall k | 0 <= k < n + 1 && n + 1 <= k + NUM
      ensures ring[n % 1024 := x][k % 1024] == (history + [x])[k]
    {
      if k < n {
        SlotsDiffer(k, n);
      }
    }
  }

  /** The wrapped indices differ exactly when requests are waiting, as long as no more wait than the ring holds. */
  lemma AvailableIff(fetched: nat, offered: nat)
    requires fetched <= offered <= fetched + NUM
    ensures fetched % 0x1_0000 != offered % 0x1_0000 <==> fetched < offered
  {
  }

  class Queue {
    const availRing: array<nat>
    const usedRing: array<Used>
    var availIdx: nat
    var usedIdx: nat
    var lastAvailIdx: nat
    ghost var offered: seq<nat>   // every chain the driver has made available
    ghost var fetched: nat        // how many of them were taken
    ghost var history: seq<Used>  // every entry ever put into the used ring

    ghost predicate Valid()
      reads this, availRing, usedRing
    {
      && fetched <= |offered| <= fetched + NUM
      && availIdx == |offered| % 0x1_0000 && lastAvailIdx == fetched % 0x1_0000 && usedIdx == |history| % 0x1_0000
      && Holds(availRing[..], offered) && Holds(usedRing[..], history)
    }

    constructor ()
      ensures Valid() && offered == [] && history == [] && fetched == 0
      ensures fresh(availRing) && fresh(usedRing)
    {
      availRing, usedRing := new nat[NUM](_ => 0), new Used[NUM](_ => Used(0, 0));
      availIdx, usedIdx, lastAvailIdx := 0, 0, 0;
      offered, fetched, history := [], 0, [];
    }

    /** What the driver does. */
    method Offer(head: nat)
      requires Valid() && |offered| < fetched + NUM
      modifies this`availIdx, this`offered, availRing
      ensures Valid() && offered == old(offered) + [head]
    {
      HoldsMore(availRing[..], offered, head);
      WrapNext(|offered|);
      ghost var ring := availRing[..];
      availRing[availIdx % 1024] := head;
      assert availRing[..] == ring[availIdx % 1024 := head];
      offered := offered + [head];
      availIdx := (availIdx + 1) % 0x1_0000;
    }

    method AreRequestsAvailable() returns (available: bool)
      requires Valid()
      ensures available <==> fetched < |offered|
    {
      AvailableIff(fetched, |offered|);
      available := lastAvailIdx != availIdx;
    }

    method NextHead() returns (head: nat)
      requires Valid() && fetched < |offered|
      ensures head == offered[fetched]
    {
      SlotOf(fetched);
      head := availRing[lastAvailIdx % 1024];
    }

    method Advance()
      requires Valid() && fetched < |offered|
      modifies this`fetched, this`lastAvailIdx
      ensures Valid() && fetched == old(fetched) + 1
    {
      WrapNext(fetched);
      lastAvailIdx := (lastAvailIdx + 1) % 0x1_0000;
      fetched := fetched + 1;
    }

    method GetRequest(table: seq<Desc>) returns (req: Request, ghost seen: seq<nat>)
      requires Valid() && fetched < |offered| && |table| == NUM
      requires !TrapAhead(table, offered[fetched])
      modifies this`fetched, this`lastAvailIdx
      ensures Valid() && fetched == old(fetched) + 1
      ensures fresh(req) && req.Live() && req.idx == offered[fetched - 1]
      ensures Gathered(table, req.idx, seen)
      ensures req.r == Pick(Descs(table, seen), false) && req.w == Pick(Descs(table, seen), true)
    {
      var head := NextHead();
      req := new Request(head);
      seen := req.Collect(table);
      Advance();
      req.mapped := true;
    }

    method PutUsed(el: Used)
      requires Valid()
      modifies this`usedIdx, this`history, usedRing
      ensures Valid() && history == old(history) + [el]
    {
      HoldsMore(usedRing[..], history, el);
      WrapNext(|history|);
      ghost var ring := usedRing[..];
      usedRing[usedIdx % 1024] := el;
      assert usedRing[..] == ring[usedIdx % 1024 := el];
      history := history + [el];
      usedIdx := (usedIdx + 1) % 0x1_0000;
    }

    method SendResponse(req: Request, resp: seq<byte>)
      requires Valid() && req.Live()
      modifies this`usedIdx, this`history, usedRing, req`w, req`unmaps, req`mapped, req`refcount, req`freed
      ensures Valid() && req.Done()
      ensures var n := Min(|resp|, |Flat(old(req.w))|);
              && history == old(history) + [Used(req.idx, n)] && req.Got(resp, Used(req.idx, n))
              && Flat(req.w) == resp[..n] + Flat(old(req.w))[n..] && SameShape(req.w, old(req.w))
      ensures req.r == old(req.r)
    {
      var out, len := CopyToIov(req.w, resp);
      req.w := out;
      req.Unmap();
      req.mapped := false;
      PutUsed(Used(req.idx, len));
      req.Unref();
    }
  }
}

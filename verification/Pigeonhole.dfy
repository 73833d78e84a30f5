/**
 Different numbers below m are at most m.
 */
module Pigeonhole {

  lemma {:induction false} Bounded(a: set<int>, m: nat)
    requires forall x <- a :: 0 <= x < m
    ensures |a| <= m
  {
    if m == 0 {
      assert forall x :: x !in a;
    } else {
      Bounded(a - {m - 1}, m - 1);
    }
  }

  lemma {:induction false} Distinct(codes: seq<int>)
    requires forall i, j :: 0 <= i < j < |codes| ==> codes[i] != codes[j]
    ensures |set i | 0 <= i < |codes| :: codes[i]| == |codes|
  {
    var all := set i | 0 <= i < |codes| :: codes[i];
    if codes != [] {
      var n := |codes| - 1;
      Distinct(codes[..n]);
      var most := set i | 0 <= i < n :: codes[..n][i];
      assert all == most + {codes[n]};
      assert codes[n] !in most;
    } else {
      assert all == {};
    }
  }

  lemma DistinctFit(codes: seq<int>, m: nat)
    requires forall i :: 0 <= i < |codes| ==> 0 <= codes[i] < m
    requires forall i, j :: 0 <= i < j < |codes| ==> codes[i] != codes[j]
    ensures |codes| <= m
  {
    Distinct(codes);
    Bounded(set i | 0 <= i < |codes| :: codes[i], m);
  }
}

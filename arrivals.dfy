/** Arrival scheduler: turns interarrival gaps into absolute arrival times. */
module Arrivals {

  /** Total of a sequence of whole-second durations. */
  function TotalGap(gaps: seq<nat>): nat
  {
    if |gaps| == 0 then 0 else TotalGap(gaps[..|gaps| - 1]) + gaps[|gaps| - 1]
  }

  /** Reference definition: customer i arrives once the first i + 1 gaps have elapsed. */
  function ArrivalTimes(gaps: seq<nat>): (r: seq<nat>)
    ensures |r| == |gaps|
  {
    seq(|gaps|, i requires 0 <= i < |gaps| => TotalGap(gaps[..i + 1]))
  }

  /** The running-sum loop that builds the arrival list by appending. */
  method ScheduleArrivals(gaps: seq<nat>) returns (arrivals: seq<nat>)
    requires |gaps| >= 1
    ensures arrivals == ArrivalTimes(gaps)
    ensures arrivals[0] == gaps[0]
    ensures forall i :: 1 <= i < |gaps| ==> arrivals[i] == arrivals[i - 1] + gaps[i]
  {
    assert gaps[..1] == [gaps[0]];
    assert gaps[..1][..0] == [];
    arrivals := [gaps[0]];
    var i := 1;
    while i < |gaps|
      invariant 1 <= i <= |gaps|
      invariant |arrivals| == i
      invariant forall k :: 0 <= k < i ==> arrivals[k] == TotalGap(gaps[..k + 1])
      invariant arrivals[0] == gaps[0]
      invariant forall k :: 1 <= k < i ==> arrivals[k] == arrivals[k - 1] + gaps[k]
    {
      var next := arrivals[i - 1] + gaps[i];
      assert gaps[..i + 1][..i] == gaps[..i];
      arrivals := arrivals + [next];
      i := i + 1;
    }
  }

  /** A longer prefix of the gaps never totals less. */
  lemma {:induction false} TotalGapPrefixGrows(gaps: seq<nat>, i: nat, j: nat)
    requires i <= j <= |gaps|
    ensures TotalGap(gaps[..i]) <= TotalGap(gaps[..j])
    decreases j - i
  {
    if i < j {
      TotalGapPrefixGrows(gaps, i, j - 1);
      assert gaps[..j][..j - 1] == gaps[..j - 1];
    }
  }

  /** A longer prefix of strictly positive gaps totals strictly more. */
  lemma {:induction false} TotalGapPrefixIncreases(gaps: seq<nat>, i: nat, j: nat)
    requires i < j <= |gaps|
    requires forall k :: 0 <= k < |gaps| ==> gaps[k] > 0
    ensures TotalGap(gaps[..i]) < TotalGap(gaps[..j])
    decreases j - i
  {
    assert gaps[..j][..j - 1] == gaps[..j - 1];
    if i < j - 1 {
      TotalGapPrefixIncreases(gaps, i, j - 1);
    }
  }

  /** Arrival times are non-decreasing, so array order is arrival order. */
  lemma ArrivalsNonDecreasing(gaps: seq<nat>)
    ensures forall i, j :: 0 <= i <= j < |gaps| ==> ArrivalTimes(gaps)[i] <= ArrivalTimes(gaps)[j]
  {
    forall i, j | 0 <= i <= j < |gaps|
      ensures ArrivalTimes(gaps)[i] <= ArrivalTimes(gaps)[j]
    {
      TotalGapPrefixGrows(gaps, i + 1, j + 1);
    }
  }

  /** With strictly positive gaps no two customers arrive at the same second. */
  lemma ArrivalsIncreaseWithPositiveGaps(gaps: seq<nat>)
    requires forall k :: 0 <= k < |gaps| ==> gaps[k] > 0
    ensures forall i, j :: 0 <= i < j < |gaps| ==> ArrivalTimes(gaps)[i] < ArrivalTimes(gaps)[j]
  {
    forall i, j | 0 <= i < j < |gaps|
      ensures ArrivalTimes(gaps)[i] < ArrivalTimes(gaps)[j]
    {
      TotalGapPrefixIncreases(gaps, i + 1, j + 1);
    }
  }
}

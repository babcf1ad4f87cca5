/** Occupancy integrator and violation counter. */
module Occupancy {
  import opened Timeline

  /** P: at or above this many customers in the system the second counts as a violation (queue limit 50, plus one). */
  const Threshold: int := 51

  /** Number of entries of xs that are at least p. */
  function CountAtLeast(xs: seq<int>, p: int): (r: nat)
    ensures r <= |xs|
  {
    if |xs| == 0 then 0
    else CountAtLeast(xs[..|xs| - 1], p) + (if xs[|xs| - 1] >= p then 1 else 0)
  }

  /** No second is counted exactly when every entry is below p, and every second is counted exactly when every entry reaches p. */
  lemma {:induction false} CountAtLeastExtremes(xs: seq<int>, p: int)
    ensures CountAtLeast(xs, p) == 0 <==> forall i :: 0 <= i < |xs| ==> xs[i] < p
    ensures CountAtLeast(xs, p) == |xs| <==> forall i :: 0 <= i < |xs| ==> xs[i] >= p
  {
    if |xs| > 0 {
      var init := xs[..|xs| - 1];
      CountAtLeastExtremes(init, p);
      assert forall i :: 0 <= i < |init| ==> init[i] == xs[i];
    }
  }

  /** Appending one entry adds one to the count exactly when that entry reaches p. */
  lemma CountAtLeastSnoc(xs: seq<int>, x: int, p: int)
    ensures CountAtLeast(xs + [x], p) == CountAtLeast(xs, p) + (if x >= p then 1 else 0)
  {
    assert (xs + [x])[..|xs|] == xs;
  }

  /**
   * The service-level test: the violation fraction is at most 5%. Stated
   * over exact rationals, decided with integers only.
   */
  function MeetsTarget(violations: nat, duration: nat): (ok: bool)
    requires duration > 0
    ensures ok <==> (violations as real) / (duration as real) <= 0.05
  {
    var fraction := (violations as real) / (duration as real);
    assert fraction * (duration as real) == violations as real;
    20 * violations <= duration
  }

  /**
   * The scan over the delta array: a running count n rebuilds the occupancy
   * series, and each second at or above the threshold is tallied.
   */
  method Integrate(t: array<int>) returns (series: array<int>, violations: nat)
    ensures series.Length == t.Length
    ensures forall i :: 0 <= i < t.Length ==> series[i] == Sum(t[..i + 1])
    ensures violations == CountAtLeast(series[..], Threshold)
    ensures violations <= t.Length
  {
    violations := 0;
    series := new int[t.Length](_ => 0);
    var n := 0;
    var i := 0;
    while i < t.Length
      invariant 0 <= i <= t.Length
      invariant n == Sum(t[..i])
      invariant forall k :: 0 <= k < i ==> series[k] == Sum(t[..k + 1])
      invariant violations == CountAtLeast(series[..i], Threshold)
    {
      SumSnoc(t[..], i);
      ghost var done := series[..i];
      n := n + t[i];
      series[i] := n;
      assert series[..i + 1] == done + [n];
      CountAtLeastSnoc(done, n, Threshold);
      if series[i] >= Threshold {
        violations := violations + 1;
      }
      i := i + 1;
    }
    assert series[..] == series[..t.Length];
  }
}

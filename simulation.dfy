/**
 * One simulation run of the M/M/s queue on given whole-second interarrival
 * gaps and service times: arrivals, server allocation, the +1/-1 timeline,
 * and the occupancy scan with its violation count.
 */
module Simulation {
  import opened Arrivals
  import opened Allocator
  import opened Timeline
  import opened Occupancy

  /** What a run reports: the server count, seconds at or above the threshold, the timeline length, the occupancy series and the verdict. */
  datatype Report = Report(serverCount: nat, violations: nat, duration: nat, occupancy: seq<int>, meetsSpec: bool)

  /** Service start times of a run with the given gaps. */
  function RunStarts(gaps: seq<nat>, service: seq<nat>, s: nat): (r: seq<nat>)
    requires s >= 1 && |gaps| == |service|
    ensures |r| == |gaps|
  {
    Starts(ArrivalTimes(gaps), service, s, |gaps|)
  }

  /**
   * The code's own timeline length is short by at most one second: no
   * departure lies beyond it, so the model's length is the code's length or
   * one more.
   */
  lemma DeparturesWithinAsWrittenLength(gaps: seq<nat>, service: seq<nat>, s: nat)
    requires s >= 1 && |gaps| == |service| >= 1
    ensures var starts := RunStarts(gaps, service, s);
            && (forall c :: 0 <= c < |gaps| ==> Departures(starts, service)[c] <= AsWrittenLength(starts, service))
            && TimelineLength(starts, service) <= AsWrittenLength(starts, service) + 1
  {
    var arrivals := ArrivalTimes(gaps);
    var starts := RunStarts(gaps, service, s);
    var last := |gaps| - 1;
    ArrivalsNonDecreasing(gaps);
    forall c | 0 <= c < |gaps|
      ensures Departures(starts, service)[c] <= AsWrittenLength(starts, service)
    {
      StartsAt(arrivals, service, s, |gaps|, c);
      StartsAt(arrivals, service, s, |gaps|, last);
      if c < last {
        StartsNearlyOrdered(arrivals, service, s, c, last);
      }
    }
    var departures := Departures(starts, service);
    var latest := Max(departures);
    assert exists c :: 0 <= c < |departures| && departures[c] == latest;
  }

  /** The model's timeline length leaves room for every arrival and every departure. */
  lemma LengthCoversEvents(arrivals: seq<nat>, starts: seq<nat>, service: seq<nat>)
    requires |arrivals| == |starts| == |service| >= 1
    requires forall c :: 0 <= c < |arrivals| ==> arrivals[c] <= starts[c]
    ensures InRange(arrivals, Departures(starts, service), TimelineLength(starts, service))
  {
    var departures := Departures(starts, service);
    var len := TimelineLength(starts, service);
    forall c | 0 <= c < |arrivals|
      ensures arrivals[c] < len
    {
      assert arrivals[c] <= starts[c] <= departures[c];
    }
  }

  /**
   * A full run. The timeline is sized by TimelineLength, which agrees with
   * the code's sizing on every input the code accepts.
   */
  method Simulate(gaps: seq<nat>, service: seq<nat>, s: nat) returns (r: Report)
    requires s >= 1 && |gaps| >= 1 && |service| == |gaps|
    ensures r.serverCount == s
    ensures r.duration == TimelineLength(RunStarts(gaps, service, s), service) && r.duration > 0
    ensures |r.occupancy| == r.duration
    ensures forall k :: 0 <= k < r.duration ==>
              r.occupancy[k] == InSystem(ArrivalTimes(gaps), Departures(RunStarts(gaps, service, s), service), k, |gaps|)
    ensures forall k :: 0 <= k < |r.occupancy| ==> r.occupancy[k] >= 0
    ensures r.violations == CountAtLeast(r.occupancy, Threshold) && r.violations <= r.duration
    ensures r.meetsSpec <==> 20 * r.violations <= r.duration
  {
    var arrivals := ScheduleArrivals(gaps);
    var starts := AssignServers(arrivals, service, s);
    var len := TimelineLength(starts, service);
    LengthCoversEvents(arrivals, starts, service);
    var t := BuildTimeline(arrivals, starts, service, len);
    var series, violations := Integrate(t);
    ghost var departures := Departures(starts, service);
    assert starts == RunStarts(gaps, service, s);
    forall k | 0 <= k < len
      ensures series[..][k] == InSystem(arrivals, departures, k, |gaps|) && series[..][k] >= 0
    {
      var n := InSystem(arrivals, departures, k, |gaps|);
      assert 0 <= n;
    }
    r := Report(s, violations, len, series[..], MeetsTarget(violations, len));
  }

  /** Arrival times of the counterexample run. */
  lemma ExampleArrivals(gaps: seq<nat>)
    requires gaps == [1, 1, 1, 1]
    ensures ArrivalTimes(gaps) == [1, 2, 3, 4]
  {
    assert gaps[..1] == [1] && gaps[..2] == [1, 1] && gaps[..3] == [1, 1, 1] && gaps[..4] == gaps;
    assert TotalGap([1]) == 1 by { assert [1][..0] == []; }
    assert TotalGap([1, 1]) == 2 by { assert [1, 1][..1] == [1]; }
    assert TotalGap([1, 1, 1]) == 3 by { assert [1, 1, 1][..2] == [1, 1]; }
    assert TotalGap(gaps) == 4 by { assert gaps[..3] == [1, 1, 1]; }
  }

  /** A customer that finds server `free` idle, and no idle server before it, starts on arrival there. */
  lemma ExamplePlaceFree(busy: seq<nat>, arrival: nat, free: nat)
    requires free < |busy| && busy[free] <= arrival
    requires forall j :: 0 <= j < free ==> busy[j] > arrival
    ensures Place(busy, arrival) == Placement(arrival, free)
  {
    var f := FirstFree(busy, arrival);
    assert f == free;
  }

  /**
   * Start times of the counterexample run: customer 2 finds both servers
   * busy until 4 and starts at 5, customer 3 then finds server 1 free and
   * starts at 4, one second earlier.
   */
  lemma ExampleStarts(arrivals: seq<nat>, service: seq<nat>)
    requires arrivals == [1, 2, 3, 4] && service == [3, 2, 10, 1]
    ensures Starts(arrivals, service, 2, 4) == [1, 2, 5, 4]
  {
    FirstCustomerOnServerZero(arrivals, service, 2);
    var b1 := Busy(arrivals, service, 2, 1);
    assert b1 == [4, 0];
    NextCustomer(arrivals, service, 2, 1);
    ExamplePlaceFree(b1, 2, 1);
    var b2 := Busy(arrivals, service, 2, 2);
    assert b2 == [4, 4];
    assert Starts(arrivals, service, 2, 2) == [1, 2];
    NextCustomer(arrivals, service, 2, 2);
    assert FirstFree(b2, 3) == 2 && ArgMin(b2) == 0;
    assert Place(b2, 3) == Placement(5, 0);
    var b3 := Busy(arrivals, service, 2, 3);
    assert b3 == [15, 4];
    assert Starts(arrivals, service, 2, 3) == [1, 2, 5];
    NextCustomer(arrivals, service, 2, 3);
    ExamplePlaceFree(b3, 4, 1);
  }

  /**
   * The code's sizing really is short, even with every gap and service time
   * positive: with two servers, gaps 1, 1, 1, 1 and service times 3, 2, 10, 1,
   * customer 2 waits and starts at 5, customer 3 finds server 1 free and
   * starts at 4, so the array has 4 + 10 + 1 = 15 cells and customer 2's
   * departure index is 15.
   */
  lemma AsWrittenLengthTooShort(gaps: seq<nat>, service: seq<nat>)
    requires gaps == [1, 1, 1, 1] && service == [3, 2, 10, 1]
    ensures var starts := RunStarts(gaps, service, 2);
            && starts == [1, 2, 5, 4]
            && Departures(starts, service)[2] == AsWrittenLength(starts, service) == 15
  {
    ExampleArrivals(gaps);
    ExampleStarts(ArrivalTimes(gaps), service);
    var starts := RunStarts(gaps, service, 2);
    assert Max(service) == 10 by {
      assert service[2] == 10;
      assert Max(service[..3]) <= 10;
    }
  }
}

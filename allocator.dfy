/**
 * Server allocator. The state is one busy-until time per server; customers are
 * placed strictly in arrival order. The functions below are the specification
 * of the allocation loop; the methods at the end run it on an array that is
 * updated in place.
 */
module Allocator {

  /** First server whose busy-until time is at most `arrival`, or |busy| when none is free. */
  function FirstFree(busy: seq<nat>, arrival: nat): (k: nat)
    ensures k <= |busy|
    ensures forall j :: 0 <= j < k ==> busy[j] > arrival
    ensures k < |busy| ==> busy[k] <= arrival
    decreases |busy|
  {
    if |busy| == 0 then 0
    else if busy[0] <= arrival then 0
    else 1 + FirstFree(busy[1..], arrival)
  }

  /** First server holding the smallest busy-until time. */
  function ArgMin(busy: seq<nat>): (k: nat)
    requires |busy| > 0
    ensures k < |busy|
    ensures forall j :: 0 <= j < |busy| ==> busy[k] <= busy[j]
    ensures forall j :: 0 <= j < k ==> busy[j] > busy[k]
    decreases |busy|
  {
    if |busy| == 1 then 0
    else
      var k := ArgMin(busy[..|busy| - 1]);
      if busy[|busy| - 1] < busy[k] then |busy| - 1 else k
  }

  /** The smallest busy-until time over all servers. */
  function MinBusy(busy: seq<nat>): nat
    requires |busy| > 0
  {
    busy[ArgMin(busy)]
  }

  /** Where one customer is served and when service starts. */
  datatype Placement = Placement(start: nat, server: nat)

  /** One allocation decision: where the next customer goes and when its service starts. */
  function Place(busy: seq<nat>, arrival: nat): (p: Placement)
    requires |busy| > 0
    ensures p.server < |busy|
    ensures arrival <= p.start && busy[p.server] <= p.start
  {
    var f := FirstFree(busy, arrival);
    if f < |busy| then Placement(arrival, f)
    else
      var m := ArgMin(busy);
      Placement(busy[m] + 1, m)
  }

  /**
   * The placement rule. If some server is already free at the arrival time,
   * service starts on arrival, on the lowest-numbered free server; otherwise
   * it starts one second after the earliest busy-until time, strictly after
   * the arrival, on the first server holding that time.
   */
  lemma PlacementRule(busy: seq<nat>, arrival: nat)
    requires |busy| > 0
    ensures var p := Place(busy, arrival);
            (exists j :: 0 <= j < |busy| && busy[j] <= arrival) ==>
              && p.start == arrival
              && busy[p.server] <= arrival
              && forall j :: 0 <= j < p.server ==> busy[j] > arrival
    ensures var p := Place(busy, arrival);
            (forall j :: 0 <= j < |busy| ==> busy[j] > arrival) ==>
              && p.start == busy[p.server] + 1
              && arrival < p.start
              && (forall j :: 0 <= j < |busy| ==> busy[p.server] <= busy[j])
              && (forall j :: 0 <= j < p.server ==> busy[j] > busy[p.server])
  {
  }

  /** The inputs every allocation function works on: one arrival and one service time per customer, s >= 1 servers. */
  predicate WellFormed(arrivals: seq<nat>, service: seq<nat>, s: nat)
  {
    s >= 1 && |arrivals| == |service|
  }

  /** The server state after one placement: only the chosen server changes. */
  function NextBusy(busy: seq<nat>, arrival: nat, service: nat): (b: seq<nat>)
    requires |busy| > 0
    ensures |b| == |busy|
  {
    var p := Place(busy, arrival);
    busy[p.server := p.start + service]
  }

  /** Busy-until time of every server after the first k customers have been placed. */
  function Busy(arrivals: seq<nat>, service: seq<nat>, s: nat, k: nat): (b: seq<nat>)
    requires WellFormed(arrivals, service, s) && k <= |arrivals|
    ensures |b| == s
  {
    if k == 0 then seq(s, _ => 0)
    else NextBusy(Busy(arrivals, service, s, k - 1), arrivals[k - 1], service[k - 1])
  }

  /** Service start time of customer k. */
  function StartOf(arrivals: seq<nat>, service: seq<nat>, s: nat, k: nat): nat
    requires WellFormed(arrivals, service, s) && k < |arrivals|
  {
    Place(Busy(arrivals, service, s, k), arrivals[k]).start
  }

  /** Service start times of the first k customers, in arrival order. */
  function Starts(arrivals: seq<nat>, service: seq<nat>, s: nat, k: nat): (r: seq<nat>)
    requires WellFormed(arrivals, service, s) && k <= |arrivals|
    ensures |r| == k
  {
    if k == 0 then [] else Starts(arrivals, service, s, k - 1) + [StartOf(arrivals, service, s, k - 1)]
  }

  /** Entry i of the start list is customer i's start time, however many customers follow it. */
  lemma {:induction false} StartsAt(arrivals: seq<nat>, service: seq<nat>, s: nat, k: nat, i: nat)
    requires WellFormed(arrivals, service, s) && i < k <= |arrivals|
    ensures Starts(arrivals, service, s, k)[i] == StartOf(arrivals, service, s, i)
    decreases k
  {
    if i < k - 1 {
      StartsAt(arrivals, service, s, k - 1, i);
    }
  }

  /** One placement never lowers a server's busy-until time. */
  lemma NextBusyGrows(busy: seq<nat>, arrival: nat, service: nat, q: nat)
    requires q < |busy|
    ensures busy[q] <= NextBusy(busy, arrival, service)[q]
  {
    var p := Place(busy, arrival);
    assert busy[p.server] <= p.start;
  }

  /** A server's busy-until time never goes down as customers are placed. */
  lemma {:induction false} BusyNeverDecreases(arrivals: seq<nat>, service: seq<nat>, s: nat, k: nat, k': nat, q: nat)
    requires WellFormed(arrivals, service, s) && k <= k' <= |arrivals| && q < s
    ensures Busy(arrivals, service, s, k)[q] <= Busy(arrivals, service, s, k')[q]
    decreases k' - k
  {
    if k < k' {
      BusyNeverDecreases(arrivals, service, s, k, k' - 1, q);
      NextBusyGrows(Busy(arrivals, service, s, k' - 1), arrivals[k' - 1], service[k' - 1], q);
    }
  }

  /** Hence the earliest busy-until time never goes down either. */
  lemma MinBusyNeverDecreases(arrivals: seq<nat>, service: seq<nat>, s: nat, k: nat, k': nat)
    requires WellFormed(arrivals, service, s) && k <= k' <= |arrivals|
    ensures MinBusy(Busy(arrivals, service, s, k)) <= MinBusy(Busy(arrivals, service, s, k'))
  {
    var w := ArgMin(Busy(arrivals, service, s, k'));
    BusyNeverDecreases(arrivals, service, s, k, k', w);
  }

  /** A customer that waited starts no more than one second after the next state's earliest busy-until time. */
  lemma StartAfterPlacement(arrivals: seq<nat>, service: seq<nat>, s: nat, k: nat)
    requires WellFormed(arrivals, service, s) && k < |arrivals|
    ensures StartOf(arrivals, service, s, k) <= arrivals[k]
         || StartOf(arrivals, service, s, k) <= MinBusy(Busy(arrivals, service, s, k + 1)) + 1
  {
    MinBusyNeverDecreases(arrivals, service, s, k, k + 1);
  }

  /** Nobody starts before the earliest busy-until time of the state it finds. */
  lemma StartAtLeastEarliestFree(arrivals: seq<nat>, service: seq<nat>, s: nat, k: nat)
    requires WellFormed(arrivals, service, s) && k < |arrivals|
    ensures MinBusy(Busy(arrivals, service, s, k)) <= StartOf(arrivals, service, s, k)
  {
    var busy := Busy(arrivals, service, s, k);
    var p := Place(busy, arrivals[k]);
    assert busy[ArgMin(busy)] <= busy[p.server] <= p.start;
  }

  /**
   * Start times are not monotone, but a later customer never starts more
   * than one second before an earlier one (when arrivals are in order).
   */
  lemma StartsNearlyOrdered(arrivals: seq<nat>, service: seq<nat>, s: nat, i: nat, j: nat)
    requires WellFormed(arrivals, service, s)
    requires forall a, b :: 0 <= a <= b < |arrivals| ==> arrivals[a] <= arrivals[b]
    requires i < j < |arrivals|
    ensures StartOf(arrivals, service, s, i) <= StartOf(arrivals, service, s, j) + 1
  {
    StartAfterPlacement(arrivals, service, s, i);
    MinBusyNeverDecreases(arrivals, service, s, i + 1, j);
    StartAtLeastEarliestFree(arrivals, service, s, j);
    assert arrivals[i] <= arrivals[j];
  }

  /** The code's special case for customer 0 (server 0, no wait) is what the general rule gives on idle servers. */
  lemma FirstCustomerOnServerZero(arrivals: seq<nat>, service: seq<nat>, s: nat)
    requires WellFormed(arrivals, service, s) && |arrivals| >= 1
    ensures Starts(arrivals, service, s, 1) == [arrivals[0]]
    ensures Busy(arrivals, service, s, 1) == seq(s, _ => 0)[0 := arrivals[0] + service[0]]
  {
    var idle := Busy(arrivals, service, s, 0);
    assert idle[0] <= arrivals[0];
    assert FirstFree(idle, arrivals[0]) == 0;
  }

  /** No customer starts service before it arrives. */
  lemma NoServiceBeforeArrival(arrivals: seq<nat>, service: seq<nat>, s: nat, k: nat)
    requires WellFormed(arrivals, service, s) && k <= |arrivals|
    ensures forall i :: 0 <= i < k ==> arrivals[i] <= Starts(arrivals, service, s, k)[i]
  {
    forall i | 0 <= i < k
      ensures arrivals[i] <= Starts(arrivals, service, s, k)[i]
    {
      StartsAt(arrivals, service, s, k, i);
    }
  }

  /** One more customer: the placement rule applied to the current state. */
  lemma NextCustomer(arrivals: seq<nat>, service: seq<nat>, s: nat, k: nat)
    requires WellFormed(arrivals, service, s) && k < |arrivals|
    ensures Busy(arrivals, service, s, k + 1) == NextBusy(Busy(arrivals, service, s, k), arrivals[k], service[k])
    ensures Starts(arrivals, service, s, k + 1) == Starts(arrivals, service, s, k) + [Place(Busy(arrivals, service, s, k), arrivals[k]).start]
  {
  }

  /** Index of the first server free at `arrival`, or servers.Length when every server is busy. */
  method FirstFreeServer(servers: array<nat>, arrival: nat) returns (k: nat)
    ensures k <= servers.Length
    ensures forall j :: 0 <= j < k ==> servers[j] > arrival
    ensures k < servers.Length ==> servers[k] <= arrival
  {
    k := 0;
    while k < servers.Length && servers[k] > arrival
      invariant k <= servers.Length
      invariant forall j :: 0 <= j < k ==> servers[j] > arrival
    {
      k := k + 1;
    }
  }

  /** The smallest busy-until time in the array. */
  method Minimum(servers: array<nat>) returns (m: nat)
    requires servers.Length > 0
    ensures exists j :: 0 <= j < servers.Length && servers[j] == m
    ensures forall j :: 0 <= j < servers.Length ==> m <= servers[j]
  {
    m := servers[0];
    var i := 1;
    while i < servers.Length
      invariant 1 <= i <= servers.Length
      invariant exists j :: 0 <= j < i && servers[j] == m
      invariant forall j :: 0 <= j < i ==> m <= servers[j]
    {
      if servers[i] < m {
        m := servers[i];
      }
      i := i + 1;
    }
  }

  /** Position of the first occurrence of a value known to be in the array. */
  method IndexOf(servers: array<nat>, x: nat) returns (k: nat)
    requires exists j :: 0 <= j < servers.Length && servers[j] == x
    ensures k < servers.Length && servers[k] == x
    ensures forall j :: 0 <= j < k ==> servers[j] != x
  {
    k := 0;
    while servers[k] != x
      invariant k < servers.Length
      invariant forall j :: 0 <= j < k ==> servers[j] != x
      invariant exists j :: k <= j < servers.Length && servers[j] == x
      decreases servers.Length - k
    {
      k := k + 1;
    }
  }

  /** Places one customer and updates the chosen server, and only that one. */
  method Assign(servers: array<nat>, arrival: nat, service: nat) returns (start: nat, server: nat)
    requires servers.Length > 0
    modifies servers
    ensures Placement(start, server) == Place(old(servers[..]), arrival)
    ensures servers[..] == old(servers[..])[server := start + service]
  {
    ghost var busy := servers[..];
    var free := FirstFreeServer(servers, arrival);
    assert free == FirstFree(busy, arrival);
    if free == servers.Length {
      var m := Minimum(servers);
      start := m + 1;
      server := IndexOf(servers, m);
      ghost var r := ArgMin(busy);
      assert busy[r] == m;
      assert server == r;
    } else {
      start := arrival;
      server := free;
    }
    servers[server] := start + service;
  }

  /**
   * The allocation loop: customer 0 goes to server 0 on arrival, every later
   * customer is placed by Assign. Returns every customer's service start time.
   */
  method AssignServers(arrivals: seq<nat>, service: seq<nat>, s: nat) returns (starts: seq<nat>)
    requires WellFormed(arrivals, service, s) && |arrivals| >= 1
    ensures starts == Starts(arrivals, service, s, |arrivals|)
    ensures forall i :: 0 <= i < |arrivals| ==> arrivals[i] <= starts[i]
  {
    var servers := new nat[s](_ => 0);
    ghost var idle := servers[..];
    assert idle == seq(s, _ => 0);
    var start := arrivals[0];
    var finish := start + service[0];
    servers[0] := finish;
    starts := [start];
    assert servers[..] == idle[0 := finish];
    FirstCustomerOnServerZero(arrivals, service, s);
    var i := 1;
    while i < |arrivals|
      invariant 1 <= i <= |arrivals|
      invariant servers.Length == s
      invariant servers[..] == Busy(arrivals, service, s, i)
      invariant starts == Starts(arrivals, service, s, i)
    {
      var server;
      start, server := Assign(servers, arrivals[i], service[i]);
      NextCustomer(arrivals, service, s, i);
      starts := starts + [start];
      i := i + 1;
    }
    NoServiceBeforeArrival(arrivals, service, s, |arrivals|);
  }
}

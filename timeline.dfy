/**
 * Occupancy timeline: one signed cell per second, +1 at each arrival and -1
 * at each departure (service start plus service time).
 */
module Timeline {

  /** Sum of the cells of a delta array. */
  function Sum(s: seq<int>): int
  {
    if |s| == 0 then 0 else Sum(s[..|s| - 1]) + s[|s| - 1]
  }

  /** Extending a prefix by one cell adds that cell to its sum. */
  lemma SumSnoc(s: seq<int>, i: nat)
    requires i < |s|
    ensures Sum(s[..i + 1]) == Sum(s[..i]) + s[i]
  {
    assert s[..i + 1][..i] == s[..i];
  }

  /** Largest element of a non-empty sequence. */
  function Max(s: seq<nat>): (m: nat)
    requires |s| > 0
    ensures exists i :: 0 <= i < |s| && s[i] == m
    ensures forall i :: 0 <= i < |s| ==> s[i] <= m
  {
    if |s| == 1 then s[0]
    else
      var m := Max(s[..|s| - 1]);
      if s[|s| - 1] > m then s[|s| - 1] else m
  }

  /** Second at which each customer leaves: its service start plus its service time. */
  function Departures(starts: seq<nat>, service: seq<nat>): (d: seq<nat>)
    requires |starts| == |service|
    ensures |d| == |service|
    ensures forall c :: 0 <= c < |d| ==> starts[c] <= d[c]
  {
    seq(|service|, c requires 0 <= c < |service| => starts[c] + service[c])
  }

  /** Timeline length as the code sizes it: last customer's start plus the longest service, plus one. */
  function AsWrittenLength(starts: seq<nat>, service: seq<nat>): (len: nat)
    requires |starts| == |service| > 0
    ensures len > starts[|starts| - 1]
    ensures forall c :: 0 <= c < |service| ==> service[c] < len
  {
    starts[|starts| - 1] + Max(service) + 1
  }

  /**
   * Timeline length used by the model: the code's length, stretched to one
   * past the latest departure when that departure would not fit.
   */
  function TimelineLength(starts: seq<nat>, service: seq<nat>): (len: nat)
    requires |starts| == |service| > 0
    ensures forall c :: 0 <= c < |service| ==> Departures(starts, service)[c] < len
    ensures AsWrittenLength(starts, service) <= len
    ensures (forall c :: 0 <= c < |service| ==> Departures(starts, service)[c] < AsWrittenLength(starts, service))
            ==> len == AsWrittenLength(starts, service)
  {
    var latest := Max(Departures(starts, service)) + 1;
    var written := AsWrittenLength(starts, service);
    if latest > written then latest else written
  }

  /** Every arrival and departure second is a valid cell of a timeline of length len. */
  predicate InRange(arrivals: seq<nat>, departures: seq<nat>, len: nat)
  {
    |arrivals| == |departures| &&
    forall c :: 0 <= c < |arrivals| ==> arrivals[c] < len && departures[c] < len
  }

  /** One customer recorded: +1 at its arrival cell, then -1 at its departure cell. */
  function Record(t: seq<int>, a: nat, d: nat): (r: seq<int>)
    requires a < |t| && d < |t|
    ensures |r| == |t|
  {
    var up := t[a := t[a] + 1];
    up[d := up[d] - 1]
  }

  /** The delta array after the first c customers have been recorded. */
  function Events(arrivals: seq<nat>, departures: seq<nat>, len: nat, c: nat): (t: seq<int>)
    requires InRange(arrivals, departures, len) && c <= |arrivals|
    ensures |t| == len
  {
    if c == 0 then seq(len, _ => 0)
    else Record(Events(arrivals, departures, len, c - 1), arrivals[c - 1], departures[c - 1])
  }

  /** Reference definition of occupancy: customers among the first c that have arrived by second k and not yet left. */
  function InSystem(arrivals: seq<nat>, departures: seq<nat>, k: nat, c: nat): (n: nat)
    requires |arrivals| == |departures| && c <= |arrivals|
    ensures n <= c
  {
    if c == 0 then 0
    else InSystem(arrivals, departures, k, c - 1) + (if arrivals[c - 1] <= k < departures[c - 1] then 1 else 0)
  }

  /** Changing one cell changes every prefix sum that covers it by the same amount. */
  lemma {:induction false} SumUpdate(s: seq<int>, i: nat, v: int, m: nat)
    requires i < |s| && m <= |s|
    ensures Sum(s[i := v][..m]) == Sum(s[..m]) + (if i < m then v - s[i] else 0)
    decreases m
  {
    if m > 0 {
      SumUpdate(s, i, v, m - 1);
      assert s[i := v][..m][..m - 1] == s[i := v][..m - 1];
      assert s[..m][..m - 1] == s[..m - 1];
    }
  }

  /** An all-zero array sums to zero on every prefix. */
  lemma {:induction false} SumZeros(len: nat, m: nat)
    requires m <= len
    ensures Sum(seq(len, _ => 0)[..m]) == 0
    decreases m
  {
    if m > 0 {
      SumZeros(len, m - 1);
      assert seq(len, _ => 0)[..m][..m - 1] == seq(len, _ => 0)[..m - 1];
    }
  }

  /** Recording one customer adds one to the prefixes that cover its arrival and takes one from those that cover its departure. */
  lemma RecordPrefixSum(t: seq<int>, a: nat, d: nat, m: nat)
    requires a < |t| && d < |t| && m <= |t|
    ensures Sum(Record(t, a, d)[..m]) == Sum(t[..m]) + (if a < m then 1 else 0) - (if d < m then 1 else 0)
  {
    var up := t[a := t[a] + 1];
    SumUpdate(t, a, t[a] + 1, m);
    SumUpdate(up, d, up[d] - 1, m);
  }

  /** Every prefix sum of the delta array is the number of customers in the system at that second. */
  lemma {:induction false} PrefixIsOccupancy(arrivals: seq<nat>, departures: seq<nat>, len: nat, c: nat, m: nat)
    requires InRange(arrivals, departures, len) && c <= |arrivals|
    requires forall i :: 0 <= i < |arrivals| ==> arrivals[i] <= departures[i]
    requires 0 < m <= len
    ensures Sum(Events(arrivals, departures, len, c)[..m]) == InSystem(arrivals, departures, m - 1, c)
    decreases c
  {
    if c == 0 {
      SumZeros(len, m);
    } else {
      PrefixIsOccupancy(arrivals, departures, len, c - 1, m);
      RecordPrefixSum(Events(arrivals, departures, len, c - 1), arrivals[c - 1], departures[c - 1], m);
    }
  }

  /** Every customer that arrives also leaves: the whole delta array sums to zero. */
  lemma {:induction false} EventsSumToZero(arrivals: seq<nat>, departures: seq<nat>, len: nat, c: nat)
    requires InRange(arrivals, departures, len) && c <= |arrivals|
    ensures Sum(Events(arrivals, departures, len, c)) == 0
    decreases c
  {
    var t := Events(arrivals, departures, len, c);
    assert t[..len] == t;
    if c == 0 {
      SumZeros(len, len);
    } else {
      EventsSumToZero(arrivals, departures, len, c - 1);
      var prev := Events(arrivals, departures, len, c - 1);
      assert prev[..len] == prev;
      RecordPrefixSum(prev, arrivals[c - 1], departures[c - 1], len);
    }
  }

  /** What the finished delta array means: it balances out, and its running sums are the occupancy. */
  lemma TimelineMeaning(arrivals: seq<nat>, departures: seq<nat>, len: nat)
    requires InRange(arrivals, departures, len)
    requires forall c :: 0 <= c < |arrivals| ==> arrivals[c] <= departures[c]
    ensures Sum(Events(arrivals, departures, len, |arrivals|)) == 0
    ensures forall k :: 0 <= k < len ==>
              Sum(Events(arrivals, departures, len, |arrivals|)[..k + 1]) == InSystem(arrivals, departures, k, |arrivals|)
  {
    EventsSumToZero(arrivals, departures, len, |arrivals|);
    forall k | 0 <= k < len
      ensures Sum(Events(arrivals, departures, len, |arrivals|)[..k + 1]) == InSystem(arrivals, departures, k, |arrivals|)
    {
      PrefixIsOccupancy(arrivals, departures, len, |arrivals|, k + 1);
    }
  }

  /** The loop body: one +1 at the arrival cell and one -1 at the departure cell. */
  method RecordCustomer(t: array<int>, i: nat, j: nat)
    requires i < t.Length && j < t.Length
    modifies t
    ensures t[..] == Record(old(t[..]), i, j)
  {
    t[i] := t[i] + 1;
    t[j] := t[j] - 1;
  }

  /**
   * The loop that records +1 at each arrival second and -1 at each departure
   * second into a zeroed array. Every index must be in range: the code would
   * raise on an out-of-range departure.
   */
  method BuildTimeline(arrivals: seq<nat>, starts: seq<nat>, service: seq<nat>, len: nat) returns (t: array<int>)
    requires |starts| == |service| == |arrivals|
    requires forall c :: 0 <= c < |arrivals| ==> arrivals[c] <= starts[c]
    requires InRange(arrivals, Departures(starts, service), len)
    ensures t.Length == len
    ensures t[..] == Events(arrivals, Departures(starts, service), len, |arrivals|)
    ensures Sum(t[..]) == 0
    ensures forall k :: 0 <= k < len ==> Sum(t[..k + 1]) == InSystem(arrivals, Departures(starts, service), k, |arrivals|)
  {
    ghost var departures := Departures(starts, service);
    t := new int[len](_ => 0);
    assert t[..] == Events(arrivals, departures, len, 0);
    var c := 0;
    while c < |arrivals|
      invariant 0 <= c <= |arrivals|
      invariant t.Length == len
      invariant t[..] == Events(arrivals, departures, len, c)
    {
      assert arrivals[c] < len && departures[c] < len;
      var i := arrivals[c];
      var j := starts[c] + service[c];
      assert j == departures[c];
      RecordCustomer(t, i, j);
      c := c + 1;
    }
    TimelineMeaning(arrivals, departures, len);
  }
}

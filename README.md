# M/M/s queue simulation, verified model

`P5.py` answers a dimensioning question for an M/M/s queue: 4 customers per
minute arrive, each server completes 0.25 per minute, and the requirement
is that at most 5% of the time there are more than 50 customers waiting in
the system. Its function `simulacion(s)` runs one discrete-time simulation
with `s` servers, in whole seconds:

1. the interarrival gaps are summed into absolute arrival times;
2. customers are placed in arrival order on an array of per-server busy-until
   times: the first server free at the arrival takes the customer at once;
   when every server is busy, service starts one second after the smallest
   busy-until time, on the first server holding it;
3. a delta array receives +1 at each arrival second and -1 at each departure
   second (service start plus service time);
4. a running sum over the delta array rebuilds the occupancy series, the
   seconds with at least P = 51 customers are counted, and the run meets the
   requirement when that count is at most 5% of the timeline length.

The model takes the integer gaps and service times as inputs (the random
draws are not modelled) and follows the code's own form: each stage is a
method over arrays or appended lists with loop invariants, proved equal to a
specification function, and the properties the code relies on are lemmas
about those functions.

- `arrivals.dfy` (module `Arrivals`): the cumulative sum of the gaps.
- `allocator.dfy` (module `Allocator`): the busy-until allocator. The state
  after k customers is the function `Busy`, start times are `Starts`, and the
  method `AssignServers` runs the loop on an `array<nat>` updated in place.
- `timeline.dfy` (module `Timeline`): the ±1 delta array, its length, and
  the meaning of its prefix sums (the number of customers in the system).
- `occupancy.dfy` (module `Occupancy`): the scan that rebuilds the occupancy
  series and counts the seconds at or above the threshold, and the 5% test.
- `simulation.dfy` (module `Simulation`): one full run, and the concrete run
  that shows the timeline sizing at P5.py:143 can be short by one second.

The code has a fixed N = 1000 customers; the model takes N as the length of
the gap sequence. The code does not check its parameters: with `s = 0` or an
empty input it fails with an index error. The model therefore requires
`s >= 1` and at least one customer.

The code sizes the timeline as the last customer's start plus the longest
service time plus one (P5.py:143). Start times are not monotone, so that
length can be one cell short of the latest departure (see Findings); the
model proves the code's length is never short by more than one and uses a
length that always fits.

## Model

| member | source | states |
|---|---|---|
| Arrivals.ArrivalTimes | P5.py:103-106 | reference definition: customer i arrives after the first i+1 gaps; one arrival time per gap |
| Arrivals.ScheduleArrivals | P5.py:103-106 | the append loop yields exactly the reference arrival times, with first arrival = first gap and arrival[i] = arrival[i-1] + gap[i] |
| Arrivals.TotalGapPrefixGrows | P5.py:105 | a longer prefix of non-negative gaps never totals less |
| Arrivals.TotalGapPrefixIncreases | P5.py:105 | a longer prefix of strictly positive gaps totals strictly more |
| Arrivals.ArrivalsNonDecreasing | P5.py:103-106 | arrival times are non-decreasing, so array order is arrival order |
| Arrivals.ArrivalsIncreaseWithPositiveGaps | P5.py:103-106 | with strictly positive gaps arrival times are strictly increasing |
| Allocator.FirstFree | P5.py:125 | `np.where(servidores <= arrival)[0]` reduced to its first element: every server before the result is busy past the arrival, the result is free or is the server count when none is free |
| Allocator.ArgMin | P5.py:127-131 | `servidores.tolist().index(min(servidores))`: the result holds the minimum and every earlier server holds more |
| Allocator.Place | P5.py:124-138 | the chosen server exists, and service never starts before the arrival or before the chosen server's busy-until time |
| Allocator.PlacementRule | P5.py:124-138 | both branches: if some server is free the customer starts on arrival on the lowest free index; otherwise it starts at min busy-until + 1 (> arrival) on the first server holding the minimum |
| Allocator.NextBusy | P5.py:130-138 | one placement gives a state of the same size (the chosen entry becomes start + service, see Allocator.Assign) |
| Allocator.Busy | P5.py:112-140 | busy-until state after k customers, one entry per server |
| Allocator.Starts | P5.py:122-140 | start list after k customers has k entries |
| Allocator.StartsAt | P5.py:140 | entry i of the start list is customer i's start, whatever the number of later customers |
| Allocator.NextBusyGrows | P5.py:130-138 | one placement never lowers any server's busy-until time |
| Allocator.BusyNeverDecreases | P5.py:119-138 | every server's busy-until time is non-decreasing across iterations |
| Allocator.MinBusyNeverDecreases | P5.py:127-130 | the minimum busy-until time is non-decreasing across iterations |
| Allocator.StartAfterPlacement | P5.py:126-138 | a customer starts on arrival or no later than one second after the next state's minimum busy-until |
| Allocator.StartAtLeastEarliestFree | P5.py:125-134 | no customer starts before the minimum busy-until time of the state it finds |
| Allocator.StartsNearlyOrdered | P5.py:124-140 | for i < j and ordered arrivals, start[i] <= start[j] + 1: a later customer starts at most one second before an earlier one |
| Allocator.FirstCustomerOnServerZero | P5.py:115-122 | the special case for customer 0 (server 0, start on arrival) is what the general rule gives on all-idle servers |
| Allocator.NoServiceBeforeArrival | P5.py:124-140 | every customer's start is at least its arrival |
| Allocator.FirstFreeServer | P5.py:125 | the scan returns the first free server, or the server count when every server is busy past the arrival |
| Allocator.Minimum | P5.py:127-130 | the result is an element of the array and no element is smaller |
| Allocator.IndexOf | P5.py:131 | first position holding a value that is present |
| Allocator.Assign | P5.py:125-138 | the start and server equal the placement rule on the old state; only the chosen server changes, to start + service |
| Allocator.AssignServers | P5.py:112-140 | the loop over `servidores` returns exactly the reference start times, and each start is at least its arrival |
| Timeline.Departures | P5.py:149 | departure second of each customer is start + service, never before its start |
| Timeline.AsWrittenLength | P5.py:143 | the code's length: past the last customer's start and past every service time |
| Timeline.TimelineLength | P5.py:143 | corrected length: every departure index is in range, it is never shorter than the code's length, and it equals the code's length whenever every departure fits there |
| Timeline.Record | P5.py:147-150 | one customer's +1/-1 keeps the array length |
| Timeline.Events | P5.py:143-150 | delta array after c customers has the timeline length |
| Timeline.InSystem | P5.py:146-150 | reference occupancy: how many of the first c customers have arrived by second k and not yet left; at most c |
| Timeline.RecordPrefixSum | P5.py:147-150 | recording one customer adds 1 to every prefix sum covering its arrival and takes 1 from every prefix covering its departure |
| Timeline.PrefixIsOccupancy | P5.py:146-167 | every prefix sum of the delta array equals the reference occupancy at its last second |
| Timeline.EventsSumToZero | P5.py:146-150 | the delta array sums to zero: one +1 and one -1 per customer |
| Timeline.TimelineMeaning | P5.py:146-150 | the finished delta array sums to zero and its prefix sums are the occupancy |
| Timeline.RecordCustomer | P5.py:147-150 | `t[i] += 1; t[j] -= 1` on the array, as one recorded customer |
| Timeline.BuildTimeline | P5.py:143-150 | the loop builds exactly the reference delta array, which sums to zero and whose prefix sums are the occupancy |
| Occupancy.CountAtLeast | P5.py:168-169 | number of entries at or above the threshold, never more than the length |
| Occupancy.CountAtLeastExtremes | P5.py:165-169 | the count is 0 exactly when every entry is below the threshold, and the full length exactly when every entry reaches it |
| Occupancy.CountAtLeastSnoc | P5.py:168-169 | one more entry adds one to the count exactly when it reaches the threshold |
| Occupancy.MeetsTarget | P5.py:172-181 | `20 * exceso <= len(t)` holds exactly when the exact fraction `exceso / len(t)` is at most 0.05 |
| Occupancy.Integrate | P5.py:153-169 | the scan writes Xt[i] = t[0] + ... + t[i] and counts exactly the entries at or above P = 51; the count is at most the length |
| Simulation.DeparturesWithinAsWrittenLength | P5.py:140-150 | in any run every departure is at most the code's length, so the corrected length is the code's length or one more |
| Simulation.LengthCoversEvents | P5.py:143-150 | every arrival and departure index is in range of the corrected length |
| Simulation.Simulate | P5.py:84-181 | a full run: the occupancy series has the timeline length, equals the reference occupancy at every second and is never negative; the violation count is the number of seconds at or above P; the verdict is `20 * violations <= length` |
| Simulation.ExampleArrivals | P5.py:103-106 | gaps 1, 1, 1, 1 give arrivals 1, 2, 3, 4 |
| Simulation.ExampleStarts | P5.py:124-140 | with two servers and service 3, 2, 10, 1 those arrivals start at 1, 2, 5, 4 |
| Simulation.AsWrittenLengthTooShort | P5.py:143-150 | on that run, with every gap and service time positive, the code's length is 15 and customer 2's departure index is 15, one past the array |

## Left out

- Random sampling of the gaps and service times with `scipy.stats.expon` and the rounding up to whole seconds (P5.py:89-100, 109): foreign library calls and floating point; the integer durations are inputs.
- Console output and the percentage and hours formatting (P5.py:175-185): I/O. The verdict the output prints is `Report.meetsSpec`.
- Plotting (P5.py:188-195): user interface.
- The driver calls with 17 and 15 servers (P5.py:202-207): statistical experiments on random data.
- The closed-form derivation of the server count in the header comments (P5.py:33-68): real-valued analysis, not code.
- A claim that more servers never raise the violation fraction: the code does not state or check it.
- Floating point: `servidores`, `t` and `Xt` are float arrays in the code but hold only whole numbers, so the model uses integers; `fraccion <= 0.05` is decided exactly as `20 * exceso <= len(t)`.
- Allocator.FirstFree: `np.where` yields every free index; the code uses only whether it is empty and its first element, so the model computes only the first one.
- Simulation.Simulate: sizes the timeline with Timeline.TimelineLength, not with the code's expression. The two agree whenever no departure index reaches the code's length. On every other input the code raises an index error, and the model does not reproduce that failure.
- Simulation.Simulate: requires at least one server and one customer. The code does not validate these; it fails with an index error.

## Findings

| source | as written | input that shows it | evidently intended | confidence | as-written member | corrected member |
|---|---|---|---|---|---|---|
| P5.py:143 | the timeline has `t_atencion[-1] + max(t_servicio) + 1` cells, which assumes the last customer starts last | 2 servers, gaps 1, 1, 1, 1, service 3, 2, 10, 1 (all positive, as the rounded-up draws are): starts are 1, 2, 5, 4, the array has 15 cells and customer 2's departure is cell 15, so `t[j] -= 1` at P5.py:150 is out of range | one cell past the latest departure; start times can decrease by one second (Allocator.StartsNearlyOrdered), so the code's length is short by at most one (Simulation.DeparturesWithinAsWrittenLength) | high; not executed | Simulation.AsWrittenLengthTooShort | Timeline.TimelineLength |

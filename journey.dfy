/** The pure part of the itinerary search: the stream filters and sorts that
    pick direct trains, first legs and the earliest connecting second leg, and
    the wait and total-time arithmetic of the route display and the booking
    confirmation. */
module Journey {
  import opened LocalTime
  import opened Stations
  import opened Schedules
  import opened Wrappers

  /** A list of trains taken one after the other. */
  type Route = seq<TrainSchedule>

  /** `searchTime.minusMinutes(10)` and `searchTime.plusMinutes(10)` */
  const WindowMinutes: int := 10
  /** `plusHours(1)` */
  const LookaheadMinutes: int := 60
  /** Minimum buffer at the connecting station, exclusive. */
  const BufferMinutes: int := 5

  // ----- the filter predicates -----

  /** Departure not before `searchTime - 10 min` and before
      `(searchTime + 10 min) + 1 h`, both bounds wrapped around midnight.
      Away from midnight this is the window from ten minutes before the
      search time up to seventy minutes after it. */
  predicate InDepartureWindow(x: TrainSchedule, searchTime: Time): (r: bool)
    ensures WindowMinutes <= searchTime < MinutesPerDay - WindowMinutes - LookaheadMinutes ==>
      (r <==> searchTime - WindowMinutes <= x.departureTime < searchTime + WindowMinutes + LookaheadMinutes)
  {
    && !IsBefore(x.departureTime, MinusMinutes(searchTime, WindowMinutes))
    && IsBefore(x.departureTime, PlusMinutes(PlusMinutes(searchTime, WindowMinutes), LookaheadMinutes))
  }

  /** A direct train or a first leg: on the connection `from -> to` and in the
      window; away from midnight, departing in `[searchTime - 10, searchTime + 70)`. */
  predicate IsLegCandidate(x: TrainSchedule, from: Station, to: Station, searchTime: Time): (r: bool)
    ensures r ==> x.from == from && x.to == to
    ensures WindowMinutes <= searchTime < MinutesPerDay - WindowMinutes - LookaheadMinutes ==>
      (r <==> x.from == from && x.to == to &&
              searchTime - WindowMinutes <= x.departureTime < searchTime + WindowMinutes + LookaheadMinutes)
  {
    x.from == from && x.to == to && InDepartureWindow(x, searchTime)
  }

  /** A second leg for `first`: on `via -> end`, departing strictly after
      `first`'s arrival plus 5 minutes and strictly before `searchTime + 1 h`,
      both bounds wrapped around midnight. */
  predicate IsSecondLegCandidate(x: TrainSchedule, via: Station, end: Station, first: TrainSchedule, searchTime: Time): (r: bool)
    ensures r ==> x.from == via && x.to == end
  {
    && x.from == via && x.to == end
    && IsAfter(x.departureTime, PlusMinutes(first.arrivalTime, BufferMinutes))
    && IsBefore(x.departureTime, PlusMinutes(searchTime, LookaheadMinutes))
  }

  /** When neither bound runs past midnight, a second leg is exactly a train
      on `via -> end` that leaves more than 5 minutes after `first` arrives
      and before the hour after the search time is over. */
  lemma SecondLegWindow(x: TrainSchedule, via: Station, end: Station, first: TrainSchedule, searchTime: Time)
    requires first.arrivalTime + BufferMinutes < MinutesPerDay && searchTime + LookaheadMinutes < MinutesPerDay
    ensures IsSecondLegCandidate(x, via, end, first, searchTime) <==>
      x.from == via && x.to == end &&
      first.arrivalTime + BufferMinutes < x.departureTime < searchTime + LookaheadMinutes
  {
  }

  // ----- filter and sort -----

  /** `stream().filter(keep)`: the kept trains, in their original order. */
  function Filter(s: seq<TrainSchedule>, keep: TrainSchedule -> bool): seq<TrainSchedule>
  {
    if s == [] then []
    else (if keep(s[0]) then [s[0]] else []) + Filter(s[1..], keep)
  }

  /** Filtering keeps every copy of each train that passes and drops every
      copy of each one that does not. */
  lemma {:induction false} FilterKeeps(s: seq<TrainSchedule>, keep: TrainSchedule -> bool)
    ensures multiset(Filter(s, keep)) <= multiset(s)
    ensures forall x | x in s :: multiset(Filter(s, keep))[x] == if keep(x) then multiset(s)[x] else 0
    ensures forall x | x in Filter(s, keep) :: keep(x)
    ensures forall x | x in s && keep(x) :: x in Filter(s, keep)
  {
    if s != [] {
      assert s == [s[0]] + s[1..];
      FilterKeeps(s[1..], keep);
      var r := Filter(s, keep);
      forall x | x in r ensures keep(x) {
        assert x in multiset(r);
      }
      forall x | x in s && keep(x) ensures x in r {
        assert x in multiset(r);
      }
    }
  }

  /** Filtering keeps the original order: filtering two lists one after the
      other gives the kept trains of the first, then those of the second. */
  lemma {:induction false} FilterAppend(s: seq<TrainSchedule>, t: seq<TrainSchedule>, keep: TrainSchedule -> bool)
    ensures Filter(s + t, keep) == Filter(s, keep) + Filter(t, keep)
  {
    if s == [] {
      assert s + t == t;
    } else {
      var u := s + t;
      var head := if keep(s[0]) then [s[0]] else [];
      assert u[0] == s[0] && u[1..] == s[1..] + t;
      assert Filter(u, keep) == head + Filter(s[1..] + t, keep);
      FilterAppend(s[1..], t, keep);
      assert Filter(s, keep) == head + Filter(s[1..], keep);
    }
  }

  predicate SortedByDeparture(s: seq<TrainSchedule>)
  {
    forall i, j :: 0 <= i < j < |s| ==> s[i].departureTime <= s[j].departureTime
  }

  /** Inserts `x` before the first train that departs no earlier than it. */
  function InsertByDeparture(x: TrainSchedule, s: seq<TrainSchedule>): (r: seq<TrainSchedule>)
    requires SortedByDeparture(s)
    ensures SortedByDeparture(r)
    ensures multiset(r) == multiset(s) + multiset{x}
  {
    if s == [] || x.departureTime <= s[0].departureTime then
      SortedCons(x, s);
      [x] + s
    else
      var rest := InsertByDeparture(x, s[1..]);
      assert s == [s[0]] + s[1..];
      forall y | y in rest ensures s[0].departureTime <= y.departureTime {
        assert y in multiset(rest);
        if y != x {
          assert y in multiset(s[1..]);
        }
      }
      SortedCons(s[0], rest);
      [s[0]] + rest
  }

  /** A train that departs no later than every train of a sorted list can be
      put in front of it. */
  lemma SortedCons(a: TrainSchedule, t: seq<TrainSchedule>)
    requires SortedByDeparture(t)
    requires forall y | y in t :: a.departureTime <= y.departureTime
    ensures SortedByDeparture([a] + t)
  {
    var r := [a] + t;
    forall i, j | 0 <= i < j < |r| ensures r[i].departureTime <= r[j].departureTime {
      if i == 0 {
        assert r[j] == t[j - 1];
      } else {
        assert r[i] == t[i - 1] && r[j] == t[j - 1];
      }
    }
  }

  /** `sorted(Comparator.comparing(s -> s.departureTime))`: a stable sort by
      departure time. */
  function SortByDeparture(s: seq<TrainSchedule>): (r: seq<TrainSchedule>)
    ensures SortedByDeparture(r)
    ensures multiset(r) == multiset(s)
  {
    if s == [] then []
    else
      assert s == [s[0]] + s[1..];
      InsertByDeparture(s[0], SortByDeparture(s[1..]))
  }

  // ----- the three queries of the itinerary search -----

  /** The trains on `from -> to` in the departure window, sorted by departure:
      the direct trains when `to` is the destination, the first legs when it
      is an intermediate station. */
  function LegCandidates(schedules: seq<TrainSchedule>, from: Station, to: Station, searchTime: Time): (r: seq<TrainSchedule>)
    ensures SortedByDeparture(r)
    ensures multiset(r) <= multiset(schedules)
    ensures forall x | x in schedules ::
      multiset(r)[x] == if IsLegCandidate(x, from, to, searchTime) then multiset(schedules)[x] else 0
    ensures forall x | x in r :: x in schedules && IsLegCandidate(x, from, to, searchTime)
    ensures forall x | x in schedules && IsLegCandidate(x, from, to, searchTime) :: x in r
  {
    var kept := Filter(schedules, x => IsLegCandidate(x, from, to, searchTime));
    FilterKeeps(schedules, x => IsLegCandidate(x, from, to, searchTime));
    var r := SortByDeparture(kept);
    assert forall x | x in r :: x in multiset(kept);
    assert forall x | x in kept :: x in multiset(r);
    r
  }

  /** The trains on `via -> end` that can follow `first`, sorted by departure. */
  function SecondLegCandidates(schedules: seq<TrainSchedule>, via: Station, end: Station, first: TrainSchedule, searchTime: Time): (r: seq<TrainSchedule>)
    ensures SortedByDeparture(r)
    ensures forall x | x in r :: x in schedules && IsSecondLegCandidate(x, via, end, first, searchTime)
    ensures forall x | x in schedules && IsSecondLegCandidate(x, via, end, first, searchTime) :: x in r
  {
    var kept := Filter(schedules, x => IsSecondLegCandidate(x, via, end, first, searchTime));
    FilterKeeps(schedules, x => IsSecondLegCandidate(x, via, end, first, searchTime));
    var r := SortByDeparture(kept);
    assert forall x | x in r :: x in multiset(kept);
    assert forall x | x in kept :: x in multiset(r);
    r
  }

  /** The head of a list sorted by departure departs no later than any member. */
  lemma SortedHeadIsEarliest(s: seq<TrainSchedule>)
    requires SortedByDeparture(s) && s != []
    ensures forall x | x in s :: s[0].departureTime <= x.departureTime
  {
    forall x | x in s ensures s[0].departureTime <= x.departureTime {
      var i :| 0 <= i < |s| && s[i] == x;
    }
  }

  /** `secondLeg.get(0)` when the list is not empty: the earliest train on
      `via -> end` that leaves the buffer after `first` and departs before the
      lookahead ends. */
  function EarliestSecondLeg(schedules: seq<TrainSchedule>, via: Station, end: Station, first: TrainSchedule, searchTime: Time): (r: Option<TrainSchedule>)
    ensures r.None? <==> forall x | x in schedules :: !IsSecondLegCandidate(x, via, end, first, searchTime)
    ensures r.Some? ==> r.value in schedules && IsSecondLegCandidate(r.value, via, end, first, searchTime)
    ensures r.Some? ==> forall x | x in schedules && IsSecondLegCandidate(x, via, end, first, searchTime) ::
      r.value.departureTime <= x.departureTime
  {
    var legs := SecondLegCandidates(schedules, via, end, first, searchTime);
    if legs == [] then None
    else
      SortedHeadIsEarliest(legs);
      Some(legs[0])
  }

  /** One route per direct train, in the order given. */
  function Singletons(trains: seq<TrainSchedule>): (r: seq<Route>)
    ensures |r| == |trains|
    ensures forall i :: 0 <= i < |r| ==> r[i] == [trains[i]]
  {
    seq(|trains|, i requires 0 <= i < |trains| => [trains[i]])
  }

  /** A route the search lists after the direct ones: a first leg from `start`
      to an intermediate station in `network` other than `start` and `end`,
      paired with the earliest qualifying second leg. */
  ghost predicate IsConnectingRoute(r: Route, schedules: seq<TrainSchedule>, network: set<Station>,
                                    start: Station, end: Station, searchTime: Time)
  {
    && |r| == 2
    && r[0] in schedules
    && r[0].to in network && r[0].to != start && r[0].to != end
    && IsLegCandidate(r[0], start, r[0].to, searchTime)
    && EarliestSecondLeg(schedules, r[0].to, end, r[0], searchTime) == Some(r[1])
  }

  /** A connecting route runs `start -> X -> end` over two trains of the
      timetable; the second leaves more than 5 minutes after the first arrives
      (on the clock, wrapped) and before the lookahead ends, and no qualifying
      train on `X -> end` leaves earlier. */
  lemma ConnectingRouteShape(r: Route, schedules: seq<TrainSchedule>, network: set<Station>,
                             start: Station, end: Station, searchTime: Time)
    requires IsConnectingRoute(r, schedules, network, start, end, searchTime)
    ensures r[0].from == start && r[1].from == r[0].to && r[1].to == end
    ensures r[0].to !in {start, end}
    ensures r[0] in schedules && r[1] in schedules
    ensures InDepartureWindow(r[0], searchTime)
    ensures IsAfter(r[1].departureTime, PlusMinutes(r[0].arrivalTime, BufferMinutes))
    ensures IsBefore(r[1].departureTime, PlusMinutes(searchTime, LookaheadMinutes))
    ensures forall x :: x in schedules && x.from == r[0].to && x.to == end
                        && IsAfter(x.departureTime, PlusMinutes(r[0].arrivalTime, BufferMinutes))
                        && IsBefore(x.departureTime, PlusMinutes(searchTime, LookaheadMinutes))
                        ==> r[1].departureTime <= x.departureTime
  {
    var e := EarliestSecondLeg(schedules, r[0].to, end, r[0], searchTime);
    assert e == Some(r[1]);
  }

  /** A first leg the search pairs with a second one: a train of the
      timetable from `start` to an intermediate station of `network` other than
      `start` and `end`, in the departure window, for which a qualifying second
      leg exists. */
  ghost predicate HasSecondLeg(x: TrainSchedule, schedules: seq<TrainSchedule>, network: set<Station>,
                                start: Station, end: Station, searchTime: Time)
  {
    && x in schedules
    && x.to in network && x.to != start && x.to != end
    && IsLegCandidate(x, start, x.to, searchTime)
    && EarliestSecondLeg(schedules, x.to, end, x, searchTime).Some?
  }

  /** The list `findTrainRoutes` answers with: first one single-train route
      per direct train, in order of departure, then only connecting routes,
      among them one for every first leg that has a second leg. */
  ghost predicate ListsRoutes(routes: seq<Route>, schedules: seq<TrainSchedule>, network: set<Station>,
                              start: Station, end: Station, searchTime: Time)
  {
    var direct := LegCandidates(schedules, start, end, searchTime);
    && |direct| <= |routes|
    && routes[..|direct|] == Singletons(direct)
    && (forall r | r in routes[|direct|..] :: IsConnectingRoute(r, schedules, network, start, end, searchTime))
    && (forall x | x in schedules && HasSecondLeg(x, schedules, network, start, end, searchTime) ::
          [x, EarliestSecondLeg(schedules, x.to, end, x, searchTime).value] in routes[|direct|..])
  }

  /** The first `|direct|` routes are the direct trains, one per route. */
  lemma DirectPrefix(routes: seq<Route>, direct: seq<TrainSchedule>)
    requires |direct| <= |routes| && routes[..|direct|] == Singletons(direct)
    ensures forall i | 0 <= i < |direct| :: routes[i] == [direct[i]]
  {
    forall i | 0 <= i < |direct| ensures routes[i] == [direct[i]] {
      assert routes[i] == routes[..|direct|][i];
    }
  }

  /** No route of such a list has more than two trains, and only the direct
      routes have one. */
  lemma ListedRouteLengths(routes: seq<Route>, schedules: seq<TrainSchedule>, network: set<Station>,
                           start: Station, end: Station, searchTime: Time)
    requires ListsRoutes(routes, schedules, network, start, end, searchTime)
    ensures forall i | 0 <= i < |routes| ::
      (|routes[i]| == 1 <==> i < |LegCandidates(schedules, start, end, searchTime)|) &&
      (|routes[i]| == 1 || |routes[i]| == 2)
  {
    var direct := LegCandidates(schedules, start, end, searchTime);
    DirectPrefix(routes, direct);
    forall i | |direct| <= i < |routes| ensures |routes[i]| == 2 {
      assert routes[i] == routes[|direct|..][i - |direct|];
      assert routes[i] in routes[|direct|..];
    }
  }

  /** The single-train routes come first, in order of departure, each a
      train of the timetable from `start` to `end` in the departure window. */
  lemma ListedDirectRoutes(routes: seq<Route>, schedules: seq<TrainSchedule>, network: set<Station>,
                           start: Station, end: Station, searchTime: Time)
    requires ListsRoutes(routes, schedules, network, start, end, searchTime)
    ensures forall i | 0 <= i < |routes| && |routes[i]| == 1 ::
      routes[i][0] in schedules && IsLegCandidate(routes[i][0], start, end, searchTime)
    ensures forall i, j | 0 <= i < j < |routes| && |routes[j]| == 1 ::
      |routes[i]| == 1 && routes[i][0].departureTime <= routes[j][0].departureTime
  {
    var direct := LegCandidates(schedules, start, end, searchTime);
    ListedRouteLengths(routes, schedules, network, start, end, searchTime);
    DirectPrefix(routes, direct);
    forall i | 0 <= i < |routes| && |routes[i]| == 1
      ensures routes[i][0] in schedules && IsLegCandidate(routes[i][0], start, end, searchTime)
    {
      assert direct[i] in direct;
      assert direct[i] in multiset(direct);
    }
  }

  // ----- wait and journey time -----

  /** `Duration.between(previous.arrivalTime, next.departureTime).toMinutes()`:
      going forward by the wait from the arrival reaches the next departure,
      and the wait is negative when that departure is earlier on the clock. */
  function WaitMinutes(previous: TrainSchedule, next: TrainSchedule): (w: int)
    ensures PlusMinutes(previous.arrivalTime, w) == next.departureTime
    ensures 0 <= w <==> previous.arrivalTime <= next.departureTime
  {
    MinutesBetween(previous.arrivalTime, next.departureTime)
  }

  /** Minutes from a train's departure to its arrival. The route display
      shows only the two clock times; the model adds these up to relate the
      waits to the total journey time. */
  function RideMinutes(x: TrainSchedule): int
  {
    MinutesBetween(x.departureTime, x.arrivalTime)
  }

  /** `Duration.between(first departure, last arrival).toMinutes()`: going
      forward by the total from the first departure reaches the last arrival,
      and it is negative when that arrival is earlier on the clock. */
  function TotalMinutes(r: Route): (total: int)
    requires |r| > 0
    ensures PlusMinutes(r[0].departureTime, total) == r[|r| - 1].arrivalTime
    ensures 0 <= total <==> r[0].departureTime <= r[|r| - 1].arrivalTime
  {
    MinutesBetween(r[0].departureTime, r[|r| - 1].arrivalTime)
  }

  function SumRides(r: Route): int
  {
    if r == [] then 0 else RideMinutes(r[0]) + SumRides(r[1..])
  }

  function SumWaits(r: Route): int
  {
    if |r| < 2 then 0 else WaitMinutes(r[0], r[1]) + SumWaits(r[1..])
  }

  /** The total journey time is the sum of the times on each train and of the
      waits between consecutive trains, for routes of any length. */
  lemma {:induction false} TotalIsRidesPlusWaits(r: Route)
    requires |r| > 0
    ensures TotalMinutes(r) == SumRides(r) + SumWaits(r)
  {
    if |r| > 1 {
      TotalIsRidesPlusWaits(r[1..]);
      assert r[1..][0] == r[1];
      assert r[1..][|r| - 2] == r[|r| - 1];
    }
  }

  /** On a connecting route whose first arrival plus the buffer does not run
      past midnight, the wait at the connecting station is more than 5 minutes
      and the total time is ride, wait, ride. */
  lemma ConnectingRouteTimes(r: Route, schedules: seq<TrainSchedule>, network: set<Station>,
                             start: Station, end: Station, searchTime: Time)
    requires IsConnectingRoute(r, schedules, network, start, end, searchTime)
    requires r[0].arrivalTime + BufferMinutes < MinutesPerDay
    ensures WaitMinutes(r[0], r[1]) > BufferMinutes
    ensures TotalMinutes(r) == RideMinutes(r[0]) + WaitMinutes(r[0], r[1]) + RideMinutes(r[1])
  {
    ConnectingRouteShape(r, schedules, network, start, end, searchTime);
    TotalIsRidesPlusWaits(r);
    assert r[1..] == [r[1]];
  }
}

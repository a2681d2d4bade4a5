/** The journey-planning core of the booking screen: the station network, the
    generated timetable, the shortest-path search and the itinerary search,
    without the Swing widgets around them. */
module MetroBooking {
  import opened LocalTime
  import opened Stations
  import opened Schedules
  import opened Network
  import opened Timetable
  import opened Journey
  import opened Wrappers
  import opened ShortestPath

  /** The station names, in the order the booking screen creates them. */
  const StationNames: seq<string> := ["A", "B", "C", "D", "E", "F"]

  /** What a search shows: no route at all, or the list of routes found
      (possibly empty). */
  datatype SearchOutcome = NoRouteAvailable | Routes(routes: seq<Route>)

  class Metro {
    /** Station name to station. */
    var stations: map<string, Station>
    /** The timetable, built once by `GenerateSchedules`. */
    var schedules: seq<TrainSchedule>
    /** The routes last shown, among which a booking is confirmed. */
    var currentRoutes: seq<Route>

    /** Each station is filed under its own name and connects only to
        stations of the network. */
    ghost predicate Valid()
      reads this`stations, stations.Values
    {
      && (forall n | n in stations :: stations[n].name == n)
      && (forall s | s in stations.Values :: s.connections.Keys <= stations.Values)
    }

    /** The network as it stands now. */
    ghost function CurrentNetwork(): (g: Graph)
      reads this`stations, stations.Values
      ensures g.Keys == stations.Values
    {
      GraphOf(stations.Values)
    }

    /** `addConnection(from, to, distance)`: records the distance in both
        directions, overwriting an earlier one, and changes nothing else. */
    method AddConnection(from: string, to: string, distance: int)
      requires Valid()
      requires from in stations && to in stations
      modifies stations[from], stations[to]
      ensures Valid()
      ensures stations[from].connections == old(stations[from].connections)[stations[to] := distance]
      ensures stations[to].connections == old(stations[to].connections)[stations[from] := distance]
    {
      var f := stations[from];
      var t := stations[to];
      f.connections := f.connections[t := distance];
      t.connections := t.connections[f := distance];
    }

    /** The booking screen's start-up without its widgets: the six stations
        and ten connections, then the day's timetable. */
    constructor ()
      ensures Valid()
      ensures stations.Keys == set n | n in StationNames
      ensures ExampleConnections()
      ensures Symmetric(CurrentNetwork()) && Closed(CurrentNetwork())
      ensures SafeWeights(CurrentNetwork()) && ShortConnections(CurrentNetwork())
      ensures forall x :: x in schedules <==> IsScheduledTrain(CurrentNetwork(), x)
      ensures NoDuplicates(schedules)
      ensures currentRoutes == []
    {
      stations := map[];
      schedules := [];
      currentRoutes := [];
      new;
      InitializeStations();
      GenerateSchedules();
    }

    /** The example network: the ten two-way connections with their
        distances, and no others. */
    ghost predicate ExampleConnections()
      reads this`stations, stations.Values
    {
      && (forall n | n in StationNames :: n in stations)
      && var a, b, c := stations["A"], stations["B"], stations["C"];
      && var d, e, f := stations["D"], stations["E"], stations["F"];
      && a.connections == map[b := 10, c := 22, e := 8]
      && b.connections == map[a := 10, c := 15, d := 9, f := 7]
      && c.connections == map[a := 22, b := 15, d := 9]
      && d.connections == map[b := 9, c := 9, e := 5, f := 12]
      && e.connections == map[a := 8, d := 5, f := 16]
      && f.connections == map[b := 7, d := 12, e := 16]
    }

    /** `initializeStations()`: one new station per name A to F, then the ten
        connections, each recorded in both directions. */
    method InitializeStations()
      modifies this`stations
      ensures Valid()
      ensures stations.Keys == set n | n in StationNames
      ensures fresh(stations.Values)
      ensures ExampleConnections()
      ensures Symmetric(CurrentNetwork()) && Closed(CurrentNetwork())
      ensures SafeWeights(CurrentNetwork()) && ShortConnections(CurrentNetwork())
    {
      stations := NewStations(StationNames);
      ghost var a, b, c, d, e, f := stations["A"], stations["B"], stations["C"], stations["D"], stations["E"], stations["F"];
      assert a != b && a != c && a != d && a != e && a != f;
      assert b != c && b != d && b != e && b != f;
      assert c != d && c != e && c != f;
      assert d != e && d != f && e != f;
      AddConnection("A", "B", 10);
      AddConnection("A", "C", 22);
      AddConnection("A", "E", 8);
      AddConnection("B", "C", 15);
      AddConnection("B", "D", 9);
      AddConnection("B", "F", 7);
      AddConnection("C", "D", 9);
      AddConnection("D", "E", 5);
      AddConnection("D", "F", 12);
      AddConnection("E", "F", 16);
      assert a.connections == map[b := 10, c := 22, e := 8];
      assert b.connections == map[a := 10, c := 15, d := 9, f := 7];
      assert c.connections == map[a := 22, b := 15, d := 9];
      assert d.connections == map[b := 9, c := 9, e := 5, f := 12];
      assert e.connections == map[a := 8, d := 5, f := 16];
      assert f.connections == map[b := 7, d := 12, e := 16];
      ExampleIsSymmetric(this);
    }

    /** `searchTrains()` for the stations selected by name and a search time
        in whole minutes: "no route available" exactly when the destination
        cannot be reached; otherwise the routes `FindTrainRoutes` lists, which
        become the routes shown (an empty list shows "no trains available"). */
    method SearchTrains(from: string, to: string, searchTime: Time) returns (outcome: SearchOutcome)
      requires Valid() && from in stations && to in stations
      requires SafeWeights(CurrentNetwork())
      modifies this`currentRoutes
      ensures outcome.NoRouteAvailable? <==> !Reachable(old(CurrentNetwork()), old(stations[from]), old(stations[to]))
      ensures outcome.Routes? ==>
        ListsRoutes(outcome.routes, old(schedules), old(stations.Values), old(stations[from]), old(stations[to]), searchTime)
      ensures currentRoutes == if outcome.Routes? then outcome.routes else old(currentRoutes)
    {
      var start, end := stations[from], stations[to];
      var shortestDistances := FindShortestPath(start, end);
      if shortestDistances.None? {
        return NoRouteAvailable;
      }
      var possibleRoutes := FindTrainRoutes(start, end, searchTime, shortestDistances.value);
      currentRoutes := possibleRoutes;
      return Routes(possibleRoutes);
    }

    /** The journey time `confirmBooking()` shows: nothing when no route is
        selected, otherwise the minutes from the selected route's first
        departure to its last arrival, which are its ride and wait times added
        up. */
    function ConfirmBooking(selected: Option<nat>): (total: Option<int>)
      reads this`currentRoutes
      requires selected.Some? ==> selected.value < |currentRoutes| && |currentRoutes[selected.value]| > 0
      ensures total.None? <==> selected.None?
      ensures total.Some? ==>
        total.value == SumRides(currentRoutes[selected.value]) + SumWaits(currentRoutes[selected.value])
    {
      if selected.None? then None
      else
        TotalIsRidesPlusWaits(currentRoutes[selected.value]);
        Some(TotalMinutes(currentRoutes[selected.value]))
    }

    /** `findShortestPath(start, end)`: the search from `start`, stopped as
        soon as `end` is taken from the queue. It answers with its distance
        map exactly when `end` can be reached; every distance in that map is
        the length of a real walk from `start`, `start` itself at 0. */
    method FindShortestPath(start: Station, end: Station) returns (r: Option<map<Station, int>>)
      requires Valid() && start in stations.Values && end in stations.Values
      requires SafeWeights(CurrentNetwork())
      ensures r.Some? <==> Reachable(CurrentNetwork(), start, end)
      ensures r.Some? ==> end in r.value && start in r.value && r.value[start] == 0
      ensures r.Some? ==> r.value.Keys <= stations.Values
      ensures r.Some? ==> forall s | s in r.value ::
        0 <= r.value[s] < IntMax &&
        exists p :: IsWalkFromTo(CurrentNetwork(), p, start, s) && WalkWeight(CurrentNetwork(), p) == r.value[s]
      ensures start == end ==> r == Some(map[start := 0])
    {
      ghost var g := CurrentNetwork();
      assert Closed(g);
      var distances: map<Station, int> := map[start := 0];
      var queue: multiset<Station> := multiset{start};
      ghost var walks: map<Station, seq<Station>> := map[start := [start]];
      SearchStarts(g, start, end);
      while queue != multiset{}
        invariant SearchLoop(g, start, end, distances, queue, walks)
        decreases Potential(distances, g.Keys), |queue|
      {
        var current :| current in queue;
        ghost var full := queue;
        queue := queue - multiset{current};
        if current == end {
          SearchResult(g, start, end, distances, full, walks);
          return Some(distances);
        }
        ghost var before, waiting, witnesses := distances, queue, walks;
        SearchPolls(g, start, end, distances, full, queue, walks, current);
        distances, queue, walks := RelaxNeighbours(g, start, current, distances, queue, walks);
        SearchContinues(g, start, end, current, before, full, waiting, witnesses, distances, queue, walks);
      }
      if Reachable(g, start, end) {
        ExhaustedCoversReachable(g, start, distances, end);
      }
      return None;
    }

    /** `findTrainRoutes(start, end, searchTime, shortestDistances)`: the
        direct trains in the departure window, sorted, one route each; then,
        for every other station of the network, every first leg to it paired
        with its earliest qualifying second leg. `shortestDistances` is passed
        along but never consulted. */
    method FindTrainRoutes(start: Station, end: Station, searchTime: Time, shortestDistances: map<Station, int>)
      returns (routes: seq<Route>)
      ensures ListsRoutes(routes, schedules, stations.Values, start, end, searchTime)
    {
      var directTrains := LegCandidates(schedules, start, end, searchTime);
      routes := DirectRoutes(directTrains);
      var pending := stations.Values;
      while pending != {}
        invariant ListedSoFar(routes, directTrains, schedules, stations.Values, start, end, searchTime, pending)
        decreases pending
      {
        var intermediate :| intermediate in pending;
        var next := routes;
        if intermediate != start && intermediate != end {
          var firstLeg := LegCandidates(schedules, start, intermediate, searchTime);
          next := PairFirstLegs(schedules, stations.Values, start, intermediate, end, searchTime, firstLeg, routes);
        }
        ListedNext(routes, next, directTrains, schedules, stations.Values, start, end, searchTime, pending, intermediate);
        routes := next;
        pending := pending - {intermediate};
      }
    }

    /** `generateSchedules()`: for every station and every one of its
        connections, a train every ten minutes from 06:00 while the clock is
        before 20:00. The result holds exactly the trains `IsScheduledTrain`
        describes, each once. */
    method GenerateSchedules()
      requires Valid()
      modifies this`schedules
      ensures forall x :: x in schedules <==> IsScheduledTrain(CurrentNetwork(), x)
      ensures NoDuplicates(schedules)
      ensures currentRoutes == old(currentRoutes)
    {
      ghost var g := CurrentNetwork();
      schedules := [];
      var pendingFrom := stations.Values;
      while pendingFrom != {}
        invariant pendingFrom <= stations.Values
        invariant GeneratedSoundly(g, schedules, pendingFrom, {}, {})
        invariant forall x :: IsScheduledTrain(g, x) && Handled(x, pendingFrom, {}, {}) ==> x in schedules
        decreases pendingFrom
      {
        var from :| from in pendingFrom;
        var pendingTo := from.connections.Keys;
        assert GeneratedSoundly(g, schedules, pendingFrom, {from}, pendingTo);
        while pendingTo != {}
          invariant pendingTo <= from.connections.Keys
          invariant GeneratedSoundly(g, schedules, pendingFrom, {from}, pendingTo)
          invariant forall x :: IsScheduledTrain(g, x) && Handled(x, pendingFrom, {from}, pendingTo) ==> x in schedules
          decreases pendingTo
        {
          var to :| to in pendingTo;
          ghost var before := schedules;
          ScheduleConnection(from, to);
          GeneratedStep(g, before, pendingFrom, from, pendingTo, to);
          pendingTo := pendingTo - {to};
        }
        assert GeneratedSoundly(g, schedules, pendingFrom - {from}, {}, {});
        pendingFrom := pendingFrom - {from};
      }
    }

    /** The inner loop of `generateSchedules()` for one directed connection:
        appends that connection's 84 trains to the timetable and removes
        nothing. */
    method ScheduleConnection(from: Station, to: Station)
      requires to in from.connections
      modifies this`schedules
      ensures schedules == old(schedules) + TrainsFrom(from, to, from.connections[to], ServiceStart)
    {
      var startTime := Of(6, 0);
      var endTime := Of(20, 0);
      var distance := from.connections[to];
      var currentTime := startTime;
      while IsBefore(currentTime, endTime)
        invariant schedules + TrainsFrom(from, to, distance, currentTime)
                  == old(schedules) + TrainsFrom(from, to, distance, ServiceStart)
        decreases ServiceEnd - currentTime
      {
        var travelMinutes := JavaDiv(distance * 60, SpeedKmh);
        var arrivalTime := PlusMinutes(currentTime, travelMinutes);
        schedules := schedules + [TrainSchedule(currentTime, arrivalTime, from, to)];
        currentTime := PlusMinutes(currentTime, HeadwayMinutes);
      }
    }
  }

  /** Seen on the whole network, a call of `AddConnection` is `AddEdge`: the
      network after it is the one before with the connection set both ways. */
  twostate lemma AddConnectionIsAddEdge(m: Metro, from: string, to: string, distance: int)
    requires old(m.Valid()) && from in old(m.stations) && to in old(m.stations)
    requires m.stations == old(m.stations)
    requires m.stations[from].connections == old(m.stations[from].connections)[m.stations[to] := distance]
    requires m.stations[to].connections == old(m.stations[to].connections)[m.stations[from] := distance]
    requires forall s | s in m.stations.Values && s != m.stations[from] && s != m.stations[to] ::
      s.connections == old(s.connections)
    ensures m.CurrentNetwork() == AddEdge(old(m.CurrentNetwork()), m.stations[from], m.stations[to], distance)
  {
    var r := AddEdge(old(m.CurrentNetwork()), m.stations[from], m.stations[to], distance);
    forall s | s in m.stations.Values ensures m.CurrentNetwork()[s] == r[s] {
    }
  }

  /** The first half of `initializeStations()`: one new station, without
      connections, per name. */
  method NewStations(names: seq<string>) returns (m: map<string, Station>)
    ensures m.Keys == set n | n in names
    ensures forall n | n in m :: m[n].name == n && m[n].connections == map[] && fresh(m[n])
    ensures forall n, n' | n in m && n' in m && n != n' :: m[n] != m[n']
  {
    m := map[];
    for i := 0 to |names|
      invariant m.Keys == set n | n in names[..i]
      invariant forall n | n in m :: m[n].name == n && m[n].connections == map[] && fresh(m[n])
    {
      var s := new Station(names[i]);
      m := m[names[i] := s];
    }
    assert names[..|names|] == names;
  }

  /** The example network as a value, over six distinct stations. */
  function ExampleGraph(a: Station, b: Station, c: Station, d: Station, e: Station, f: Station): Graph
  {
    map[a := map[b := 10, c := 22, e := 8],
        b := map[a := 10, c := 15, d := 9, f := 7],
        c := map[a := 22, b := 15, d := 9],
        d := map[b := 9, c := 9, e := 5, f := 12],
        e := map[a := 8, d := 5, f := 16],
        f := map[b := 7, d := 12, e := 16]]
  }

  /** The example network records every connection in both directions with
      the same distance, and only between its own stations. */
  lemma ExampleGraphSymmetric(a: Station, b: Station, c: Station, d: Station, e: Station, f: Station)
    requires a != b && a != c && a != d && a != e && a != f
    requires b != c && b != d && b != e && b != f
    requires c != d && c != e && c != f
    requires d != e && d != f && e != f
    ensures Symmetric(ExampleGraph(a, b, c, d, e, f)) && Closed(ExampleGraph(a, b, c, d, e, f))
  {
    var g := ExampleGraph(a, b, c, d, e, f);
    forall u, v | u in g && v in g[u]
      ensures v in g && u in g[v] && g[v][u] == g[u][v]
    {
      if u == a {
      } else if u == b {
      } else if u == c {
      } else if u == d {
      } else if u == e {
      } else {
      }
    }
  }

  /** The stations of a network filed under the six names A to F are six
      distinct stations, and no others. */
  lemma SixStations(m: Metro)
    requires m.Valid() && m.stations.Keys == set n | n in StationNames
    ensures var a, b, c := m.stations["A"], m.stations["B"], m.stations["C"];
      var d, e, f := m.stations["D"], m.stations["E"], m.stations["F"];
      && m.stations.Values == {a, b, c, d, e, f}
      && a != b && a != c && a != d && a != e && a != f
      && b != c && b != d && b != e && b != f
      && c != d && c != e && c != f
      && d != e && d != f && e != f
  {
    var a, b, c := m.stations["A"], m.stations["B"], m.stations["C"];
    var d, e, f := m.stations["D"], m.stations["E"], m.stations["F"];
    assert a.name == "A" && b.name == "B" && c.name == "C" && d.name == "D" && e.name == "E" && f.name == "F";
    forall u | u in m.stations.Values ensures u in {a, b, c, d, e, f} {
      var n :| n in m.stations && m.stations[n] == u;
      assert n in StationNames;
    }
  }

  /** The network the booking screen builds is the example network. */
  lemma ExampleNetwork(m: Metro)
    requires m.Valid() && m.ExampleConnections() && m.stations.Keys == set n | n in StationNames
    ensures m.CurrentNetwork() == ExampleGraph(m.stations["A"], m.stations["B"], m.stations["C"],
                                               m.stations["D"], m.stations["E"], m.stations["F"])
  {
    var a, b, c := m.stations["A"], m.stations["B"], m.stations["C"];
    var d, e, f := m.stations["D"], m.stations["E"], m.stations["F"];
    SixStations(m);
    var g, x := m.CurrentNetwork(), ExampleGraph(a, b, c, d, e, f);
    forall u | u in g ensures u in x && g[u] == x[u] {
      assert u in {a, b, c, d, e, f};
    }
  }

  /** ... and so it has six stations and its distances lie between 5 and 22 ... */
  lemma ExampleDistances(m: Metro)
    requires m.Valid() && m.ExampleConnections() && m.stations.Keys == set n | n in StationNames
    ensures |m.CurrentNetwork()| == 6
    ensures forall u, v | u in m.CurrentNetwork() && v in m.CurrentNetwork()[u] :: 5 <= m.CurrentNetwork()[u][v] <= 22
  {
    SixStations(m);
    ExampleNetwork(m);
    ExampleGraphSize(m.stations["A"], m.stations["B"], m.stations["C"],
                     m.stations["D"], m.stations["E"], m.stations["F"]);
    ExampleGraphWeights(m.stations["A"], m.stations["B"], m.stations["C"],
                        m.stations["D"], m.stations["E"], m.stations["F"]);
  }

  /** ... and so it is symmetric and closed, and its distances are small
      enough for the path search and for the timetable. */
  lemma ExampleIsSymmetric(m: Metro)
    requires m.Valid() && m.ExampleConnections() && m.stations.Keys == set n | n in StationNames
    ensures Symmetric(m.CurrentNetwork()) && Closed(m.CurrentNetwork())
    ensures SafeWeights(m.CurrentNetwork()) && ShortConnections(m.CurrentNetwork())
  {
    SixStations(m);
    ExampleNetwork(m);
    ExampleGraphSymmetric(m.stations["A"], m.stations["B"], m.stations["C"],
                          m.stations["D"], m.stations["E"], m.stations["F"]);
    ExampleGraphSize(m.stations["A"], m.stations["B"], m.stations["C"],
                     m.stations["D"], m.stations["E"], m.stations["F"]);
    ExampleGraphWeights(m.stations["A"], m.stations["B"], m.stations["C"],
                        m.stations["D"], m.stations["E"], m.stations["F"]);
    SmallNetworkIsSafe(m.CurrentNetwork());
  }

  /** The example network has six stations. */
  lemma ExampleGraphSize(a: Station, b: Station, c: Station, d: Station, e: Station, f: Station)
    requires a != b && a != c && a != d && a != e && a != f
    requires b != c && b != d && b != e && b != f
    requires c != d && c != e && c != f
    requires d != e && d != f && e != f
    ensures |ExampleGraph(a, b, c, d, e, f)| == 6
  {
    assert ExampleGraph(a, b, c, d, e, f).Keys == {a, b, c, d, e, f};
  }

  /** Every distance of the example network lies between 5 and 22. */
  lemma ExampleGraphWeights(a: Station, b: Station, c: Station, d: Station, e: Station, f: Station)
    ensures var g := ExampleGraph(a, b, c, d, e, f);
      forall u, v | u in g && v in g[u] :: 5 <= g[u][v] <= 22
  {
    var g := ExampleGraph(a, b, c, d, e, f);
    forall u, v | u in g && v in g[u] ensures 5 <= g[u][v] <= 22 {
      if u == a {
      } else if u == b {
      } else if u == c {
      } else if u == d {
      } else if u == e {
      } else {
      }
    }
  }

  /** Six stations with distances of at most 22 are safe for the path search
      and short enough for the timetable. */
  lemma SmallNetworkIsSafe(g: Graph)
    requires |g| <= 6
    requires forall u, v | u in g && v in g[u] :: 0 <= g[u][v] <= 22
    ensures SafeWeights(g) && ShortConnections(g)
  {
    forall u, v | u in g && v in g[u] ensures |g| * g[u][v] <= 6 * 22 {
      MulMonotone(g[u][v], |g|, 6);
      MulMonotone(6, g[u][v], 22);
    }
  }

  /** Every connection is short enough that a train leaving before 20:00
      arrives, buffer included, before midnight. */
  ghost predicate ShortConnections(g: Graph)
  {
    forall u, v | u in g && v in g[u] ::
      0 <= g[u][v] && ServiceEnd + TravelMinutes(g[u][v]) + BufferMinutes < MinutesPerDay
  }

  /** Over a timetable the generator built for a network of short
      connections, each train of a connecting route rides for twice its
      distance, the wait at the connecting station is more than 5 minutes,
      and the total journey time is ride, wait, ride. */
  lemma GeneratedRouteTimes(g: Graph, r: Route, schedules: seq<TrainSchedule>, network: set<Station>,
                            start: Station, end: Station, searchTime: Time)
    requires IsConnectingRoute(r, schedules, network, start, end, searchTime)
    requires forall x | x in schedules :: IsScheduledTrain(g, x)
    requires ShortConnections(g)
    ensures r[0].from in g && r[0].to in g[r[0].from] && RideMinutes(r[0]) == 2 * g[r[0].from][r[0].to]
    ensures r[1].from in g && r[1].to in g[r[1].from] && RideMinutes(r[1]) == 2 * g[r[1].from][r[1].to]
    ensures WaitMinutes(r[0], r[1]) > BufferMinutes
    ensures TotalMinutes(r) == RideMinutes(r[0]) + WaitMinutes(r[0], r[1]) + RideMinutes(r[1])
  {
    ConnectingRouteShape(r, schedules, network, start, end, searchTime);
    ScheduledRideMinutes(g, r[0]);
    ScheduledRideMinutes(g, r[1]);
    ConnectingRouteTimes(r, schedules, network, start, end, searchTime);
  }

  /** The same for every route of a list `FindTrainRoutes` produces: a
      route of two trains always leaves more than 5 minutes to change. */
  lemma ListedRouteTimes(g: Graph, routes: seq<Route>, schedules: seq<TrainSchedule>, network: set<Station>,
                         start: Station, end: Station, searchTime: Time)
    requires ListsRoutes(routes, schedules, network, start, end, searchTime)
    requires forall x | x in schedules :: IsScheduledTrain(g, x)
    requires ShortConnections(g)
    ensures forall i | 0 <= i < |routes| && |routes[i]| == 2 ::
      && WaitMinutes(routes[i][0], routes[i][1]) > BufferMinutes
      && TotalMinutes(routes[i]) == RideMinutes(routes[i][0]) + WaitMinutes(routes[i][0], routes[i][1]) + RideMinutes(routes[i][1])
  {
    ListedRouteLengths(routes, schedules, network, start, end, searchTime);
    forall i | 0 <= i < |routes| && |routes[i]| == 2
      ensures WaitMinutes(routes[i][0], routes[i][1]) > BufferMinutes
      ensures TotalMinutes(routes[i]) == RideMinutes(routes[i][0]) + WaitMinutes(routes[i][0], routes[i][1]) + RideMinutes(routes[i][1])
    {
      GeneratedRouteTimes(g, routes[i], schedules, network, start, end, searchTime);
    }
  }

  /** The first loop of `findTrainRoutes`: one single-train route per
      direct train, in the same order. */
  method DirectRoutes(directTrains: seq<TrainSchedule>) returns (routes: seq<Route>)
    ensures routes == Singletons(directTrains)
  {
    routes := [];
    for i := 0 to |directTrains|
      invariant |routes| == i && forall k | 0 <= k < i :: routes[k] == [directTrains[k]]
    {
      routes := routes + [[directTrains[i]]];
    }
  }

  /** The loop over the first legs to `intermediate` (trains of the
      timetable from `start` to it, in the departure window): each one that has a
      second leg is appended, paired with the earliest second leg, after the
      routes already listed. */
  method PairFirstLegs(schedules: seq<TrainSchedule>, network: set<Station>, start: Station,
                       intermediate: Station, end: Station, searchTime: Time, firstLeg: seq<TrainSchedule>,
                       routes0: seq<Route>)
    returns (routes: seq<Route>)
    requires intermediate in network && intermediate != start && intermediate != end
    requires forall x | x in firstLeg :: x in schedules && IsLegCandidate(x, start, intermediate, searchTime)
    ensures routes == routes0 + PairsFor(schedules, intermediate, end, firstLeg, searchTime)
    ensures PairedSoFar(routes0, routes, schedules, network, start, end, searchTime, firstLeg)
  {
    routes := routes0;
    assert routes0 + [] == routes0;
    for j := 0 to |firstLeg|
      invariant PairedExactly(routes0, routes, schedules, network, start, intermediate, end, searchTime, firstLeg[..j])
    {
      routes := PairFirstLeg(schedules, network, start, intermediate, end, searchTime, routes0, routes,
                             firstLeg[..j], firstLeg[j]);
      TakeOneMore(firstLeg, j);
    }
    assert firstLeg[..|firstLeg|] == firstLeg;
  }

  /** The body of that loop for one first leg: the route `[first, second]`
      is appended when a second leg exists, `second` being the earliest one. */
  method PairFirstLeg(schedules: seq<TrainSchedule>, network: set<Station>, start: Station,
                      intermediate: Station, end: Station, searchTime: Time, ghost routes0: seq<Route>,
                      routes: seq<Route>, ghost done: seq<TrainSchedule>, first: TrainSchedule)
    returns (next: seq<Route>)
    requires PairedExactly(routes0, routes, schedules, network, start, intermediate, end, searchTime, done)
    requires intermediate in network && intermediate != start && intermediate != end
    requires first in schedules && IsLegCandidate(first, start, intermediate, searchTime)
    ensures next == routes + PairFor(schedules, intermediate, end, first, searchTime)
    ensures PairedExactly(routes0, next, schedules, network, start, intermediate, end, searchTime, done + [first])
  {
    var secondLeg := SecondLegCandidates(schedules, intermediate, end, first, searchTime);
    if secondLeg != [] {
      next := routes + [[first, secondLeg[0]]];
      ExactlyAppend(routes0, routes, schedules, network, start, intermediate, end, searchTime, done, first, secondLeg[0]);
    } else {
      next := routes;
      ExactlySkip(routes0, routes, schedules, network, start, intermediate, end, searchTime, done, first);
    }
  }

  /** Appending `[first, second]`, `second` the earliest second leg, keeps
      `PairedExactly`. */
  lemma ExactlyAppend(routes0: seq<Route>, routes: seq<Route>, schedules: seq<TrainSchedule>,
                      network: set<Station>, start: Station, intermediate: Station, end: Station, searchTime: Time,
                      done: seq<TrainSchedule>, first: TrainSchedule, second: TrainSchedule)
    requires PairedExactly(routes0, routes, schedules, network, start, intermediate, end, searchTime, done)
    requires intermediate in network && intermediate != start && intermediate != end
    requires first in schedules && IsLegCandidate(first, start, intermediate, searchTime)
    requires EarliestSecondLeg(schedules, intermediate, end, first, searchTime) == Some(second)
    ensures routes + [[first, second]] == routes + PairFor(schedules, intermediate, end, first, searchTime)
    ensures PairedExactly(routes0, routes + [[first, second]], schedules, network, start, intermediate, end,
                          searchTime, done + [first])
  {
    PairedAppend(routes0, routes, schedules, network, start, intermediate, end, searchTime, done, first, second);
    PairForSome(schedules, intermediate, end, first, second, searchTime);
    PairsForSnoc(schedules, intermediate, end, done, first, searchTime);
    AppendAssoc(routes0, PairsFor(schedules, intermediate, end, done, searchTime), [[first, second]]);
  }

  lemma AppendAssoc<T>(a: seq<T>, b: seq<T>, c: seq<T>)
    ensures (a + b) + c == a + (b + c)
  {
  }

  lemma PairForSome(schedules: seq<TrainSchedule>, via: Station, end: Station, first: TrainSchedule,
                    second: TrainSchedule, searchTime: Time)
    requires EarliestSecondLeg(schedules, via, end, first, searchTime) == Some(second)
    ensures PairFor(schedules, via, end, first, searchTime) == [[first, second]]
  {
  }

  /** Appending nothing for a first leg without a second leg keeps
      `PairedExactly`. */
  lemma ExactlySkip(routes0: seq<Route>, routes: seq<Route>, schedules: seq<TrainSchedule>,
                    network: set<Station>, start: Station, intermediate: Station, end: Station, searchTime: Time,
                    done: seq<TrainSchedule>, first: TrainSchedule)
    requires PairedExactly(routes0, routes, schedules, network, start, intermediate, end, searchTime, done)
    requires first.to == intermediate && EarliestSecondLeg(schedules, intermediate, end, first, searchTime).None?
    ensures routes == routes + PairFor(schedules, intermediate, end, first, searchTime)
    ensures PairedExactly(routes0, routes, schedules, network, start, intermediate, end, searchTime, done + [first])
  {
    PairedSkip(routes0, routes, schedules, network, start, intermediate, end, searchTime, done, first);
    PairsForSnoc(schedules, intermediate, end, done, first, searchTime);
    AppendAssoc(routes0, PairsFor(schedules, intermediate, end, done, searchTime), []);
    assert routes + [] == routes;
  }

  /** What the loop body appends for one first leg: the route `[first,
      second]`, `second` the earliest second leg, when there is one, and
      nothing otherwise. */
  function PairFor(schedules: seq<TrainSchedule>, via: Station, end: Station, first: TrainSchedule,
                   searchTime: Time): (r: seq<Route>)
    ensures |r| <= 1
    ensures r != [] <==> exists x | x in schedules :: IsSecondLegCandidate(x, via, end, first, searchTime)
    ensures forall route | route in r ::
      (|route| == 2 && route[0] == first && route[1] in schedules &&
       IsSecondLegCandidate(route[1], via, end, first, searchTime))
  {
    match EarliestSecondLeg(schedules, via, end, first, searchTime)
    case Some(second) => [[first, second]]
    case None => []
  }

  /** What the loop over `firstLeg` appends: one route per first leg that
      has a second leg, in the order of `firstLeg`, and nothing else. */
  function PairsFor(schedules: seq<TrainSchedule>, via: Station, end: Station, firstLeg: seq<TrainSchedule>,
                    searchTime: Time): (r: seq<Route>)
    ensures |r| <= |firstLeg|
    ensures forall route | route in r :: |route| == 2 && route[0] in firstLeg
  {
    if firstLeg == [] then []
    else
      var last := |firstLeg| - 1;
      var rest := PairsFor(schedules, via, end, firstLeg[..last], searchTime);
      var pair := PairFor(schedules, via, end, firstLeg[last], searchTime);
      forall route | route in rest + pair ensures |route| == 2 && route[0] in firstLeg {
        if route in rest {
          assert route[0] in firstLeg[..last];
        }
      }
      rest + pair
  }

  /** Taking one more first leg appends what the loop body appends for it. */
  lemma PairsForSnoc(schedules: seq<TrainSchedule>, via: Station, end: Station, done: seq<TrainSchedule>,
                     first: TrainSchedule, searchTime: Time)
    ensures PairsFor(schedules, via, end, done + [first], searchTime)
            == PairsFor(schedules, via, end, done, searchTime) + PairFor(schedules, via, end, first, searchTime)
  {
    assert (done + [first])[..|done|] == done;
  }

  /** The loop over the first legs to `intermediate` after those of `done`:
      it has appended exactly their routes, which `PairedSoFar` describes. */
  ghost predicate PairedExactly(routes0: seq<Route>, routes: seq<Route>, schedules: seq<TrainSchedule>,
                                network: set<Station>, start: Station, intermediate: Station, end: Station,
                                searchTime: Time, done: seq<TrainSchedule>)
  {
    && routes == routes0 + PairsFor(schedules, intermediate, end, done, searchTime)
    && PairedSoFar(routes0, routes, schedules, network, start, end, searchTime, done)
  }

  /** The routes appended after `routes0` are connecting routes, and one of
      them pairs each first leg of `done` that has a second leg with the
      earliest such second leg. */
  ghost predicate PairedSoFar(routes0: seq<Route>, routes: seq<Route>, schedules: seq<TrainSchedule>,
                              network: set<Station>, start: Station, end: Station, searchTime: Time,
                              done: seq<TrainSchedule>)
  {
    && |routes0| <= |routes| && routes[..|routes0|] == routes0
    && (forall r | r in routes[|routes0|..] :: IsConnectingRoute(r, schedules, network, start, end, searchTime))
    && (forall x | x in done && HasSecondLeg(x, schedules, network, start, end, searchTime) ::
          [x, EarliestSecondLeg(schedules, x.to, end, x, searchTime).value] in routes[|routes0|..])
  }

  /** A first leg without a second leg adds no route and keeps `PairedSoFar`. */
  lemma PairedSkip(routes0: seq<Route>, routes: seq<Route>, schedules: seq<TrainSchedule>,
                   network: set<Station>, start: Station, intermediate: Station, end: Station, searchTime: Time,
                   done: seq<TrainSchedule>, first: TrainSchedule)
    requires PairedSoFar(routes0, routes, schedules, network, start, end, searchTime, done)
    requires first.to == intermediate && EarliestSecondLeg(schedules, intermediate, end, first, searchTime).None?
    ensures PairedSoFar(routes0, routes, schedules, network, start, end, searchTime, done + [first])
  {
    forall x | x in done + [first] && HasSecondLeg(x, schedules, network, start, end, searchTime)
      ensures [x, EarliestSecondLeg(schedules, x.to, end, x, searchTime).value] in routes[|routes0|..]
    {
      assert x != first;
      assert x in done;
    }
  }

  /** A first leg with a second leg is appended as the route `[first,
      second]`, which keeps `PairedSoFar`. */
  lemma PairedAppend(routes0: seq<Route>, routes: seq<Route>, schedules: seq<TrainSchedule>,
                     network: set<Station>, start: Station, intermediate: Station, end: Station, searchTime: Time,
                     done: seq<TrainSchedule>, first: TrainSchedule, second: TrainSchedule)
    requires PairedSoFar(routes0, routes, schedules, network, start, end, searchTime, done)
    requires intermediate in network && intermediate != start && intermediate != end
    requires first in schedules && IsLegCandidate(first, start, intermediate, searchTime)
    requires EarliestSecondLeg(schedules, intermediate, end, first, searchTime) == Some(second)
    ensures PairedSoFar(routes0, routes + [[first, second]], schedules, network, start, end, searchTime, done + [first])
  {
    var next := routes + [[first, second]];
    RoutesKept(routes, next, |routes0|);
    assert IsConnectingRoute([first, second], schedules, network, start, end, searchTime);
    assert next[|routes0|..] == routes[|routes0|..] + [[first, second]];
  }

  /** The routes listed so far: the direct ones first, then connecting
      routes, among them one for each first leg with a second leg whose
      intermediate station is no longer pending. */
  ghost predicate ListedSoFar(routes: seq<Route>, direct: seq<TrainSchedule>, schedules: seq<TrainSchedule>,
                              network: set<Station>, start: Station, end: Station, searchTime: Time,
                              pending: set<Station>)
  {
    && |direct| <= |routes| && routes[..|direct|] == Singletons(direct)
    && (forall r | r in routes[|direct|..] :: IsConnectingRoute(r, schedules, network, start, end, searchTime))
    && (forall x | x in schedules && HasSecondLeg(x, schedules, network, start, end, searchTime) && x.to !in pending ::
          [x, EarliestSecondLeg(schedules, x.to, end, x, searchTime).value] in routes[|direct|..])
  }

  /** One step of the loop over intermediate stations keeps `ListedSoFar`. */
  lemma ListedNext(routes: seq<Route>, next: seq<Route>, direct: seq<TrainSchedule>, schedules: seq<TrainSchedule>,
                   network: set<Station>, start: Station, end: Station, searchTime: Time,
                   pending: set<Station>, intermediate: Station)
    requires ListedSoFar(routes, direct, schedules, network, start, end, searchTime, pending)
    requires intermediate in pending && pending <= network
    requires intermediate == start || intermediate == end ==> next == routes
    requires intermediate != start && intermediate != end ==>
      PairedSoFar(routes, next, schedules, network, start, end, searchTime,
                  LegCandidates(schedules, start, intermediate, searchTime))
    ensures ListedSoFar(next, direct, schedules, network, start, end, searchTime, pending - {intermediate})
  {
    RoutesKept(routes, next, |direct|);
    if intermediate != start && intermediate != end {
      PairedCovers(routes, next, schedules, network, start, intermediate, end, searchTime, |direct|);
    }
  }

  /** After the first legs to `intermediate` are paired, every first leg to
      it that has a second leg is listed from position `n` on. */
  lemma PairedCovers(routes: seq<Route>, next: seq<Route>, schedules: seq<TrainSchedule>, network: set<Station>,
                     start: Station, intermediate: Station, end: Station, searchTime: Time, n: int)
    requires 0 <= n <= |routes|
    requires PairedSoFar(routes, next, schedules, network, start, end, searchTime,
                         LegCandidates(schedules, start, intermediate, searchTime))
    ensures forall x | x in schedules && HasSecondLeg(x, schedules, network, start, end, searchTime)
                       && x.to == intermediate ::
      [x, EarliestSecondLeg(schedules, x.to, end, x, searchTime).value] in next[n..]
  {
    RoutesKept(routes, next, n);
    forall x | x in schedules && HasSecondLeg(x, schedules, network, start, end, searchTime) && x.to == intermediate
      ensures [x, EarliestSecondLeg(schedules, x.to, end, x, searchTime).value] in next[n..]
    {
      assert x in LegCandidates(schedules, start, intermediate, searchTime);
    }
  }

  lemma TakeOneMore<T>(s: seq<T>, j: int)
    requires 0 <= j < |s|
    ensures s[..j + 1] == s[..j] + [s[j]]
  {
  }

  /** A list that extends another keeps its prefix, and what it lists from
      position `n` on is what the other lists from there, then the new routes. */
  lemma RoutesKept(before: seq<Route>, after: seq<Route>, n: int)
    requires 0 <= n <= |before| <= |after| && after[..|before|] == before
    ensures after[..n] == before[..n]
    ensures after[n..] == before[n..] + after[|before|..]
  {
    assert after == before + after[|before|..];
  }

  /** Every train of the timetable built so far belongs to a connection
      already handled, and none appears twice. */
  ghost predicate GeneratedSoundly(g: Graph, s: seq<TrainSchedule>, pendingFrom: set<Station>,
                                   current: set<Station>, pendingTo: set<Station>)
  {
    && (forall x | x in s :: IsScheduledTrain(g, x) && Handled(x, pendingFrom, current, pendingTo))
    && NoDuplicates(s)
  }

  /** The connections already handled: those leaving a station no longer
      pending, and those leaving a station of `current` towards a station no
      longer pending for it. */
  ghost predicate Handled(x: TrainSchedule, pendingFrom: set<Station>, current: set<Station>, pendingTo: set<Station>)
  {
    x.from !in pendingFrom || (x.from in current && x.to !in pendingTo)
  }

  /** Appending the run of one more connection keeps the timetable exactly
      the trains of the connections handled. */
  lemma GeneratedStep(g: Graph, before: seq<TrainSchedule>, pendingFrom: set<Station>,
                      from: Station, pendingTo: set<Station>, to: Station)
    requires GeneratedSoundly(g, before, pendingFrom, {from}, pendingTo)
    requires forall x :: IsScheduledTrain(g, x) && Handled(x, pendingFrom, {from}, pendingTo) ==> x in before
    requires from in pendingFrom && to in pendingTo
    requires from in g && to in g[from]
    ensures GeneratedSoundly(g, before + TrainsFrom(from, to, g[from][to], ServiceStart),
                             pendingFrom, {from}, pendingTo - {to})
    ensures forall x :: IsScheduledTrain(g, x) && Handled(x, pendingFrom, {from}, pendingTo - {to})
                        ==> x in before + TrainsFrom(from, to, g[from][to], ServiceStart)
  {
    var run := TrainsFrom(from, to, g[from][to], ServiceStart);
    var after := before + run;
    forall x | x in run
      ensures IsScheduledTrain(g, x) && x.from == from && x.to == to
    {
      TrainsFromMembers(from, to, g[from][to], x);
    }
    forall x | IsScheduledTrain(g, x) && Handled(x, pendingFrom, {from}, pendingTo - {to})
      ensures x in after
    {
      if x.from == from && x.to == to {
        TrainsFromMembers(from, to, g[from][to], x);
      }
    }
    TrainsFromDistinct(from, to, g[from][to]);
    NoDuplicatesConcat(before, run);
  }

  /** Two duplicate-free lists with no common element concatenate to a
      duplicate-free list. */
  lemma NoDuplicatesConcat<T>(a: seq<T>, b: seq<T>)
    requires NoDuplicates(a) && NoDuplicates(b)
    requires forall x | x in a :: x !in b
    ensures NoDuplicates(a + b)
  {
    var c := a + b;
    forall i, j | 0 <= i < j < |c| ensures c[i] != c[j] {
      if j >= |a| && i < |a| {
        assert c[i] in a && c[j] == b[j - |a|];
      } else if i >= |a| {
        assert c[i] == b[i - |a|] && c[j] == b[j - |a|];
      }
    }
  }
}

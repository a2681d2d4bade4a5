/** The timetable the booking screen generates once at start-up: for every
    directed connection a train every ten minutes from 06:00 while the clock is
    before 20:00, each travelling at 30 km/h. */
module Timetable {
  import opened LocalTime
  import opened Stations
  import opened Schedules
  import opened Network

  /** `LocalTime.of(6, 0)` */
  const ServiceStart: Time := 360
  /** `LocalTime.of(20, 0)` */
  const ServiceEnd: Time := 1200
  /** Minutes between two departures on the same connection. */
  const HeadwayMinutes: int := 10
  const SpeedKmh: int := 30

  /** Java's `/` on `int`: the quotient truncated toward zero. */
  function JavaDiv(a: int, b: int): int
    requires b > 0
  {
    if a >= 0 then a / b else -((-a) / b)
  }

  /** `(distance * 60) / 30`: whole minutes of travel over a connection. The
      division is always exact, whatever the sign of the distance. */
  function TravelMinutes(distance: int): (m: int)
    ensures m == 2 * distance
  {
    assert distance * 60 == SpeedKmh * (2 * distance);
    assert -(distance * 60) == SpeedKmh * (-2 * distance);
    JavaDiv(distance * 60, SpeedKmh)
  }

  /** The departures the generator's clock takes from 06:00 on. */
  predicate IsServiceDeparture(t: Time)
  {
    ServiceStart <= t < ServiceEnd && (t - ServiceStart) % HeadwayMinutes == 0
  }

  /** The trains the inner loop of the generator appends for one directed
      connection, starting with its clock at `t`: none once the clock reaches
      20:00; otherwise trains on that connection only, departing from `t` on
      and before 20:00, each arriving after the travel time. */
  function TrainsFrom(from: Station, to: Station, distance: int, t: Time): (r: seq<TrainSchedule>)
    ensures r != [] <==> IsBefore(t, ServiceEnd)
    ensures forall x | x in r ::
      && x.from == from && x.to == to && t <= x.departureTime < ServiceEnd
      && x.arrivalTime == PlusMinutes(x.departureTime, TravelMinutes(distance))
    decreases ServiceEnd - t
  {
    if IsBefore(t, ServiceEnd) then
      [TrainSchedule(t, PlusMinutes(t, TravelMinutes(distance)), from, to)]
        + TrainsFrom(from, to, distance, PlusMinutes(t, HeadwayMinutes))
    else []
  }

  /** The run started at a departure time on the ten-minute grid holds one
      train per remaining grid slot before 20:00, in order. */
  lemma {:induction false} TrainsFromIndexed(from: Station, to: Station, distance: int, t: Time)
    requires t <= ServiceEnd && t % HeadwayMinutes == 0
    ensures |TrainsFrom(from, to, distance, t)| == (ServiceEnd - t) / HeadwayMinutes
    ensures forall k :: 0 <= k < |TrainsFrom(from, to, distance, t)| ==>
      var dep := t + HeadwayMinutes * k;
      0 <= dep < MinutesPerDay &&
      TrainsFrom(from, to, distance, t)[k] == TrainSchedule(dep, PlusMinutes(dep, TravelMinutes(distance)), from, to)
    decreases ServiceEnd - t
  {
    if t < ServiceEnd {
      var next := PlusMinutes(t, HeadwayMinutes);
      assert next == t + HeadwayMinutes;
      TrainsFromIndexed(from, to, distance, next);
      var run := TrainsFrom(from, to, distance, t);
      var rest := TrainsFrom(from, to, distance, next);
      assert run == [run[0]] + rest;
      forall k | 0 <= k < |run|
        ensures var dep := t + HeadwayMinutes * k;
          0 <= dep < MinutesPerDay &&
          run[k] == TrainSchedule(dep, PlusMinutes(dep, TravelMinutes(distance)), from, to)
      {
        if k > 0 {
          assert run[k] == rest[k - 1];
          assert next + HeadwayMinutes * (k - 1) == t + HeadwayMinutes * k;
        }
      }
    }
  }

  /** Each directed connection gets exactly 84 trains, departing 06:00, 06:10,
      ..., 19:50, all strictly before 20:00, each arriving `travel` minutes
      after its departure (modulo a day). */
  lemma DailyRun(from: Station, to: Station, distance: int)
    ensures var run := TrainsFrom(from, to, distance, ServiceStart);
      && |run| == 84
      && run[0].departureTime == Of(6, 0)
      && run[83].departureTime == Of(19, 50)
      && (forall k :: 0 <= k < 84 ==> run[k].departureTime == ServiceStart + HeadwayMinutes * k)
      && (forall k :: 0 <= k < 84 ==> IsBefore(run[k].departureTime, ServiceEnd))
      && (forall k :: 0 <= k < 83 ==> run[k + 1].departureTime == PlusMinutes(run[k].departureTime, HeadwayMinutes))
  {
    TrainsFromIndexed(from, to, distance, ServiceStart);
  }

  /** A train belongs to a connection's run exactly when it is on that
      connection, departs on the service grid and arrives after the
      connection's travel time. */
  lemma TrainsFromMembers(from: Station, to: Station, distance: int, x: TrainSchedule)
    ensures x in TrainsFrom(from, to, distance, ServiceStart) <==>
      && x.from == from && x.to == to
      && IsServiceDeparture(x.departureTime)
      && x.arrivalTime == PlusMinutes(x.departureTime, TravelMinutes(distance))
  {
    var run := TrainsFrom(from, to, distance, ServiceStart);
    TrainsFromIndexed(from, to, distance, ServiceStart);
    if x.from == from && x.to == to && IsServiceDeparture(x.departureTime)
       && x.arrivalTime == PlusMinutes(x.departureTime, TravelMinutes(distance))
    {
      var k := (x.departureTime - ServiceStart) / HeadwayMinutes;
      assert run[k] == x;
    }
  }

  /** No train appears twice in a connection's run. */
  lemma TrainsFromDistinct(from: Station, to: Station, distance: int)
    ensures NoDuplicates(TrainsFrom(from, to, distance, ServiceStart))
  {
    TrainsFromIndexed(from, to, distance, ServiceStart);
  }

  ghost predicate NoDuplicates<T>(s: seq<T>)
  {
    forall i, j :: 0 <= i < j < |s| ==> s[i] != s[j]
  }

  /** A train the generator produces for the network `g`. */
  ghost predicate IsScheduledTrain(g: Graph, x: TrainSchedule)
  {
    && x.from in g && x.to in g[x.from]
    && IsServiceDeparture(x.departureTime)
    && x.arrivalTime == PlusMinutes(x.departureTime, TravelMinutes(g[x.from][x.to]))
  }

  /** A generated train that does not run past midnight rides for exactly its
      travel time: twice the distance, in minutes. */
  lemma ScheduledRideMinutes(g: Graph, x: TrainSchedule)
    requires IsScheduledTrain(g, x)
    requires x.departureTime + TravelMinutes(g[x.from][x.to]) < MinutesPerDay
    requires 0 <= g[x.from][x.to]
    ensures MinutesBetween(x.departureTime, x.arrivalTime) == 2 * g[x.from][x.to]
  {
  }
}

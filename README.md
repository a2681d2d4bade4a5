# Metro booking: journey planning, modelled in Dafny

This project models the journey-planning core of a small metro booking
application written in Java. The application is a Swing window. Behind its
widgets it does four things:

- it builds a network of six stations, A to F, joined by ten two-way
  connections with distances in kilometres;
- it generates a day's timetable, with a train every ten minutes on every
  directed connection from 06:00 until 20:00, at 30 km/h;
- it checks with a Dijkstra-style search that the destination can be reached;
- it lists the itineraries for a search time: the direct trains in the
  departure window, and two-train routes through an intermediate station with
  more than 5 minutes to change trains.

The model keeps the source's form:

- A station is a class with identity semantics and a mutable `connections`
  map (`Stations.Station`).
- A train is an immutable datatype (`Schedules.TrainSchedule`).
- The booking screen's state is the class `MetroBooking.Metro`. Its fields
  are the station map, the timetable and the routes last shown. Its methods
  update them in place, as the Java methods do.
- The stream filters and sorts of the itinerary search are functions
  (`Journey`).
- The network seen as a value, walks and reachability live in `Network`.
- The loop state of the shortest-path search lives in `ShortestPath`.
- Times of day are whole minutes since midnight. Adding minutes wraps around
  midnight (`LocalTime`).

The main results:

- `FindShortestPath` answers "no route" exactly when the destination cannot be
  reached. Every distance it records is the length of a real walk, and it
  never overflows a Java `int`.
- `FindTrainRoutes` lists exactly the direct trains first, in departure order.
  Then it lists only connecting routes, at least one for every first leg that
  has a qualifying second leg, and each uses the earliest such second leg.
- The generator produces exactly 84 trains per directed connection, and no
  train twice.
- On the generated timetable, every two-train route leaves more than 5 minutes
  to change. Its total time is ride plus wait plus ride.

## Model

| member | source | states |
|---|---|---|
| Stations.Station.constructor | Station.java:7-10 | a new station keeps the given name and starts with no connections |
| Stations.Station.ToString | Station.java:12-15 | `toString()` is exactly the station's name |
| LocalTime.Of | MetroBookingGUI.java:125-126 | `LocalTime.of(h, m)` is the minute `60h + m`: its hour and minute read back as given |
| LocalTime.PlusMinutes | MetroBookingGUI.java:138 | adding minutes lands on the same minute modulo a day, and is plain addition when no midnight is crossed |
| LocalTime.MinusMinutes | MetroBookingGUI.java:214 | subtracting minutes is the same modulo a day, and plain subtraction when no midnight is crossed |
| LocalTime.IsBefore | MetroBookingGUI.java:220-221 | `a.isBefore(b)` holds exactly when `b.isAfter(a)` does |
| LocalTime.IsAfter | MetroBookingGUI.java:247 | `a.isAfter(b)` holds exactly when the duration from `b` to `a` is positive, so never for equal times |
| LocalTime.MinutesBetween | MetroBookingGUI.java:308 | `Duration.between(a, b).toMinutes()` stays within one day, going forward by it from `a` reaches `b`, and it is non-negative exactly when `b` is not earlier in the day than `a`; together these fix it as the unwrapped difference |
| LocalTime.MinusUndoesPlus | MetroBookingGUI.java:214-215 | `minusMinutes(n)` undoes `plusMinutes(n)` for every time and every `n`, across midnight too |
| MetroBooking.Metro.AddConnection | MetroBookingGUI.java:51-54 | records the distance in both endpoints' maps, overwriting an earlier value, changes no other station, and keeps every connection inside the network |
| MetroBooking.AddConnectionIsAddEdge | MetroBookingGUI.java:51-54 | seen on the whole network, one call is `AddEdge`: both directions set, every other entry unchanged |
| Network.AddEdge | MetroBookingGUI.java:51-54 | after adding `from`-`to`, both directions carry the distance, the other stations' maps are unchanged, and no other entry of the two endpoints changes |
| Network.AddEdgeKeepsSymmetric | MetroBookingGUI.java:51-54 | adding a connection keeps every connection recorded both ways with the same distance |
| Network.AddEdgeKeepsClosed | MetroBookingGUI.java:51-54 | adding a connection between two stations of the network keeps every connection inside it |
| Network.AddEdgeOverwrites | MetroBookingGUI.java:51-54 | repeating `addConnection` for a pair keeps only the latest distance |
| MetroBooking.NewStations | MetroBookingGUI.java:33-36 | one new, distinct station per name, filed under its name, with no connections |
| MetroBooking.Metro.InitializeStations | MetroBookingGUI.java:29-49 | the six stations A-F hold exactly the ten connections with their distances; the network is symmetric and closed, with distances safe for the search and short enough for the timetable |
| MetroBooking.ExampleDistances | MetroBookingGUI.java:38-48 | the network built from the ten calls has six stations, and every distance lies between 5 and 22 |
| MetroBooking.ExampleIsSymmetric | MetroBookingGUI.java:38-48 | the network built from the ten calls is symmetric and closed, with distances safe for the search and short enough for the timetable |
| MetroBooking.Metro.constructor | MetroBookingGUI.java:23-27 | start-up builds the example network, then a timetable holding exactly the generated trains, each once, and shows no routes yet |
| Timetable.TravelMinutes | MetroBookingGUI.java:137 | `(distance * 60) / 30` with Java's truncating division is exactly twice the distance |
| MetroBooking.Metro.ScheduleConnection | MetroBookingGUI.java:131-144 | the inner loop only appends, and what it appends is the connection's run `TrainsFrom` |
| Timetable.TrainsFrom | MetroBookingGUI.java:134-143 | the inner loop produces nothing once its clock reaches 20:00; otherwise only trains on its connection, departing from the clock's start on and before 20:00, each arriving after the travel time |
| Timetable.TrainsFromIndexed | MetroBookingGUI.java:134-143 | the k-th train of a run departs 10k minutes after the run's start and arrives after the travel time |
| Timetable.DailyRun | MetroBookingGUI.java:125-126 | a run has 84 trains, departing 06:00, 06:10, ..., 19:50, all strictly before 20:00 |
| Timetable.TrainsFromMembers | MetroBookingGUI.java:134-140 | a train is in a run exactly when it is on that connection, departs on the 10-minute grid between 06:00 and 20:00, and arrives after the connection's travel time |
| Timetable.TrainsFromDistinct | MetroBookingGUI.java:134-143 | no train appears twice in a run |
| Timetable.ScheduledRideMinutes | MetroBookingGUI.java:137-138 | a generated train that stays before midnight rides for twice its distance in minutes |
| MetroBooking.Metro.GenerateSchedules | MetroBookingGUI.java:123-147 | the timetable holds exactly the trains on a connection of the network, on the 10-minute grid from 06:00 until 20:00, with the connection's travel time, and none twice |
| ShortestPath.RelaxNeighbours | MetroBookingGUI.java:191-199 | whatever the order of the connections, each station `current` connects to ends with the smaller of its old distance (or `Integer.MAX_VALUE`) and `d[current] +` the connection's distance; every other station keeps its distance and no other station gains one; each new distance is a walk's length, and every improved station is queued |
| ShortestPath.ExhaustedCoversReachable | MetroBookingGUI.java:183-202 | when the queue is empty, every station reachable from `start` has a distance |
| ShortestPath.SearchResult | MetroBookingGUI.java:187-188 | when `end` is polled, the map has `start` at 0, `end`, and only non-negative distances below `Integer.MAX_VALUE` that are lengths of walks from `start` |
| MetroBooking.Metro.FindShortestPath | MetroBookingGUI.java:175-203 | returns the map exactly when `end` can be reached (`null` otherwise); every recorded distance is a walk's length from `start`; `start == end` answers `{start: 0}` |
| Journey.InDepartureWindow | MetroBookingGUI.java:220-221 | away from midnight, a train is in the window exactly when it departs from 10 minutes before the search time up to, but not including, 70 minutes after it |
| Journey.IsLegCandidate | MetroBookingGUI.java:219-221 | a direct train or first leg runs on the given connection; away from midnight it is exactly a train on that connection departing in that window |
| Journey.IsSecondLegCandidate | MetroBookingGUI.java:243-249 | a second leg runs from the intermediate station to `end` |
| Journey.SecondLegWindow | MetroBookingGUI.java:243-249 | when neither bound runs past midnight, a second leg is exactly a train from the intermediate station to `end` leaving more than 5 minutes after the first leg arrives and before the search time plus an hour |
| Journey.FilterKeeps | MetroBookingGUI.java:219-221 | filtering keeps every copy of each train that passes and no train that does not |
| Journey.FilterAppend | MetroBookingGUI.java:219-221 | filtering keeps the input order: filtering a concatenation gives the filtered first part followed by the filtered second part |
| Journey.InsertByDeparture | MetroBookingGUI.java:222 | inserting into a list sorted by departure keeps it sorted and adds exactly that train |
| Journey.SortByDeparture | MetroBookingGUI.java:222 | the result is sorted by departure and a permutation of the input |
| Journey.LegCandidates | MetroBookingGUI.java:214-223 | the direct trains (or first legs): exactly the timetable's trains on the connection whose departure lies in the wrapped window, each as often as in the timetable, sorted by departure |
| Journey.SecondLegCandidates | MetroBookingGUI.java:242-251 | exactly the trains from the intermediate station to `end` that depart after the first leg's arrival plus 5 minutes and before the search time plus an hour, sorted |
| Journey.SortedHeadIsEarliest | MetroBookingGUI.java:250-254 | the head of a list sorted by departure departs no later than any member |
| Journey.EarliestSecondLeg | MetroBookingGUI.java:253-254 | no second leg exactly when no train qualifies; otherwise a qualifying train of the timetable that departs no later than any other |
| MetroBooking.DirectRoutes | MetroBookingGUI.java:225-229 | one single-train route per direct train, in the same order |
| MetroBooking.PairFor | MetroBookingGUI.java:253-255 | the routes added for one first leg: one when some train qualifies as its second leg, none otherwise; the one added starts with that first leg and continues with a qualifying second leg |
| MetroBooking.PairsFor | MetroBookingGUI.java:241-256 | the routes added for a list of first legs: at most one per first leg, each a two-train route starting with one of them |
| MetroBooking.PairFirstLegs | MetroBookingGUI.java:241-256 | appends exactly `PairsFor` of the first legs after the routes already listed: one route per first leg with a second leg, in first-leg order, and nothing else; those are connecting routes, and every first leg with a second leg is paired with its earliest one |
| MetroBooking.PairFirstLeg | MetroBookingGUI.java:242-255 | one first leg appends exactly `PairFor`: `[first, earliest second leg]` when there is one, and nothing otherwise |
| MetroBooking.Metro.FindTrainRoutes | MetroBookingGUI.java:205-261 | the routes are the direct trains first, sorted, one per route; after them only connecting routes, including one for every first leg that has a second leg |
| Journey.ConnectingRouteShape | MetroBookingGUI.java:232-255 | a connecting route runs `start -> X -> end` with `X` not `start` or `end`, the first leg in the window, and the second leg qualifying and the earliest one |
| Journey.ListedRouteLengths | MetroBookingGUI.java:225-256 | every listed route has one or two trains, and one train exactly for the leading direct routes |
| Journey.ListedDirectRoutes | MetroBookingGUI.java:218-229 | single-train routes are timetable trains from `start` to `end` in the window, come before every two-train route, and are in departure order |
| MetroBooking.Metro.SearchTrains | MetroBookingGUI.java:149-173 | "no route available" exactly when the destination is unreachable; otherwise the listed routes, which become the routes shown |
| Journey.WaitMinutes | MetroBookingGUI.java:308 | going forward by the wait from a train's arrival reaches the next departure; the wait is negative exactly when that departure is earlier in the day |
| Journey.TotalMinutes | MetroBookingGUI.java:313-315 | going forward by the total from the first departure reaches the last arrival; the total is negative exactly when that arrival is earlier in the day |
| Journey.TotalIsRidesPlusWaits | MetroBookingGUI.java:306-315 | a route's total minutes equal the sum of its rides and of the waits between consecutive trains |
| Journey.ConnectingRouteTimes | MetroBookingGUI.java:246-247 | when the first arrival plus 5 minutes stays before midnight, the wait is more than 5 minutes and the total is ride + wait + ride |
| MetroBooking.GeneratedRouteTimes | MetroBookingGUI.java:246-247 | on a generated timetable, each train of a connecting route rides twice its distance, the wait is more than 5 minutes, and the total is ride + wait + ride |
| MetroBooking.ListedRouteTimes | MetroBookingGUI.java:308 | on a generated timetable, every two-train route that is listed has a wait above 5 minutes and a total of ride + wait + ride |
| MetroBooking.Metro.ConfirmBooking | MetroBookingGUI.java:369-373 | no total without a selection; otherwise the selected route's total minutes, which are its rides and waits added up |

## Left out

- The Swing interface is not modelled: the window, combo boxes, spinner, radio buttons, panels and dialogs (MetroBookingGUI.java:56-121, 263-339, 341-393). The text that `displayRoutes` and `confirmBooking` build is not modelled either. Only the routes shown and the minute arithmetic are.
- MetroBookingSystem.java is only the launcher (look and feel, `invokeLater`). It is not part of this model.
- The conversion of the spinner's `Date` to a `LocalTime` in the system time zone is not modelled. The search time is a parameter, in whole minutes. Seconds in the spinner's value are not modelled.
- `HashMap` iteration order over stations and connections is not modelled. Each loop takes any remaining element (`:|`), so the results hold for every order.
- MetroBooking.Metro.FindTrainRoutes: does not state the order of the connecting routes, which follows `HashMap` order. It also does not state that each first leg is listed only once.
- `PriorityQueue` ordering is not modelled. The queue is a multiset and `poll` returns any queued station. The comparator reads distances that change after insertion, so the heap order is not reliable anyway. Because of this, the model proves reachability and "every distance is a real walk's length", but not that the distances are minimal.
- MetroBooking.Metro.FindShortestPath: requires `SafeWeights`: distances non-negative, and each times the station count below `Integer.MAX_VALUE`. The Java code has no such check. The requirement rules out `int` overflow in `distances.get(current) + distance`. The example network meets it (the constructor proves this).
- The `shortestDistances` argument of `findTrainRoutes` is never read in the source. The model passes it along unused.
- Journey.ConnectingRouteTimes: requires that the first leg's arrival plus 5 minutes does not run past midnight. Otherwise `plusMinutes(5)` wraps, and the signed `Duration` wait can be negative even though the filter accepted the train. `GeneratedRouteTimes` shows the generated timetable never gets there.
- Timetable.TravelMinutes: the `int` overflow of `distance * 60` for distances above 35 million is not modelled.
- The field `currentRoutes` starts as Java `null`; the constructor starts it as an empty list. Either way no booking can be confirmed before a search.
- MetroBooking.Metro.ConfirmBooking: models the selection as an optional index into the routes shown. The warning dialog for a missing selection is not modelled.

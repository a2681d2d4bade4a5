/** The state of the booking screen's path search (a map of tentative
    distances and a queue of stations to visit) and the relaxation of one
    station's connections. The queue is a multiset: a station may be offered
    more than once, and `poll` is taken to return any queued station, which
    covers whatever order the priority queue produces once the distances it
    compares have changed under it. */
module ShortestPath {
  import opened Stations
  import opened Network

  /** Every station with a distance has a witness walk from `start` whose
      weight is that distance. */
  ghost predicate Witnessed(g: Graph, start: Station, d: map<Station, int>, walks: map<Station, seq<Station>>)
  {
    forall s | s in d ::
      s in walks && IsWalkFromTo(g, walks[s], start, s) && WalkWeight(g, walks[s]) == d[s]
  }

  /** Every connection of `s` leads to a station whose distance is at most
      the distance of `s` plus the connection's length. */
  ghost predicate Relaxed(g: Graph, d: map<Station, int>, s: Station)
  {
    s in g && s in d && forall n | n in g[s] :: n in d && d[n] <= d[s] + g[s][n]
  }

  /** Distances are non-negative and grow at most one connection per station
      discovered: with `SafeWeights`, they stay below `Integer.MAX_VALUE`. */
  ghost predicate Bounded(g: Graph, d: map<Station, int>)
  {
    forall s | s in d :: 0 <= d[s] && |g| * d[s] <= (|d| - 1) * IntMax
  }

  /** What holds of the search state at the top of its main loop. */
  ghost predicate SearchState(g: Graph, start: Station, end: Station, d: map<Station, int>,
                              q: multiset<Station>, walks: map<Station, seq<Station>>)
  {
    && d.Keys <= g.Keys
    && start in d && d[start] == 0
    && (forall s | s in q :: s in d)
    && Witnessed(g, start, d, walks)
    && Bounded(g, d)
    && (end in d ==> end in q)
  }

  lemma {:induction false} SubsetCard<T>(a: set<T>, b: set<T>)
    requires a <= b
    ensures |a| <= |b|
    decreases a
  {
    if a != {} {
      var x :| x in a;
      SubsetCard(a - {x}, b - {x});
    }
  }

  /** The arithmetic behind `BoundStep`, for `n` stations of which `k`
      have a distance. */
  lemma SumStaysBelow(n: int, k: int, dc: int, w: int)
    requires 1 <= k <= n && 0 <= dc && 0 <= w
    requires n * dc <= (k - 1) * IntMax && n * w < IntMax
    ensures n * (dc + w) < k * IntMax
    ensures dc + w < IntMax
  {
    assert n * (dc + w) == n * dc + n * w;
    assert k * IntMax <= n * IntMax;
  }

  lemma MulMonotone(n: int, a: int, b: int)
    requires 0 <= n && a <= b
    ensures n * a <= n * b
  {
    assert n * b - n * a == n * (b - a);
  }

  /** The sum `distances.get(current) + w` computed by the search is below
      `Integer.MAX_VALUE`, and recording it where it improves keeps the
      distances bounded. */
  lemma BoundStep(g: Graph, d: map<Station, int>, current: Station, next: Station, nd: int)
    requires SafeWeights(g) && Bounded(g, d) && d.Keys <= g.Keys
    requires current in d && current in g && next in g[current]
    requires nd == d[current] + g[current][next]
    ensures nd < IntMax
    ensures nd < DistOrMax(d, next) ==> Bounded(g, d[next := nd])
  {
    var n, k := |g|, |d|;
    var w, dc := g[current][next], d[current];
    SubsetCard(d.Keys, g.Keys);
    SumStaysBelow(n, k, dc, w);
    if nd < DistOrMax(d, next) {
      var d' := d[next := nd];
      if next in d {
        assert |d'| == k;
        MulMonotone(n, nd, d[next]);
      } else {
        assert |d'| == k + 1;
      }
      forall s | s in d' ensures 0 <= d'[s] && n * d'[s] <= (|d'| - 1) * IntMax {
        if s != next {
          assert n * d[s] <= (k - 1) * IntMax;
        }
      }
    }
  }

  /** Reaching `next` over a connection from `current` extends the witness
      walk of `current` by one station. */
  lemma WitnessStep(g: Graph, start: Station, d: map<Station, int>, walks: map<Station, seq<Station>>,
                    current: Station, next: Station, nd: int)
    requires Witnessed(g, start, d, walks)
    requires current in d && current in g && next in g[current]
    requires nd == d[current] + g[current][next]
    ensures Witnessed(g, start, d[next := nd], walks[next := walks[current] + [next]])
  {
    ExtendWalk(g, walks[current], next);
  }

  /** Lowering the distance of `next` to `nd` lowers the potential of the
      search. */
  lemma RecordLowersPotential(g: Graph, d: map<Station, int>, next: Station, nd: int)
    requires next in g && nd < DistOrMax(d, next)
    ensures Potential(d[next := nd], g.Keys) < Potential(d, g.Keys)
  {
    PotentialDrops(d, d[next := nd], g.Keys, next);
  }

  /** The state of the relaxation loop of `current`, started from `d0` and
      `q0`, with the connections to the stations of `todo` still to visit. */
  ghost predicate Relaxing(g: Graph, start: Station, current: Station, d0: map<Station, int>, q0: multiset<Station>,
                           d: map<Station, int>, q: multiset<Station>, walks: map<Station, seq<Station>>,
                           todo: set<Station>)
  {
    && RelaxFrame(g, current, d0, d, todo)
    && Witnessed(g, start, d, walks) && Bounded(g, d)
    && RelaxQueue(d0, q0, d, q)
    && RelaxDone(g, current, d, todo)
    && RelaxProgress(g, d0, q0, d, q)
  }

  function Min(a: int, b: int): int
  {
    if a <= b then a else b
  }

  /** Distances only fall, only inside the network, and that of `current`
      stays as it was; a station gains or changes its distance only as a
      visited connection of `current`, which ends up with the smaller of its
      old distance and the one through `current`. */
  ghost predicate RelaxFrame(g: Graph, current: Station, d0: map<Station, int>, d: map<Station, int>, todo: set<Station>)
  {
    && current in g && todo <= g[current].Keys
    && d0.Keys <= d.Keys <= g.Keys
    && (forall s | s in d0 :: d[s] <= d0[s])
    && current in d0 && current in d && d[current] == d0[current]
    && (forall s | s in d :: s in d0 || (s in g[current] && s !in todo))
    && (forall s | s in d0 && (s !in g[current] || s in todo) :: d[s] == d0[s])
    && (forall n | n in g[current] && n !in todo ::
          n in d && d[n] == Min(DistOrMax(d0, n), d0[current] + g[current][n]))
  }

  /** The queue only grows, holds stations with a distance, and holds every
      station whose distance changed. */
  ghost predicate RelaxQueue(d0: map<Station, int>, q0: multiset<Station>, d: map<Station, int>, q: multiset<Station>)
  {
    && q0 <= q && (forall s | s in q :: s in d)
    && (forall s | s in d :: s in q || (s in d0 && d[s] == d0[s]))
  }

  /** The connections of `current` already visited are relaxed. */
  ghost predicate RelaxDone(g: Graph, current: Station, d: map<Station, int>, todo: set<Station>)
  {
    current in g && current in d &&
    forall n | n in g[current] && n !in todo :: n in d && d[n] <= d[current] + g[current][n]
  }

  /** Either nothing changed or the potential fell. */
  ghost predicate RelaxProgress(g: Graph, d0: map<Station, int>, q0: multiset<Station>, d: map<Station, int>, q: multiset<Station>)
  {
    (d == d0 && q == q0) || Potential(d, g.Keys) < Potential(d0, g.Keys)
  }

  /** A connection that gives a shorter distance: recording it and queuing
      its station keeps the loop's state. */
  lemma RelaxImproves(g: Graph, start: Station, current: Station, d0: map<Station, int>, q0: multiset<Station>,
                      d: map<Station, int>, q: multiset<Station>, walks: map<Station, seq<Station>>,
                      todo: set<Station>, next: Station, nd: int)
    requires SafeWeights(g) && Closed(g)
    requires Relaxing(g, start, current, d0, q0, d, q, walks, todo) && next in todo
    requires nd == d[current] + g[current][next] && nd < DistOrMax(d, next)
    ensures Relaxing(g, start, current, d0, q0, d[next := nd], q + multiset{next},
                     walks[next := walks[current] + [next]], todo - {next})
  {
    BoundStep(g, d, current, next, nd);
    WitnessStep(g, start, d, walks, current, next, nd);
    ImprovesFrame(g, current, d0, d, todo, next, nd);
    ImprovesQueue(d0, q0, d, q, next, nd);
    ImprovesDone(g, current, d, todo, next, nd);
    ImprovesProgress(g, d0, q0, d, q, next, nd);
  }

  lemma ImprovesFrame(g: Graph, current: Station, d0: map<Station, int>, d: map<Station, int>, todo: set<Station>,
                      next: Station, nd: int)
    requires Closed(g) && RelaxFrame(g, current, d0, d, todo) && next in todo
    requires nd == d[current] + g[current][next] && nd < DistOrMax(d, next) && 0 <= g[current][next]
    ensures RelaxFrame(g, current, d0, d[next := nd], todo - {next})
  {
    assert next != current;
    assert DistOrMax(d, next) == DistOrMax(d0, next);
  }

  lemma SkipsFrame(g: Graph, current: Station, d0: map<Station, int>, d: map<Station, int>, todo: set<Station>,
                   next: Station, nd: int)
    requires RelaxFrame(g, current, d0, d, todo) && next in todo
    requires nd == d[current] + g[current][next] && DistOrMax(d, next) <= nd < IntMax
    ensures RelaxFrame(g, current, d0, d, todo - {next})
  {
    assert next in d0 && d[next] == d0[next];
  }

  lemma ImprovesQueue(d0: map<Station, int>, q0: multiset<Station>, d: map<Station, int>, q: multiset<Station>,
                      next: Station, nd: int)
    requires RelaxQueue(d0, q0, d, q)
    ensures RelaxQueue(d0, q0, d[next := nd], q + multiset{next})
  {
  }

  lemma ImprovesDone(g: Graph, current: Station, d: map<Station, int>, todo: set<Station>, next: Station, nd: int)
    requires RelaxDone(g, current, d, todo) && next in g[current]
    requires nd == d[current] + g[current][next] && nd < DistOrMax(d, next) && 0 <= g[current][next]
    ensures RelaxDone(g, current, d[next := nd], todo - {next})
  {
    assert next != current;
  }

  lemma ImprovesProgress(g: Graph, d0: map<Station, int>, q0: multiset<Station>, d: map<Station, int>,
                         q: multiset<Station>, next: Station, nd: int)
    requires RelaxProgress(g, d0, q0, d, q) && next in g && nd < DistOrMax(d, next)
    ensures RelaxProgress(g, d0, q0, d[next := nd], q + multiset{next})
  {
    RecordLowersPotential(g, d, next, nd);
  }

  /** A connection that gives no shorter distance changes nothing. */
  lemma RelaxSkips(g: Graph, start: Station, current: Station, d0: map<Station, int>, q0: multiset<Station>,
                   d: map<Station, int>, q: multiset<Station>, walks: map<Station, seq<Station>>,
                   todo: set<Station>, next: Station, nd: int)
    requires SafeWeights(g)
    requires Relaxing(g, start, current, d0, q0, d, q, walks, todo) && next in todo
    requires nd == d[current] + g[current][next] && !(nd < DistOrMax(d, next))
    ensures Relaxing(g, start, current, d0, q0, d, q, walks, todo - {next})
  {
    BoundStep(g, d, current, next, nd);
    SkipsFrame(g, current, d0, d, todo, next, nd);
  }

  /** What the relaxation of `current` needs: a network whose connections
      stay inside it, with safe lengths, and a search state in which
      `current` has a distance. */
  ghost predicate RelaxReady(g: Graph, start: Station, current: Station, d0: map<Station, int>, q0: multiset<Station>,
                             walks0: map<Station, seq<Station>>)
  {
    && Closed(g) && SafeWeights(g)
    && current in g && d0.Keys <= g.Keys && current in d0
    && Witnessed(g, start, d0, walks0) && Bounded(g, d0)
    && (forall s | s in q0 :: s in d0)
  }

  /** The loop's state at its start, before any connection is visited. */
  lemma RelaxStarts(g: Graph, start: Station, current: Station, d0: map<Station, int>, q0: multiset<Station>,
                    walks0: map<Station, seq<Station>>)
    requires RelaxReady(g, start, current, d0, q0, walks0)
    ensures Relaxing(g, start, current, d0, q0, d0, q0, walks0, g[current].Keys)
  {
  }

  /** Once every connection is visited, `current` is relaxed. */
  lemma RelaxEnds(g: Graph, current: Station, d: map<Station, int>)
    requires RelaxDone(g, current, d, {})
    ensures Relaxed(g, d, current)
  {
  }

  /** The `for` loop over `current.connections` of the search: every
      connection that gives a shorter distance records it and queues the
      station it leads to. Whatever the order of the connections, each
      station `current` connects to ends with the smaller of its old distance
      and the one through `current`, and every other station keeps its own. */
  method RelaxNeighbours(ghost g: Graph, ghost start: Station, current: Station, d0: map<Station, int>,
                         q0: multiset<Station>, ghost walks0: map<Station, seq<Station>>)
    returns (d: map<Station, int>, q: multiset<Station>, ghost walks: map<Station, seq<Station>>)
    requires RelaxReady(g, start, current, d0, q0, walks0) && current.connections == g[current]
    ensures Relaxing(g, start, current, d0, q0, d, q, walks, {})
    ensures Relaxed(g, d, current)
    ensures forall s | s in d :: s in d0 || s in g[current]
    ensures forall s | s in d0 && s !in g[current] :: d[s] == d0[s]
    ensures forall n | n in g[current] :: n in d && d[n] == Min(DistOrMax(d0, n), d0[current] + g[current][n])
  {
    d, q, walks := d0, q0, walks0;
    var todo := current.connections.Keys;
    RelaxStarts(g, start, current, d0, q0, walks0);
    while todo != {}
      invariant Relaxing(g, start, current, d0, q0, d, q, walks, todo)
      decreases todo
    {
      var next :| next in todo;
      var newDist := d[current] + current.connections[next];
      if newDist < DistOrMax(d, next) {
        RelaxImproves(g, start, current, d0, q0, d, q, walks, todo, next, newDist);
        d := d[next := newDist];
        q := q + multiset{next};
        walks := walks[next := walks[current] + [next]];
      } else {
        RelaxSkips(g, start, current, d0, q0, d, q, walks, todo, next, newDist);
      }
      todo := todo - {next};
    }
    RelaxEnds(g, current, d);
  }

  /** After `current` is relaxed, every station with a distance is queued or
      relaxed, as it was before `current` was taken from the queue. */
  lemma RelaxedKept(g: Graph, d0: map<Station, int>, q0: multiset<Station>, current: Station,
                    d: map<Station, int>, q: multiset<Station>)
    requires forall s | s in d0 && s != current :: s in q0 || Relaxed(g, d0, s)
    requires d0.Keys <= d.Keys && forall s | s in d0 :: d[s] <= d0[s]
    requires q0 <= q
    requires forall s | s in d :: s in q || (s in d0 && d[s] == d0[s])
    requires Relaxed(g, d, current)
    ensures forall s | s in d :: s in q || Relaxed(g, d, s)
  {
    forall s | s in d && s !in q && s != current
      ensures Relaxed(g, d, s)
    {
      assert s in d0 && d[s] == d0[s];
      assert Relaxed(g, d0, s);
    }
  }

  /** When the queue runs dry, the stations with a distance are closed under
      connections: every station reachable from `start` has one. */
  lemma {:induction false} ExhaustedCoversReachable(g: Graph, start: Station, d: map<Station, int>, s: Station)
    requires d.Keys <= g.Keys && start in d
    requires forall u | u in d :: Relaxed(g, d, u)
    requires Reachable(g, start, s)
    ensures s in d
  {
    var p :| IsWalkFromTo(g, p, start, s);
    ClosedSetHoldsWalk(g, d.Keys, p);
  }

  /** The distance map the search answers with when it takes `end` from the
      queue: `end` is in it, and each distance is a walk's length. */
  lemma SearchResult(g: Graph, start: Station, end: Station, d: map<Station, int>,
                     q: multiset<Station>, walks: map<Station, seq<Station>>)
    requires SearchState(g, start, end, d, q, walks) && end in q
    ensures end in d && start in d && d[start] == 0 && d.Keys <= g.Keys
    ensures Reachable(g, start, end)
    ensures forall s | s in d ::
      (0 <= d[s] < IntMax && exists p :: IsWalkFromTo(g, p, start, s) && WalkWeight(g, p) == d[s])
  {
    assert IsWalkFromTo(g, walks[end], start, end);
    SubsetCard(d.Keys, g.Keys);
    forall s | s in d
      ensures 0 <= d[s] < IntMax && exists p :: IsWalkFromTo(g, p, start, s) && WalkWeight(g, p) == d[s]
    {
      assert IsWalkFromTo(g, walks[s], start, s);
      BelowMax(|g|, |d|, d[s]);
    }
  }

  /** The invariant of the search's main loop: the search state, every
      station with a distance queued or relaxed, and, when `start` is `end`,
      the state before the first step. */
  ghost predicate SearchLoop(g: Graph, start: Station, end: Station, d: map<Station, int>,
                             q: multiset<Station>, walks: map<Station, seq<Station>>)
  {
    && SearchState(g, start, end, d, q, walks)
    && (forall s | s in d :: s in q || Relaxed(g, d, s))
    && (start == end ==> d == map[start := 0] && q == multiset{start})
  }

  /** The search's state before its first step. */
  lemma SearchStarts(g: Graph, start: Station, end: Station)
    requires start in g
    ensures SearchLoop(g, start, end, map[start := 0], multiset{start}, map[start := [start]])
  {
    assert IsWalkFromTo(g, [start], start, start);
  }

  /** Taking `current` from the queue leaves a state ready for its
      relaxation. */
  lemma SearchPolls(g: Graph, start: Station, end: Station, d: map<Station, int>, full: multiset<Station>,
                    q0: multiset<Station>, walks: map<Station, seq<Station>>, current: Station)
    requires Closed(g) && SafeWeights(g) && SearchLoop(g, start, end, d, full, walks)
    requires current in full && q0 == full - multiset{current}
    ensures RelaxReady(g, start, current, d, q0, walks)
  {
  }

  /** After the step that takes `current` (not `end`) from the queue
      `full`, leaving `q0`, and relaxes it, the loop invariant holds again. */
  lemma SearchContinues(g: Graph, start: Station, end: Station, current: Station,
                        d0: map<Station, int>, full: multiset<Station>, q0: multiset<Station>,
                        walks0: map<Station, seq<Station>>,
                        d: map<Station, int>, q: multiset<Station>, walks: map<Station, seq<Station>>)
    requires SearchLoop(g, start, end, d0, full, walks0)
    requires current in full && q0 == full - multiset{current} && current != end
    requires Relaxing(g, start, current, d0, q0, d, q, walks, {}) && Relaxed(g, d, current)
    ensures SearchLoop(g, start, end, d, q, walks)
    ensures 0 <= Potential(d, g.Keys)
    ensures Potential(d, g.Keys) < Potential(d0, g.Keys) ||
            (Potential(d, g.Keys) == Potential(d0, g.Keys) && |q| < |full|)
  {
    forall s | s in d0 && s != current ensures s in q0 || Relaxed(g, d0, s) {
      assert s in full || Relaxed(g, d0, s);
    }
    RelaxedKept(g, d0, q0, current, d, q);
    assert d[start] == 0;
  }

  /** A distance `x` with `n * x <= (k - 1) * IntMax`, `1 <= k <= n`, is
      below `IntMax`. */
  lemma BelowMax(n: int, k: int, x: int)
    requires 1 <= k <= n && n * x <= (k - 1) * IntMax
    ensures x < IntMax
  {
    if x >= IntMax {
      MulMonotone(n, IntMax, x);
    }
  }
}

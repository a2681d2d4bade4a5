/** The station network seen as a value: each station mapped to its
    `connections` map. Walks, their weights and reachability are defined here,
    as are the facts the path search relies on. */
module Network {
  import opened Stations

  /** Java's `Integer.MAX_VALUE`, the distance the path search assumes for a
      station it has not reached yet. */
  const IntMax: int := 0x7fff_ffff

  type Graph = map<Station, map<Station, int>>

  /** The current network over the stations in `v`. */
  function GraphOf(v: set<Station>): (g: Graph)
    reads v
    ensures g.Keys == v
    ensures forall s :: s in v ==> g[s] == s.connections
  {
    map s | s in v :: s.connections
  }

  /** Every connection of every station leads to a station of the graph. */
  ghost predicate Closed(g: Graph)
  {
    forall u :: u in g ==> g[u].Keys <= g.Keys
  }

  /** Each connection is recorded in both directions with the same distance. */
  ghost predicate Symmetric(g: Graph)
  {
    forall u, v :: u in g && v in g[u] ==> v in g && u in g[v] && g[v][u] == g[u][v]
  }

  /** The graph after `addConnection(from, to, distance)`: both directions are
      set to `distance`, overwriting an earlier value. */
  function AddEdge(g: Graph, from: Station, to: Station, distance: int): (r: Graph)
    requires from in g && to in g
    ensures r.Keys == g.Keys
    ensures to in r[from] && r[from][to] == distance
    ensures from in r[to] && r[to][from] == distance
    ensures forall u :: u in g && u != from && u != to ==> r[u] == g[u]
    ensures r[from].Keys == g[from].Keys + {to} && r[to].Keys == g[to].Keys + {from}
    ensures forall v :: v in g[from] && v != to ==> r[from][v] == g[from][v]
    ensures forall v :: v in g[to] && v != from ==> r[to][v] == g[to][v]
  {
    map u | u in g ::
      if u == from then g[u][to := distance]
      else if u == to then g[u][from := distance]
      else g[u]
  }

  /** Adding a connection keeps the network symmetric. */
  lemma AddEdgeKeepsSymmetric(g: Graph, from: Station, to: Station, distance: int)
    requires from in g && to in g
    requires Symmetric(g)
    ensures Symmetric(AddEdge(g, from, to, distance))
  {
    var r := AddEdge(g, from, to, distance);
    forall u, v | u in r && v in r[u]
      ensures v in r && u in r[v] && r[v][u] == r[u][v]
    {
      if (u == from && v == to) || (u == to && v == from) {
      } else {
        assert v in g[u];
        assert u in g[v];
      }
    }
  }

  /** Adding a connection keeps every connection inside the network. */
  lemma AddEdgeKeepsClosed(g: Graph, from: Station, to: Station, distance: int)
    requires from in g && to in g
    requires Closed(g)
    ensures Closed(AddEdge(g, from, to, distance))
  {
  }

  /** Repeating `addConnection` for the same pair keeps only the latest distance. */
  lemma AddEdgeOverwrites(g: Graph, from: Station, to: Station, d1: int, d2: int)
    requires from in g && to in g
    ensures AddEdge(AddEdge(g, from, to, d1), from, to, d2) == AddEdge(g, from, to, d2)
  {
    var h := AddEdge(g, from, to, d1);
    var a := AddEdge(h, from, to, d2);
    var b := AddEdge(g, from, to, d2);
    forall u | u in g ensures a[u] == b[u] {
      if u == from {
        var m: map<Station, int> := g[u][to := d1];
        assert a[u] == m[to := d2];
      } else if u == to {
        var m: map<Station, int> := g[u][from := d1];
        assert a[u] == m[from := d2];
      }
    }
    assert a.Keys == b.Keys;
  }

  /** Distances are non-negative and small enough that a sum along at most
      `|g|` connections stays below `Integer.MAX_VALUE`: the search never
      overflows a Java `int`. */
  ghost predicate SafeWeights(g: Graph)
  {
    forall u, v | u in g && v in g[u] :: 0 <= g[u][v] && |g| * g[u][v] < IntMax
  }

  // ----- walks and reachability -----

  /** A non-empty sequence of stations, each connected to the next. */
  ghost predicate IsWalk(g: Graph, p: seq<Station>)
    decreases |p|
  {
    && |p| > 0
    && (forall i | 0 <= i < |p| - 1 :: p[i] in g)
    && (|p| > 1 ==>
          && IsWalk(g, p[..|p| - 1])
          && p[|p| - 2] in g && p[|p| - 1] in g[p[|p| - 2]])
  }

  ghost predicate IsWalkFromTo(g: Graph, older p: seq<Station>, a: Station, b: Station)
  {
    IsWalk(g, p) && p[0] == a && p[|p| - 1] == b
  }

  /** The sum of the distances along a walk. */
  ghost function WalkWeight(g: Graph, p: seq<Station>): int
    requires IsWalk(g, p)
    decreases |p|
  {
    if |p| == 1 then 0
    else WalkWeight(g, p[..|p| - 1]) + g[p[|p| - 2]][p[|p| - 1]]
  }

  ghost predicate Reachable(g: Graph, a: Station, b: Station)
  {
    exists p :: IsWalkFromTo(g, p, a, b)
  }

  /** Extending a walk by one connection adds that connection's distance. */
  lemma ExtendWalk(g: Graph, p: seq<Station>, v: Station)
    requires IsWalk(g, p)
    requires p[|p| - 1] in g && v in g[p[|p| - 1]]
    ensures IsWalk(g, p + [v])
    ensures WalkWeight(g, p + [v]) == WalkWeight(g, p) + g[p[|p| - 1]][v]
  {
    assert (p + [v])[..|p|] == p;
  }

  /** A set of stations that contains a walk's first station and every
      neighbour of each of its members contains the walk's last station. */
  lemma {:induction false} ClosedSetHoldsWalk(g: Graph, r: set<Station>, p: seq<Station>)
    requires IsWalk(g, p) && p[0] in r
    requires forall u :: u in r ==> u in g && g[u].Keys <= r
    ensures p[|p| - 1] in r
  {
    if |p| > 1 {
      var q := p[..|p| - 1];
      assert IsWalk(g, q);
      ClosedSetHoldsWalk(g, r, q);
      assert p[|p| - 2] == q[|q| - 1];
    }
  }

  // ----- the termination measure of the path search -----

  /** The distance the search uses for `s`: the recorded one, or `IntMax`. */
  function DistOrMax(d: map<Station, int>, s: Station): int
  {
    if s in d then d[s] else IntMax
  }

  ghost function Pick(v: set<Station>): (s: Station)
    requires v != {}
    ensures s in v
  {
    var s :| s in v; s
  }

  /** The sum of `DistOrMax` over a set of stations. */
  ghost function Potential(d: map<Station, int>, v: set<Station>): (p: int)
    ensures (forall s :: s in d ==> 0 <= d[s]) ==> 0 <= p
    decreases v
  {
    if v == {} then 0
    else var s := Pick(v); DistOrMax(d, s) + Potential(d, v - {s})
  }

  /** Lowering the distance of stations never raises the potential, and
      lowering the distance of one member strictly lowers it. */
  lemma {:induction false} PotentialDrops(d: map<Station, int>, d': map<Station, int>, v: set<Station>, x: Station)
    requires forall s :: s in v ==> DistOrMax(d', s) <= DistOrMax(d, s)
    ensures Potential(d', v) <= Potential(d, v)
    ensures x in v && DistOrMax(d', x) < DistOrMax(d, x) ==> Potential(d', v) < Potential(d, v)
    decreases v
  {
    if v != {} {
      var s := Pick(v);
      PotentialDrops(d, d', v - {s}, x);
    }
  }
}

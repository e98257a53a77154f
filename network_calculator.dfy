/**
  The shortest-path search between two compressor stations. The graph's
  connections are turned into an arc list per start vertex (a connection
  whose pipe is unknown gets no arc, but its two ends still get a distance
  entry), the pipe lengths are the weights, a pipe under repair weighs
  infinitely much, and Dijkstra's algorithm runs from the source station.
 */
module NetworkCalculator {
  import opened Wrappers
  import opened Pipes
  import opened GraphPaths
  import opened Graphs
  import opened PipelineNetworks
  import opened Dijkstra
  import opened Ordered

  /** The weight of a pipe in the search: its length, or the infinite
      sentinel (`None`) while the pipe is under repair. */
  function CalculateEdgeWeight(length: real, underRepair: bool): (w: Option<real>)
    ensures w.None? <==> underRepair
    ensures w.Some? ==> w.value == length
  {
    if underRepair then None else Some(length)
  }

  function PipeWeight(p: Pipe): Option<real> {
    CalculateEdgeWeight(p.length, p.underRepair)
  }

  // ----- The search input -----

  /** The arcs out of `u`, in connection order: one per connection from `u`
      whose pipe is known. */
  function ArcsFrom(cs: seq<Connection>, pipes: map<int, Pipe>, u: int): seq<Arc> {
    if cs == [] then []
    else
      var c := cs[|cs| - 1];
      ArcsFrom(cs[..|cs| - 1], pipes, u) +
      (if c.from == u && c.pipeId in pipes then [Arc(c.to, PipeWeight(pipes[c.pipeId]))] else [])
  }

  /** Both ends of every connection. */
  function Endpoints(cs: seq<Connection>): set<int> {
    if cs == [] then {} else Endpoints(cs[..|cs| - 1]) + {cs[|cs| - 1].from, cs[|cs| - 1].to}
  }

  lemma {:induction false} ArcsFromMembership(cs: seq<Connection>, pipes: map<int, Pipe>, u: int, a: Arc)
    ensures a in ArcsFrom(cs, pipes, u) <==>
      exists i :: 0 <= i < |cs| && cs[i].from == u && cs[i].pipeId in pipes &&
                  a == Arc(cs[i].to, PipeWeight(pipes[cs[i].pipeId]))
    decreases |cs|
  {
    if cs != [] {
      var front := cs[..|cs| - 1];
      ArcsFromMembership(front, pipes, u, a);
      assert forall i :: 0 <= i < |front| ==> front[i] == cs[i];
    }
  }

  lemma {:induction false} EndpointsMembership(cs: seq<Connection>, v: int)
    ensures v in Endpoints(cs) <==> exists i :: 0 <= i < |cs| && (cs[i].from == v || cs[i].to == v)
    decreases |cs|
  {
    if cs != [] {
      var front := cs[..|cs| - 1];
      EndpointsMembership(front, v);
      assert forall i :: 0 <= i < |front| ==> front[i] == cs[i];
    }
  }

  /** The initialisation loop of the search: the arc lists, every endpoint
      of a connection at infinite distance with no predecessor, and then the
      source at distance 0 (whether or not it is an endpoint). */
  method BuildSearch(connections: seq<Connection>, network: PipelineNetwork, source: int)
    returns (adj: ArcMap, dist: map<int, Dist>, prev: map<int, int>)
    ensures forall u :: Arcs(adj, u) == ArcsFrom(connections, network.pipes, u)
    ensures adj.Keys <= Endpoints(connections)
    ensures dist.Keys == Endpoints(connections) + {source}
    ensures forall v :: v in dist ==> dist[v] == if v == source then Fin(0.0) else Inf
    ensures prev.Keys == Endpoints(connections) && forall v :: v in prev ==> prev[v] == -1
  {
    adj, dist, prev := map[], map[], map[];
    for i := 0 to |connections|
      invariant forall u :: Arcs(adj, u) == ArcsFrom(connections[..i], network.pipes, u)
      invariant adj.Keys <= Endpoints(connections[..i])
      invariant dist.Keys == prev.Keys == Endpoints(connections[..i])
      invariant forall v :: v in dist ==> dist[v] == Inf
      invariant forall v :: v in prev ==> prev[v] == -1
    {
      var c := connections[i];
      ArcsStep(connections, network.pipes, i, adj);
      EndpointsStep(connections, i);
      var pipe := network.GetPipeById(c.pipeId);
      if pipe.Some? {
        var weight := CalculateEdgeWeight(pipe.value.length, pipe.value.underRepair);
        adj := adj[c.from := Arcs(adj, c.from) + [Arc(c.to, weight)]];
      }
      dist := dist[c.from := Inf][c.to := Inf];
      prev := prev[c.from := -1][c.to := -1];
    }
    assert connections[..|connections|] == connections;
    dist := dist[source := Fin(0.0)];
  }

  /** One more connection adds at most one arc, at the end of its start's list. */
  lemma ArcsStep(cs: seq<Connection>, pipes: map<int, Pipe>, i: nat, adj: ArcMap)
    requires i < |cs|
    requires forall u :: Arcs(adj, u) == ArcsFrom(cs[..i], pipes, u)
    ensures var c := cs[i];
      var adj' := if c.pipeId in pipes then adj[c.from := Arcs(adj, c.from) + [Arc(c.to, PipeWeight(pipes[c.pipeId]))]]
                  else adj;
      forall u :: Arcs(adj', u) == ArcsFrom(cs[..i + 1], pipes, u)
  {
    assert cs[..i + 1][..i] == cs[..i];
  }

  lemma EndpointsStep(cs: seq<Connection>, i: nat)
    requires i < |cs|
    ensures Endpoints(cs[..i + 1]) == Endpoints(cs[..i]) + {cs[i].from, cs[i].to}
  {
    assert cs[..i + 1][..i] == cs[..i];
  }

  // ----- Routes through the pipe network -----

  /** A step from `u` to `v` over an existing connection whose pipe is in
      the store and not under repair, at the pipe's length `w`. */
  ghost predicate Usable(adj: Adjacency, pipes: map<int, Pipe>, u: int, v: int, w: real) {
    HasEdge(adj, u, v) && adj[u][v].pipeId in pipes && PipeWeight(pipes[adj[u][v].pipeId]) == Some(w)
  }

  /** A sequence of stations joined by usable steps, the i-th of length `ws[i]`. */
  ghost predicate Route(adj: Adjacency, pipes: map<int, Pipe>, p: seq<int>, ws: seq<real>) {
    |p| == |ws| + 1 && forall i :: 0 <= i < |ws| ==> Usable(adj, pipes, p[i], p[i + 1], ws[i])
  }

  ghost predicate RouteBetween(adj: Adjacency, pipes: map<int, Pipe>, p: seq<int>, ws: seq<real>,
                               s: int, t: int) {
    Route(adj, pipes, p, ws) && p[0] == s && p[|p| - 1] == t
  }

  /** The arcs built from the connection list are exactly the usable steps. */
  lemma ArcIsUsable(g: Adjacency, pipes: map<int, Pipe>, cs: seq<Connection>, adj: ArcMap,
                    u: int, v: int, w: real)
    requires forall c :: c in cs <==> Describes(g, c)
    requires forall x :: Arcs(adj, x) == ArcsFrom(cs, pipes, x)
    ensures Arc(v, Some(w)) in Arcs(adj, u) <==> Usable(g, pipes, u, v, w)
  {
    ArcsFromMembership(cs, pipes, u, Arc(v, Some(w)));
    if Usable(g, pipes, u, v, w) {
      var c := Connection(u, v, g[u][v].pipeId);
      assert c in cs;
      var i :| 0 <= i < |cs| && cs[i] == c;
      assert Arc(v, Some(w)) in ArcsFrom(cs, pipes, u);
    }
    if Arc(v, Some(w)) in Arcs(adj, u) {
      var i :| 0 <= i < |cs| && cs[i].from == u && cs[i].pipeId in pipes &&
               Arc(v, Some(w)) == Arc(cs[i].to, PipeWeight(pipes[cs[i].pipeId]));
      assert cs[i] in cs;
    }
  }

  /** Walks of the search are exactly the routes through the network. */
  lemma WalksAreRoutes(g: Adjacency, pipes: map<int, Pipe>, cs: seq<Connection>, adj: ArcMap)
    requires forall c :: c in cs <==> Describes(g, c)
    requires forall x :: Arcs(adj, x) == ArcsFrom(cs, pipes, x)
    ensures forall p, ws :: Dijkstra.IsWalk(adj, p, ws) <==> Route(g, pipes, p, ws)
  {
    forall u, v, w
      ensures Arc(v, Some(w)) in Arcs(adj, u) <==> Usable(g, pipes, u, v, w)
    {
      ArcIsUsable(g, pipes, cs, adj, u, v, w);
    }
  }

  /** The endpoints of the connection list are the stations on some edge. */
  lemma EndpointsTouch(g: Adjacency, vertexIds: set<int>, cs: seq<Connection>, v: int)
    requires WellFormed(g, vertexIds)
    requires forall c :: c in cs <==> Describes(g, c)
    ensures v in Endpoints(cs) ==> v in vertexIds
    ensures v in Endpoints(cs) <==> (v in g && g[v] != map[]) || exists u :: HasEdge(g, u, v)
  {
    EndpointsMembership(cs, v);
    if v in g && g[v] != map[] {
      var w := Element(g[v].Keys);
      assert Connection(v, w, g[v][w].pipeId) in cs;
    }
    if exists u :: HasEdge(g, u, v) {
      var u :| HasEdge(g, u, v);
      assert Connection(u, v, g[u][v].pipeId) in cs;
    }
    if v in Endpoints(cs) {
      var i :| 0 <= i < |cs| && (cs[i].from == v || cs[i].to == v);
      assert cs[i] in cs;
    }
  }

  /** The store holds no pipe of negative length; pipe input accepts only
      positive lengths. */
  ghost predicate NonNegativeLengths(pipes: map<int, Pipe>) {
    forall id :: id in pipes ==> pipes[id].length >= 0.0
  }

  /** Shortest route between two stations, with its length. Both stations
      must be in the store and the graph must have a connection; otherwise
      the result is empty with length 0. Otherwise a non-empty result is a
      route from the source to the target over usable pipes whose length is
      the reported distance, and no route is shorter; an empty result means
      no route exists. */
  method FindShortestPath(graph: Graph, network: PipelineNetwork, source: int, target: int)
    returns (path: seq<int>, totalDistance: real, ghost ws: seq<real>)
    requires graph.Valid() && NonNegativeLengths(network.pipes)
    requires -1 !in graph.vertexIds && -1 !in network.stations
    ensures source !in network.stations || target !in network.stations ==> path == [] && totalDistance == 0.0
    ensures EdgeSet(graph.adjacency) == {} ==> path == [] && totalDistance == 0.0
    ensures path != [] ==>
      RouteBetween(graph.adjacency, network.pipes, path, ws, source, target) && totalDistance == Sum(ws)
    ensures path != [] ==> forall p, ws' :: RouteBetween(graph.adjacency, network.pipes, p, ws', source, target)
                                            ==> totalDistance <= Sum(ws')
    ensures path == [] ==> totalDistance == 0.0
    ensures path == [] && source in network.stations && target in network.stations &&
            EdgeSet(graph.adjacency) != {} ==>
      forall p, ws' :: !RouteBetween(graph.adjacency, network.pipes, p, ws', source, target)
  {
    path, totalDistance, ws := [], 0.0, [];
    if !network.StationExists(source) || !network.StationExists(target) {
      return;
    }
    var connections := graph.GetConnectionsWithPipe();
    if connections == [] {
      return;
    }
    var adj, dist, prev := BuildSearch(connections, network, source);
    ghost var vertices := dist.Keys;
    forall v | v in Endpoints(connections)
      ensures v in graph.vertexIds
    {
      EndpointsTouch(graph.adjacency, graph.vertexIds, connections, v);
    }
    SearchFrame(network.pipes, connections, adj, dist, prev, source);
    path, totalDistance, ws := ShortestWalk(adj, source, target, dist, prev, vertices);
    WalksAreRoutes(graph.adjacency, network.pipes, connections, adj);
    forall p, ws' | RouteBetween(graph.adjacency, network.pipes, p, ws', source, target)
      ensures WalkBetween(adj, p, ws', source, target)
    {
    }
  }

  /** The initial search state satisfies the frame Dijkstra's search needs. */
  lemma SearchFrame(pipes: map<int, Pipe>, cs: seq<Connection>, adj: ArcMap,
                    dist: map<int, Dist>, prev: map<int, int>, source: int)
    requires NonNegativeLengths(pipes)
    requires forall u :: Arcs(adj, u) == ArcsFrom(cs, pipes, u)
    requires adj.Keys <= Endpoints(cs) && dist.Keys == Endpoints(cs) + {source}
    requires forall v :: v in dist ==> dist[v] == if v == source then Fin(0.0) else Inf
    requires prev.Keys == Endpoints(cs) && forall v :: v in prev ==> prev[v] == -1
    requires -1 !in dist.Keys
    ensures Frame(adj, dist.Keys, source, dist, prev, {}, map[])
  {
    forall u, a | u in adj && a in adj[u]
      ensures a.to in dist && (a.weight.Some? ==> a.weight.value >= 0.0)
    {
      assert a in ArcsFrom(cs, pipes, u);
      ArcsFromMembership(cs, pipes, u, a);
      var i :| 0 <= i < |cs| && cs[i].from == u && cs[i].pipeId in pipes &&
               a == Arc(cs[i].to, PipeWeight(pipes[cs[i].pipeId]));
      EndpointsMembership(cs, a.to);
    }
  }

  // ----- The read-back as written -----

  /** The subscript operator of an ordered map from int to int: a missing
      key reads as 0 (and is inserted with that value). */
  function Subscript(m: map<int, int>, k: int): int {
    if k in m then m[k] else 0
  }

  /** The subscript operator of the distance map: a missing key reads as 0. */
  function DistanceAsWritten(dist: map<int, Dist>, k: int): Dist {
    if k in dist then dist[k] else Fin(0.0)
  }

  /** The read-back loop with subscripts that insert missing keys, run for at
      most `fuel` steps: the vertices met (target first) once the sentinel
      -1 is reached, or None when `fuel` steps do not reach it. */
  function WalkBackAsWritten(prev: map<int, int>, current: int, fuel: nat): Option<seq<int>>
    decreases fuel
  {
    if current == -1 then Some([])
    else if fuel == 0 then None
    else
      var next := Subscript(prev, current);
      match WalkBackAsWritten(prev[current := next], next, fuel - 1)
      case Some(rest) => Some([current] + rest)
      case None => None
  }

  /** Once the read-back stands on vertex 0 and 0 reads as its own
      predecessor, it stays there for ever. */
  lemma {:induction false} StuckAtZero(prev: map<int, int>, fuel: nat)
    requires Subscript(prev, 0) == 0
    ensures WalkBackAsWritten(prev, 0, fuel) == None
    decreases fuel
  {
    if fuel > 0 {
      StuckAtZero(prev[0 := 0], fuel - 1);
    }
  }

  /** A target with no predecessor entry reads as having predecessor 0, and
      when 0 has no entry either the read-back never reaches the sentinel,
      however many steps it is given. */
  lemma ReadBackNeverEnds(prev: map<int, int>, target: int, fuel: nat)
    requires target != -1 && target !in prev && 0 !in prev
    ensures WalkBackAsWritten(prev, target, fuel) == None
  {
    if fuel > 0 {
      StuckAtZero(prev[target := 0], fuel - 1);
    }
  }

  /** Stations 1, 2 and 3 with one connection 1 -> 2 over a pipe of length
      5: the search from 1 to 3 ends with distances {1: 0, 2: 5} and
      predecessors {1: -1, 2: 1}. Station 3 then reads as 0 away, so the
      read-back starts, and it never ends. */
  lemma UnconnectedTargetExample(fuel: nat)
    ensures DistanceAsWritten(map[1 := Fin(0.0), 2 := Fin(5.0)], 3) == Fin(0.0)
    ensures WalkBackAsWritten(map[1 := -1, 2 := 1], 3, fuel) == None
  {
    ReadBackNeverEnds(map[1 := -1, 2 := 1], 3, fuel);
  }

  /** With the corrected lookups the same target is simply unreachable: a
      station that touches no connection and is not the source ends no route. */
  lemma UnconnectedTargetUnreachable(g: Adjacency, pipes: map<int, Pipe>, source: int, target: int)
    requires target != source && forall u :: !HasEdge(g, u, target)
    ensures forall p, ws :: !RouteBetween(g, pipes, p, ws, source, target)
  {
    forall p, ws | Route(g, pipes, p, ws) && p[0] == source
      ensures p[|p| - 1] != target
    {
      if |p| > 1 {
        assert Usable(g, pipes, p[|p| - 2], p[|p| - 1], ws[|p| - 2]);
      }
    }
  }
}

/**
  The gas network: the entity store and the station graph side by side,
  and the operations that keep the two in step. A pipe that backs an edge
  is marked connected; disconnecting stations or deleting a station frees
  the pipes of the removed edges again. The network file keeps only the
  graph: one "from to pipeId" line per edge.
 */
module GasNetworks {
  import opened Wrappers
  import opened Pipes
  import opened GraphPaths
  import opened Graphs
  import opened PipelineNetworks
  import opened NetworkFiles

  // ----- The pipe/edge invariant -----

  /** The edge from -> to exists and is backed by pipe `id`. */
  ghost predicate Carries(adj: Adjacency, u: int, w: int, id: int) {
    HasEdge(adj, u, w) && adj[u][w].pipeId == id
  }

  /** Some edge is backed by pipe `id`. */
  ghost predicate InUse(adj: Adjacency, id: int) {
    exists u, w :: Carries(adj, u, w, id)
  }

  /** Every edge names a pipe (-1 means "no pipe"), no pipe backs two
      edges, and a stored pipe is marked connected exactly when an edge
      uses it: together, a stored pipe is connected if and only if exactly
      one edge references it. Pipes that edges reference but the store no
      longer holds are not constrained. */
  ghost predicate Coherent(adj: Adjacency, pipes: map<int, Pipe>) {
    (forall u, w :: HasEdge(adj, u, w) ==> adj[u][w].pipeId != -1) &&
    (forall u, w, u', w', id :: Carries(adj, u, w, id) && Carries(adj, u', w', id) ==> u == u' && w == w') &&
    (forall id :: id in pipes ==> (pipes[id].isConnected <==> InUse(adj, id)))
  }

  /** The effect of markPipeAsConnected on the pipe store. */
  function Marked(pipes: map<int, Pipe>, id: int, connected: bool): map<int, Pipe> {
    if id in pipes then pipes[id := SetIsConnected(pipes[id], connected)] else pipes
  }

  // ----- connectStations: the checks -----

  /** The outcome of the checks of connectStations, one rejection per check. */
  datatype ConnectVerdict =
    | InvalidDiameter
    | MissingSource
    | MissingDestination
    | SelfConnection
    | AlreadyConnected
    | PipeNotSpecified
    | UnknownPipe
    | DiameterMismatch
    | PipeUnavailable
    | Accepted

  /** The number of the check that gives the verdict; Accepted comes after
      the nine checks. */
  function Position(v: ConnectVerdict): nat {
    match v
    case InvalidDiameter => 1
    case MissingSource => 2
    case MissingDestination => 3
    case SelfConnection => 4
    case AlreadyConnected => 5
    case PipeNotSpecified => 6
    case UnknownPipe => 7
    case DiameterMismatch => 8
    case PipeUnavailable => 9
    case Accepted => 10
  }

  /** Check number `k` of connectStations, stated on its own. */
  predicate CheckPasses(k: nat, stations: set<int>, adj: Adjacency, pipes: map<int, Pipe>,
                        from: int, to: int, diameter: int, pipeId: int)
  {
    match k
    case 1 => IsValidDiameter(diameter)
    case 2 => from in stations
    case 3 => to in stations
    case 4 => from != to
    case 5 => PipeIdOf(adj, from, to) == -1
    case 6 => pipeId != -1
    case 7 => pipeId in pipes
    case 8 => pipeId in pipes ==> pipes[pipeId].diameter == diameter
    case 9 => pipeId in pipes ==> IsAvailableForConnection(pipes[pipeId])
    case _ => true
  }

  /** The verdict of connectStations: the first check that fails, or
      Accepted when all nine pass. */
  function CheckConnection(stations: set<int>, adj: Adjacency, pipes: map<int, Pipe>,
                           from: int, to: int, diameter: int, pipeId: int): (v: ConnectVerdict)
    ensures forall k :: 1 <= k < Position(v) ==> CheckPasses(k, stations, adj, pipes, from, to, diameter, pipeId)
    ensures v != Accepted ==> !CheckPasses(Position(v), stations, adj, pipes, from, to, diameter, pipeId)
    ensures v == Accepted <==>
              IsValidDiameter(diameter) && from in stations && to in stations && from != to &&
              PipeIdOf(adj, from, to) == -1 && pipeId != -1 && pipeId in pipes &&
              pipes[pipeId].diameter == diameter && IsAvailableForConnection(pipes[pipeId])
  {
    if !IsValidDiameter(diameter) then InvalidDiameter
    else if from !in stations then MissingSource
    else if to !in stations then MissingDestination
    else if from == to then SelfConnection
    else if PipeIdOf(adj, from, to) != -1 then AlreadyConnected
    else if pipeId == -1 then PipeNotSpecified
    else if pipeId !in pipes then UnknownPipe
    else if pipes[pipeId].diameter != diameter then DiameterMismatch
    else if !IsAvailableForConnection(pipes[pipeId]) then PipeUnavailable
    else Accepted
  }

  // ----- Preservation of the invariant, on values -----

  lemma CarriesAdded(adj: Adjacency, from: int, to: int, e: Edge)
    requires !HasEdge(adj, from, to)
    ensures forall u, w, id :: Carries(Added(adj, from, to, e), u, w, id) <==>
              Carries(adj, u, w, id) || (u == from && w == to && id == e.pipeId)
  {
    AddedKeepsEdges(adj, from, to, e);
  }

  /** An accepted connection finds no edge from -> to, so the insertion
      cannot fail; and marking the pipe and inserting the edge keeps the
      invariant. */
  lemma ConnectPreserves(stations: set<int>, adj: Adjacency, vertexIds: set<int>, pipes: map<int, Pipe>,
                         from: int, to: int, diameter: int, pipeId: int)
    requires WellFormed(adj, vertexIds) && vertexIds <= stations && Coherent(adj, pipes)
    requires CheckConnection(stations, adj, pipes, from, to, diameter, pipeId) == Accepted
    ensures !HasEdge(adj, from, to)
    ensures vertexIds + {from, to} <= stations
    ensures Coherent(Added(adj, from, to, Edge(pipeId, diameter)), Marked(pipes, pipeId, true))
  {
    var adj' := Added(adj, from, to, Edge(pipeId, diameter));
    var pipes' := Marked(pipes, pipeId, true);
    CarriesAdded(adj, from, to, Edge(pipeId, diameter));
    assert !InUse(adj, pipeId);
    assert Carries(adj', from, to, pipeId);
    forall id | id in pipes'
      ensures pipes'[id].isConnected <==> InUse(adj', id)
    {
      if id != pipeId {
        if InUse(adj', id) {
          var u, w :| Carries(adj', u, w, id);
          assert Carries(adj, u, w, id);
        }
        if InUse(adj, id) {
          var u, w :| Carries(adj, u, w, id);
          assert Carries(adj', u, w, id);
        }
      }
    }
    forall u, w | HasEdge(adj', u, w)
      ensures adj'[u][w].pipeId != -1
    {
      assert Carries(adj', u, w, adj'[u][w].pipeId);
    }
  }

  lemma CarriesRemoved(adj: Adjacency, from: int, to: int)
    requires HasEdge(adj, from, to)
    ensures forall u, w, id :: Carries(Removed(adj, from, to), u, w, id) <==>
              Carries(adj, u, w, id) && (u, w) != (from, to)
  {
    var r := Removed(adj, from, to);
    RemovedEdges(adj, from, to);
    forall u, w | HasEdge(r, u, w)
      ensures HasEdge(adj, u, w) && (u, w) != (from, to)
    {
      EdgeSetMembership(r, u, w);
      EdgeSetMembership(adj, u, w);
    }
  }

  /** Removing an edge and freeing its pipe keeps the invariant. */
  lemma DisconnectPreserves(adj: Adjacency, pipes: map<int, Pipe>, from: int, to: int)
    requires Coherent(adj, pipes) && HasEdge(adj, from, to)
    ensures Coherent(Removed(adj, from, to), Marked(pipes, adj[from][to].pipeId, false))
  {
    var pipeId := adj[from][to].pipeId;
    var adj' := Removed(adj, from, to);
    var pipes' := Marked(pipes, pipeId, false);
    CarriesRemoved(adj, from, to);
    assert Carries(adj, from, to, pipeId);
    forall id | id in pipes'
      ensures pipes'[id].isConnected <==> InUse(adj', id)
    {
      if InUse(adj', id) {
        var u, w :| Carries(adj', u, w, id);
        assert Carries(adj, u, w, id);
      }
      if id != pipeId && InUse(adj, id) {
        var u, w :| Carries(adj, u, w, id);
        assert Carries(adj', u, w, id);
      }
    }
    forall u, w | HasEdge(adj', u, w)
      ensures adj'[u][w].pipeId != -1
    {
      assert Carries(adj', u, w, adj'[u][w].pipeId);
    }
  }

  /** The edges that touch `x`. */
  ghost function Incident(adj: Adjacency, x: int): set<(int, int)> {
    set e | e in EdgeSet(adj) && (e.0 == x || e.1 == x)
  }

  /** The pipes (other than -1) backing the edges `es`. */
  ghost function PipesOf(adj: Adjacency, es: set<(int, int)>): set<int> {
    set e | e in es && HasEdge(adj, e.0, e.1) && adj[e.0][e.1].pipeId != -1 :: adj[e.0][e.1].pipeId
  }

  /** The pipes that backed the edges of `x`. */
  ghost function IncidentPipes(adj: Adjacency, x: int): set<int> {
    PipesOf(adj, Incident(adj, x))
  }

  /** The store with the pipes `ids` marked not connected. */
  ghost function Cleared(pipes: map<int, Pipe>, ids: set<int>): map<int, Pipe> {
    map p | p in pipes :: if p in ids then SetIsConnected(pipes[p], false) else pipes[p]
  }

  /** Removing the edges of `x`, keeping every other edge with its data,
      and freeing their pipes keeps the invariant. */
  lemma DeletePreserves(adj: Adjacency, adj': Adjacency, pipes: map<int, Pipe>, x: int)
    requires Coherent(adj, pipes)
    requires forall u, w :: HasEdge(adj', u, w) <==> HasEdge(adj, u, w) && u != x && w != x
    requires forall u, w :: HasEdge(adj', u, w) ==> HasEdge(adj, u, w) && adj'[u][w] == adj[u][w]
    ensures Coherent(adj', Cleared(pipes, IncidentPipes(adj, x)))
  {
    var freed := IncidentPipes(adj, x);
    var pipes' := Cleared(pipes, freed);
    forall u, w, id | Carries(adj', u, w, id)
      ensures Carries(adj, u, w, id)
    {
    }
    forall u, w, id | Carries(adj, u, w, id) && (u == x || w == x)
      ensures id in freed
    {
      EdgeSetMembership(adj, u, w);
      assert (u, w) in Incident(adj, x);
    }
    forall id | id in pipes'
      ensures pipes'[id].isConnected <==> InUse(adj', id)
    {
      if id in freed {
        var e :| e in Incident(adj, x) && HasEdge(adj, e.0, e.1) && adj[e.0][e.1].pipeId != -1 &&
                 adj[e.0][e.1].pipeId == id;
        assert Carries(adj, e.0, e.1, id);
        forall u, w
          ensures !Carries(adj', u, w, id)
        {
          if Carries(adj, u, w, id) {
            assert (u, w) == e;
          }
        }
      } else {
        if InUse(adj', id) {
          var u, w :| Carries(adj', u, w, id);
          assert Carries(adj, u, w, id);
        }
        if InUse(adj, id) {
          var u, w :| Carries(adj, u, w, id);
          assert Carries(adj', u, w, id);
        }
      }
    }
  }

  lemma ClearOne(pipes: map<int, Pipe>, ids: set<int>, id: int)
    ensures Marked(Cleared(pipes, ids), id, false) == Cleared(pipes, ids + {id})
  {
  }

  // ----- Loading -----

  /** What loading works on: the graph's edges and vertices, and the pipe
      store. */
  datatype LoadState = LoadState(adj: Adjacency, vertices: set<int>, pipes: map<int, Pipe>)

  /** One connection line acted on as the loader does: the edge takes the
      stored pipe's diameter, or 500 for an unknown pipe; the graph rejects
      a self-loop or an existing edge; a known pipe is marked connected
      either way. */
  function LoadOne(s: LoadState, c: Connection): LoadState {
    var diameter := if c.pipeId in s.pipes then s.pipes[c.pipeId].diameter else 500;
    var pipes := Marked(s.pipes, c.pipeId, true);
    if c.from != c.to && !HasEdge(s.adj, c.from, c.to) then
      LoadState(Added(s.adj, c.from, c.to, Edge(c.pipeId, diameter)), s.vertices + {c.from, c.to}, pipes)
    else
      LoadState(s.adj, s.vertices, pipes)
  }

  function LoadAll(s: LoadState, cs: seq<Connection>): LoadState {
    if cs == [] then s else LoadOne(LoadAll(s, cs[..|cs| - 1]), cs[|cs| - 1])
  }

  /** The graph that loading `cs` into an empty graph builds. */
  function LoadedGraph(pipes: map<int, Pipe>, cs: seq<Connection>): Adjacency {
    LoadAll(LoadState(map[], {}, pipes), cs).adj
  }

  /** Connections with distinct endpoint pairs and no self-loops, loaded
      into an empty graph, become exactly the edges of the graph, each with
      its pipe id. */
  lemma {:induction false} LoadDistinct(pipes: map<int, Pipe>, cs: seq<Connection>)
    requires forall i :: 0 <= i < |cs| ==> cs[i].from != cs[i].to
    requires forall i, j :: 0 <= i < j < |cs| ==> (cs[i].from, cs[i].to) != (cs[j].from, cs[j].to)
    ensures forall c :: c in cs ==> Describes(LoadedGraph(pipes, cs), c)
    ensures forall u, w :: HasEdge(LoadedGraph(pipes, cs), u, w) ==>
              Connection(u, w, LoadedGraph(pipes, cs)[u][w].pipeId) in cs
  {
    if cs != [] {
      var n := |cs| - 1;
      var front := cs[..n];
      var last := cs[n];
      assert cs == front + [last];
      assert forall c :: c in front ==> c in cs;
      LoadDistinct(pipes, front);
      var r := LoadAll(LoadState(map[], {}, pipes), front);
      assert r.adj == LoadedGraph(pipes, front);
      forall u, w | HasEdge(r.adj, u, w)
        ensures (u, w) != (last.from, last.to)
      {
        var i :| 0 <= i < n && front[i] == Connection(u, w, r.adj[u][w].pipeId);
        assert (cs[i].from, cs[i].to) != (cs[n].from, cs[n].to);
      }
      var diameter := if last.pipeId in r.pipes then r.pipes[last.pipeId].diameter else 500;
      assert LoadedGraph(pipes, cs) == Added(r.adj, last.from, last.to, Edge(last.pipeId, diameter));
      AddFreshConnection(r.adj, front, last, Edge(last.pipeId, diameter));
    }
  }

  /** Inserting a connection whose endpoints no earlier connection uses,
      into a graph holding exactly the earlier ones, gives a graph holding
      exactly all of them. */
  lemma AddFreshConnection(adj: Adjacency, front: seq<Connection>, last: Connection, e: Edge)
    requires e.pipeId == last.pipeId
    requires forall c :: c in front ==> Describes(adj, c)
    requires forall u, w :: HasEdge(adj, u, w) ==> Connection(u, w, adj[u][w].pipeId) in front
    requires forall u, w :: HasEdge(adj, u, w) ==> (u, w) != (last.from, last.to)
    ensures forall c :: c in front + [last] ==> Describes(Added(adj, last.from, last.to, e), c)
    ensures forall u, w :: HasEdge(Added(adj, last.from, last.to, e), u, w) ==>
              Connection(u, w, Added(adj, last.from, last.to, e)[u][w].pipeId) in front + [last]
  {
    var adj' := Added(adj, last.from, last.to, e);
    AddedKeepsEdges(adj, last.from, last.to, e);
    forall c | c in front + [last]
      ensures Describes(adj', c)
    {
      if c != last {
        assert c in front && Describes(adj, c);
      }
    }
    forall u, w | HasEdge(adj', u, w)
      ensures Connection(u, w, adj'[u][w].pipeId) in front + [last]
    {
      if (u, w) != (last.from, last.to) {
        assert HasEdge(adj, u, w);
        assert Connection(u, w, adj[u][w].pipeId) in front;
      }
    }
  }

  // ----- The network -----

  class GasNetwork {
    const network: PipelineNetwork
    const graph: Graph

    /** The graph's own invariant, which every operation needs. */
    ghost predicate Valid()
      reads graph
    {
      graph.Valid()
    }

    /** Every graph vertex is a stored station, and the pipe flags agree
        with the edges. */
    ghost predicate Consistent()
      reads graph, network
    {
      graph.Valid() &&
      graph.vertexIds <= network.stations.Keys &&
      Coherent(graph.adjacency, network.pipes)
    }

    constructor ()
      ensures fresh(network) && fresh(graph)
      ensures network.pipes == map[] && network.stations == map[]
      ensures graph.adjacency == map[] && graph.vertexIds == {}
      ensures Consistent()
    {
      network := new PipelineNetwork();
      graph := new Graph();
    }

    /** connectStations: the nine checks in order, then the pipe is marked
        connected and the edge inserted. A failed insertion would leave the
        pipe marked; under the invariant it cannot happen. */
    method ConnectStations(from: int, to: int, diameter: int, pipeId: int) returns (ok: bool)
      requires Valid()
      modifies network, graph
      ensures Valid()
      ensures network.stations == old(network.stations)
      ensures var v := CheckConnection(old(network.stations.Keys), old(graph.adjacency), old(network.pipes),
                                       from, to, diameter, pipeId);
              (v != Accepted ==>
                 !ok && graph.adjacency == old(graph.adjacency) && graph.vertexIds == old(graph.vertexIds) &&
                 network.pipes == old(network.pipes)) &&
              (v == Accepted ==> network.pipes == Marked(old(network.pipes), pipeId, true)) &&
              (v == Accepted && !HasEdge(old(graph.adjacency), from, to) ==>
                 ok && graph.adjacency == Added(old(graph.adjacency), from, to, Edge(pipeId, diameter)) &&
                 graph.vertexIds == old(graph.vertexIds) + {from, to}) &&
              (v == Accepted && HasEdge(old(graph.adjacency), from, to) ==>
                 !ok && graph.adjacency == old(graph.adjacency) && graph.vertexIds == old(graph.vertexIds))
      ensures old(Consistent()) ==>
                Consistent() &&
                (ok <==> CheckConnection(old(network.stations.Keys), old(graph.adjacency), old(network.pipes),
                                         from, to, diameter, pipeId) == Accepted)
    {
      ghost var consistent := Consistent();
      ghost var adj, vertexIds, pipes, stations := graph.adjacency, graph.vertexIds, network.pipes, network.stations.Keys;
      if !IsValidDiameter(diameter) {
        return false;
      }
      if !network.StationExists(from) {
        return false;
      }
      if !network.StationExists(to) {
        return false;
      }
      if from == to {
        return false;
      }
      if graph.GetPipeId(from, to) != -1 {
        return false;
      }
      if pipeId == -1 {
        return false;
      }
      var selected := network.GetPipeById(pipeId);
      if selected.None? {
        return false;
      }
      if selected.value.diameter != diameter {
        return false;
      }
      if !IsAvailableForConnection(selected.value) {
        return false;
      }
      assert CheckConnection(stations, adj, pipes, from, to, diameter, pipeId) == Accepted;
      network.MarkPipeAsConnected(pipeId, true);
      ok := graph.AddConnection(from, to, pipeId, diameter);
      if consistent {
        ConnectPreserves(stations, adj, vertexIds, pipes, from, to, diameter, pipeId);
      }
    }

    /** disconnectStations: an edge with a pipe is removed and its pipe
        freed; otherwise nothing changes. */
    method DisconnectStations(from: int, to: int)
      requires Valid()
      modifies network, graph
      ensures Valid()
      ensures network.stations == old(network.stations) && graph.vertexIds == old(graph.vertexIds)
      ensures PipeIdOf(old(graph.adjacency), from, to) == -1 ==>
                graph.adjacency == old(graph.adjacency) && network.pipes == old(network.pipes)
      ensures PipeIdOf(old(graph.adjacency), from, to) != -1 ==>
                HasEdge(old(graph.adjacency), from, to) &&
                graph.adjacency == Removed(old(graph.adjacency), from, to) &&
                network.pipes == Marked(old(network.pipes), old(graph.adjacency)[from][to].pipeId, false)
      ensures old(Consistent()) ==> Consistent()
    {
      ghost var consistent := Consistent();
      ghost var adj := graph.adjacency;
      var pipeId := graph.GetPipeId(from, to);
      if pipeId != -1 {
        var removed := graph.RemoveConnection(from, to);
        if removed {
          network.MarkPipeAsConnected(pipeId, false);
        }
        if consistent {
          DisconnectPreserves(adj, old(network.pipes), from, to);
        }
      }
    }

    /** deleteStation: every edge of the station is removed and its pipe
        freed, walking a snapshot of the connections; then the vertex and
        the station record go. */
    method DeleteStation(id: int)
      requires Valid()
      modifies network, graph
      ensures Valid()
      ensures forall u, w :: HasEdge(graph.adjacency, u, w) <==>
                HasEdge(old(graph.adjacency), u, w) && u != id && w != id
      ensures forall u, w :: HasEdge(graph.adjacency, u, w) ==>
                HasEdge(old(graph.adjacency), u, w) && graph.adjacency[u][w] == old(graph.adjacency)[u][w]
      ensures graph.vertexIds == old(graph.vertexIds) - {id}
      ensures network.stations == old(network.stations) - {id}
      ensures forall u :: u in graph.adjacency <==>
                u in old(graph.adjacency) && u != id &&
                (old(graph.adjacency)[u] == map[] || exists w :: HasEdge(old(graph.adjacency), u, w) && w != id)
      ensures network.pipes == Cleared(old(network.pipes), IncidentPipes(old(graph.adjacency), id))
      ensures old(Consistent()) ==> Consistent()
    {
      ghost var consistent := Consistent();
      ghost var adj0, pipes0 := graph.adjacency, network.pipes;
      var conns := graph.GetConnections();
      ghost var gone: set<(int, int)> := {};
      for k := 0 to |conns|
        invariant graph.Valid()
        invariant graph.vertexIds == old(graph.vertexIds)
        invariant network.stations == old(network.stations)
        invariant gone == TouchingPrefix(conns, id, k)
        invariant forall u, w :: HasEdge(graph.adjacency, u, w) <==> HasEdge(adj0, u, w) && (u, w) !in gone
        invariant forall u, w :: HasEdge(graph.adjacency, u, w) ==> HasEdge(adj0, u, w) && graph.adjacency[u][w] == adj0[u][w]
        invariant network.pipes == Cleared(pipes0, PipesOf(adj0, gone))
        invariant RowsPruned(graph.adjacency, adj0)
      {
        var c := conns[k];
        TouchingPrefixStep(conns, id, k);
        if c.0 == id || c.1 == id {
          SortedNotSeen(conns, id, k);
          ghost var before := graph.adjacency;
          DropConnection(c, adj0, pipes0, gone);
          RemovedKeepsPruned(before, adj0, c.0, c.1);
          gone := gone + {c};
        }
      }
      TouchingAll(adj0, conns, id);
      ghost var adj1 := graph.adjacency;
      graph.RemoveVertex(id);
      network.DeleteStation(id);
      WithoutVertexEdges(adj1, id);
      DeletedRows(adj0, adj1, id);
      if consistent {
        DeletePreserves(adj0, graph.adjacency, pipes0, id);
      }
    }

    /** One step of the deletion loop: the edge `c`, still present, is
        removed and its pipe, if it has one, is marked free. */
    method DropConnection(c: (int, int), ghost adj0: Adjacency, ghost pipes0: map<int, Pipe>, ghost gone: set<(int, int)>)
      requires graph.Valid()
      requires HasEdge(adj0, c.0, c.1) && c !in gone
      requires forall u, w :: HasEdge(graph.adjacency, u, w) <==> HasEdge(adj0, u, w) && (u, w) !in gone
      requires forall u, w :: HasEdge(graph.adjacency, u, w) ==> HasEdge(adj0, u, w) && graph.adjacency[u][w] == adj0[u][w]
      requires network.pipes == Cleared(pipes0, PipesOf(adj0, gone))
      modifies network, graph
      ensures graph.Valid()
      ensures graph.vertexIds == old(graph.vertexIds)
      ensures network.stations == old(network.stations)
      ensures forall u, w :: HasEdge(graph.adjacency, u, w) <==> HasEdge(adj0, u, w) && (u, w) !in gone + {c}
      ensures forall u, w :: HasEdge(graph.adjacency, u, w) ==> HasEdge(adj0, u, w) && graph.adjacency[u][w] == adj0[u][w]
      ensures network.pipes == Cleared(pipes0, PipesOf(adj0, gone + {c}))
      ensures HasEdge(old(graph.adjacency), c.0, c.1) && graph.adjacency == Removed(old(graph.adjacency), c.0, c.1)
    {
      var pipeId := graph.GetPipeId(c.0, c.1);
      ghost var before := graph.adjacency;
      var removed := graph.RemoveConnection(c.0, c.1);
      RemovedStep(adj0, graph.adjacency, before, gone, c);
      if pipeId != -1 {
        network.MarkPipeAsConnected(pipeId, false);
      }
      PipesOfStep(adj0, gone, c);
      ClearOne(pipes0, PipesOf(adj0, gone), pipeId);
    }

    /** saveNetworkToFile, the network file only: the header, one line per
        edge in ascending (from, to) order, the closing marker. Loading these lines
        into an empty graph gives back the same edges with the same pipes. */
    method SaveNetworkLines() returns (lines: seq<string>)
      requires Valid()
      ensures |lines| == |EdgeSet(graph.adjacency)| + 4
      ensures lines[..3] == [Header, VersionLine, Begin] && lines[|lines| - 1] == End
      ensures forall u, w :: HasEdge(LoadedGraph(network.pipes, ReadConnections(lines)), u, w) <==>
                HasEdge(graph.adjacency, u, w)
      ensures forall u, w :: HasEdge(graph.adjacency, u, w) ==>
                HasEdge(LoadedGraph(network.pipes, ReadConnections(lines)), u, w) &&
                LoadedGraph(network.pipes, ReadConnections(lines))[u][w].pipeId == graph.adjacency[u][w].pipeId
      ensures exists cs :: lines == Format(cs) &&
                (forall a, b :: 0 <= a < b < |cs| ==> ConnectionLess(cs[a], cs[b])) &&
                (forall c :: c in cs <==> Describes(graph.adjacency, c))
    {
      var conns := graph.GetConnectionsWithPipe();
      lines := WriteLines(conns);
      SavedRoundTrip(graph.adjacency, graph.vertexIds, network.pipes, conns, lines);
    }

    /** loadNetworkFromFile, the network file only: the graph is cleared
        and every connection line inside the block is re-added. */
    method LoadNetworkLines(lines: seq<string>)
      requires Valid()
      modifies network, graph
      ensures Valid()
      ensures network.stations == old(network.stations)
      ensures LoadState(graph.adjacency, graph.vertexIds, network.pipes) ==
              LoadAll(LoadState(map[], {}, old(network.pipes)), ReadConnections(lines))
    {
      ghost var start := LoadState(map[], {}, network.pipes);
      graph.Clear();
      var reading := false;
      ghost var done: seq<Connection> := [];
      ghost var total := ReadConnections(lines);
      var i := 0;
      while i < |lines|
        invariant 0 <= i <= |lines|
        invariant graph.Valid()
        invariant network.stations == old(network.stations)
        invariant total == done + Scan(lines[i..], reading)
        invariant LoadState(graph.adjacency, graph.vertexIds, network.pipes) == LoadAll(start, done)
      {
        var stop;
        ghost var read;
        reading, stop, read := ReadLine(lines, i, reading);
        if stop {
          assert done + [] == done;
          break;
        }
        LoadAllAppend(start, done, read);
        done := done + read;
        i := i + 1;
      }
      if i == |lines| {
        assert Scan(lines[i..], reading) == [];
        assert done + [] == done;
      }
    }

    /** One line of the loading loop: the markers switch reading on or
        stop it, and a connection line inside the block is re-added. */
    method ReadLine(lines: seq<string>, i: nat, reading: bool) returns (reading': bool, stop: bool, ghost read: seq<Connection>)
      requires i < |lines| && Valid()
      modifies network, graph
      ensures Valid()
      ensures network.stations == old(network.stations)
      ensures stop ==> Scan(lines[i..], reading) == [] && read == []
      ensures !stop ==> Scan(lines[i..], reading) == read + Scan(lines[i + 1..], reading')
      ensures LoadState(graph.adjacency, graph.vertexIds, network.pipes) ==
              LoadAll(old(LoadState(graph.adjacency, graph.vertexIds, network.pipes)), read)
    {
      var line := lines[i];
      ScanNext(lines, i, reading);
      reading', stop, read := reading, false, [];
      if line == Header {
      } else if line == Begin {
        reading' := true;
      } else if line == End {
        stop := true;
      } else if reading {
        var parsed := ParseConnection(line);
        if parsed.Some? {
          var c := parsed.value;
          LoadLine(c);
          read := [c];
          assert read[..0] == [];
        }
      }
    }

    /** One connection line of the loader, on the graph and the store. */
    method LoadLine(c: Connection)
      requires Valid()
      modifies network, graph
      ensures Valid()
      ensures network.stations == old(network.stations)
      ensures LoadState(graph.adjacency, graph.vertexIds, network.pipes) ==
              LoadOne(old(LoadState(graph.adjacency, graph.vertexIds, network.pipes)), c)
    {
      var pipe := network.GetPipeById(c.pipeId);
      var diameter := if pipe.Some? then pipe.value.diameter else 500;
      var added := graph.AddConnection(c.from, c.to, c.pipeId, diameter);
      if pipe.Some? {
        network.MarkPipeAsConnected(c.pipeId, true);
      }
    }
  }

  lemma {:induction false} LoadAllAppend(s: LoadState, a: seq<Connection>, b: seq<Connection>)
    ensures LoadAll(s, a + b) == LoadAll(LoadAll(s, a), b)
  {
    if b == [] {
      assert a + b == a;
    } else {
      assert (a + b)[..|a + b| - 1] == a + b[..|b| - 1];
      LoadAllAppend(s, a, b[..|b| - 1]);
    }
  }

  // ----- Helpers for the loops -----

  /** The connections among the first `k` of `conns` that touch `x`. */
  ghost function TouchingPrefix(conns: seq<(int, int)>, x: int, k: int): set<(int, int)>
    requires 0 <= k <= |conns|
  {
    set j | 0 <= j < k && (conns[j].0 == x || conns[j].1 == x) :: conns[j]
  }

  lemma TouchingPrefixStep(conns: seq<(int, int)>, x: int, k: int)
    requires 0 <= k < |conns|
    ensures TouchingPrefix(conns, x, k + 1) ==
            TouchingPrefix(conns, x, k) + (if conns[k].0 == x || conns[k].1 == x then {conns[k]} else {})
  {
  }

  lemma SortedNotSeen(conns: seq<(int, int)>, x: int, k: int)
    requires 0 <= k < |conns|
    requires forall a, b :: 0 <= a < b < |conns| ==> PairLess(conns[a], conns[b])
    ensures conns[k] !in TouchingPrefix(conns, x, k)
  {
    forall j | 0 <= j < k
      ensures conns[j] != conns[k]
    {
      assert PairLess(conns[j], conns[k]);
    }
  }

  /** The rows of `adj` are those of `adj0` less the rows that removals
      emptied: a row that was empty in `adj0` is still there, and a row that
      had edges is there only while it still has one. */
  ghost predicate RowsPruned(adj: Adjacency, adj0: Adjacency) {
    (forall u :: u in adj ==> u in adj0 && (adj[u] != map[] || adj0[u] == map[])) &&
    (forall u :: u in adj0 && adj0[u] == map[] ==> u in adj)
  }

  /** removeConnection prunes only a row it empties, one that had an edge. */
  lemma RemovedKeepsPruned(adj: Adjacency, adj0: Adjacency, from: int, to: int)
    requires RowsPruned(adj, adj0) && HasEdge(adj, from, to) && HasEdge(adj0, from, to)
    ensures RowsPruned(Removed(adj, from, to), adj0)
  {
  }

  /** After the cascade and removeVertex, a row survives iff it is not the
      station's and it was empty from the start or keeps an edge to another
      station. */
  lemma DeletedRows(adj0: Adjacency, adj1: Adjacency, x: int)
    requires RowsPruned(adj1, adj0)
    requires forall u, w :: HasEdge(adj1, u, w) <==> HasEdge(adj0, u, w) && u != x && w != x
    ensures forall u :: u in WithoutVertex(adj1, x) <==>
              u in adj0 && u != x && (adj0[u] == map[] || exists w :: HasEdge(adj0, u, w) && w != x)
  {
    forall u | u in adj1 && u != x && adj0[u] != map[]
      ensures exists w :: HasEdge(adj0, u, w) && w != x
    {
      if forall w :: w !in adj1[u] {
        assert false;
      }
      var w :| w in adj1[u];
      assert HasEdge(adj1, u, w);
    }
  }

  lemma TouchingAll(adj: Adjacency, conns: seq<(int, int)>, x: int)
    requires forall p: (int, int) :: p in conns <==> HasEdge(adj, p.0, p.1)
    ensures TouchingPrefix(conns, x, |conns|) == Incident(adj, x)
  {
    forall e | e in Incident(adj, x)
      ensures e in TouchingPrefix(conns, x, |conns|)
    {
      EdgeSetMembership(adj, e.0, e.1);
      var j :| 0 <= j < |conns| && conns[j] == e;
    }
    forall e | e in TouchingPrefix(conns, x, |conns|)
      ensures e in Incident(adj, x)
    {
      EdgeSetMembership(adj, e.0, e.1);
    }
  }

  /** Removing one more edge of the snapshot keeps the loop's view of the
      graph: the original edges minus those removed so far, data intact. */
  lemma RemovedStep(adj0: Adjacency, adj: Adjacency, before: Adjacency, gone: set<(int, int)>, c: (int, int))
    requires forall u, w :: HasEdge(before, u, w) <==> HasEdge(adj0, u, w) && (u, w) !in gone
    requires forall u, w :: HasEdge(before, u, w) ==> HasEdge(adj0, u, w) && before[u][w] == adj0[u][w]
    requires HasEdge(before, c.0, c.1) && adj == Removed(before, c.0, c.1)
    ensures forall u, w :: HasEdge(adj, u, w) <==> HasEdge(adj0, u, w) && (u, w) !in gone + {c}
    ensures forall u, w :: HasEdge(adj, u, w) ==> HasEdge(adj0, u, w) && adj[u][w] == adj0[u][w]
  {
    CarriesRemoved(before, c.0, c.1);
    forall u, w | HasEdge(adj, u, w)
      ensures HasEdge(before, u, w) && (u, w) != c && adj[u][w] == before[u][w]
    {
      assert Carries(adj, u, w, adj[u][w].pipeId);
      assert Carries(before, u, w, adj[u][w].pipeId);
      RemovedEdges(before, c.0, c.1);
    }
    forall u, w | HasEdge(adj0, u, w) && (u, w) !in gone + {c}
      ensures HasEdge(adj, u, w)
    {
      assert Carries(before, u, w, before[u][w].pipeId);
    }
  }

  lemma PipesOfStep(adj: Adjacency, gone: set<(int, int)>, c: (int, int))
    requires HasEdge(adj, c.0, c.1)
    ensures PipesOf(adj, gone + {c}) ==
            PipesOf(adj, gone) + (if adj[c.0][c.1].pipeId != -1 then {adj[c.0][c.1].pipeId} else {})
  {
  }

  /** The saved connections of a well-formed graph load back as its edges. */
  lemma SavedRoundTrip(adj: Adjacency, vertexIds: set<int>, pipes: map<int, Pipe>, conns: seq<Connection>,
                        lines: seq<string>)
    requires WellFormed(adj, vertexIds)
    requires forall a, b :: 0 <= a < b < |conns| ==> ConnectionLess(conns[a], conns[b])
    requires forall c :: c in conns <==> Describes(adj, c)
    requires lines == Format(conns)
    ensures forall u, w :: HasEdge(LoadedGraph(pipes, ReadConnections(lines)), u, w) <==> HasEdge(adj, u, w)
    ensures forall u, w :: HasEdge(adj, u, w) ==>
              HasEdge(LoadedGraph(pipes, ReadConnections(lines)), u, w) &&
              LoadedGraph(pipes, ReadConnections(lines))[u][w].pipeId == adj[u][w].pipeId
  {
    forall i | 0 <= i < |conns|
      ensures conns[i].from != conns[i].to
    {
      assert Describes(adj, conns[i]);
    }
    forall i, j | 0 <= i < j < |conns|
      ensures (conns[i].from, conns[i].to) != (conns[j].from, conns[j].to)
    {
      assert ConnectionLess(conns[i], conns[j]);
    }
    LoadDistinct(pipes, conns);
    FormatThenRead(conns);
    var r := LoadedGraph(pipes, conns);
    forall u, w | HasEdge(adj, u, w)
      ensures HasEdge(r, u, w) && r[u][w].pipeId == adj[u][w].pipeId
    {
      assert Describes(adj, Connection(u, w, adj[u][w].pipeId));
    }
    forall u, w | HasEdge(r, u, w)
      ensures HasEdge(adj, u, w)
    {
      assert Connection(u, w, r[u][w].pipeId) in conns;
    }
  }
}

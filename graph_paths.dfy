/**
  The mathematics behind the network graph: the nested adjacency map, its
  edge set, walks and cycles, and the pure effect of each mutator on the
  adjacency map. The `Graph` class states its new state through these
  functions; the lemmas here say what those effects mean.
 */
module GraphPaths {
  import opened Ordered

  /** The data stored on an edge: the pipe that backs it and its diameter. */
  datatype Edge = Edge(pipeId: int, diameter: int)

  /** from -> (to -> edge), an ordered map of ordered maps. */
  type Adjacency = map<int, map<int, Edge>>

  /** One row of the adjacency map; a missing row reads as empty, which is
      what the subscript operator of the ordered map creates on demand. */
  function Row(adj: Adjacency, u: int): map<int, Edge> {
    if u in adj then adj[u] else map[]
  }

  predicate HasEdge(adj: Adjacency, u: int, w: int) {
    u in adj && w in adj[u]
  }

  /** The pipe id stored on the edge from -> to, or -1 when there is no
      such edge. */
  function PipeIdOf(adj: Adjacency, from: int, to: int): int {
    if HasEdge(adj, from, to) then adj[from][to].pipeId else -1
  }

  /** The directed edges as (from, to) pairs. */
  ghost function EdgeSet(adj: Adjacency): set<(int, int)> {
    set u, w | u in adj && w in adj[u] :: (u, w)
  }

  lemma EdgeSetMembership(adj: Adjacency, u: int, w: int)
    ensures (u, w) in EdgeSet(adj) <==> HasEdge(adj, u, w)
  {
    if HasEdge(adj, u, w) {
      assert (u, w) in EdgeSet(adj);
    }
  }

  /** Every edge endpoint is a known vertex and no vertex has an edge to
      itself. Rows may be present and empty. */
  ghost predicate WellFormed(adj: Adjacency, vertexIds: set<int>) {
    adj.Keys <= vertexIds &&
    forall u :: u in adj ==> adj[u].Keys <= vertexIds && u !in adj[u]
  }

  // ----- Effects of the mutators -----

  /** The edge from -> to inserted, creating the row of `from` if needed. */
  function Added(adj: Adjacency, from: int, to: int, e: Edge): (r: Adjacency)
    ensures HasEdge(r, from, to) && r[from][to] == e
  {
    adj[from := Row(adj, from)[to := e]]
  }

  /** The edge from -> to erased; a row left empty is erased with it. */
  function Removed(adj: Adjacency, from: int, to: int): (r: Adjacency)
    requires HasEdge(adj, from, to)
    ensures !HasEdge(r, from, to)
    ensures from in r ==> r[from] != map[]
  {
    var row := adj[from] - {to};
    if row == map[] then adj - {from} else adj[from := row]
  }

  /** The row of `x` erased and `x` erased from every other row; rows that
      become empty stay. */
  function WithoutVertex(adj: Adjacency, x: int): (r: Adjacency)
    ensures r.Keys == adj.Keys - {x}
    ensures forall u :: u in r ==> r[u] == adj[u] - {x}
  {
    map u | u in adj && u != x :: adj[u] - {x}
  }

  /** Adding an edge keeps every existing edge with its data, and adds no
      reverse edge. */
  lemma AddedKeepsEdges(adj: Adjacency, from: int, to: int, e: Edge)
    ensures forall u, w :: HasEdge(adj, u, w) && (u, w) != (from, to) ==>
              HasEdge(Added(adj, from, to, e), u, w) && Added(adj, from, to, e)[u][w] == adj[u][w]
    ensures from != to ==> (HasEdge(Added(adj, from, to, e), to, from) <==> HasEdge(adj, to, from))
  {
  }

  /** Adding a fresh edge adds exactly that edge and nothing else. */
  lemma AddedEdges(adj: Adjacency, from: int, to: int, e: Edge)
    requires !HasEdge(adj, from, to)
    ensures EdgeSet(Added(adj, from, to, e)) == EdgeSet(adj) + {(from, to)}
    ensures |EdgeSet(Added(adj, from, to, e))| == |EdgeSet(adj)| + 1
  {
    var r := Added(adj, from, to, e);
    forall p | p in EdgeSet(r)
      ensures p in EdgeSet(adj) + {(from, to)}
    {
      EdgeSetMembership(r, p.0, p.1);
      EdgeSetMembership(adj, p.0, p.1);
    }
    forall p | p in EdgeSet(adj) + {(from, to)}
      ensures p in EdgeSet(r)
    {
      EdgeSetMembership(r, p.0, p.1);
      EdgeSetMembership(adj, p.0, p.1);
    }
    EdgeSetMembership(adj, from, to);
  }

  /** Removing an edge removes exactly that edge and keeps the data of every
      other edge. */
  lemma RemovedEdges(adj: Adjacency, from: int, to: int)
    requires HasEdge(adj, from, to)
    ensures EdgeSet(Removed(adj, from, to)) == EdgeSet(adj) - {(from, to)}
    ensures |EdgeSet(Removed(adj, from, to))| == |EdgeSet(adj)| - 1
    ensures forall u, w :: HasEdge(adj, u, w) && (u, w) != (from, to) ==>
              HasEdge(Removed(adj, from, to), u, w) && Removed(adj, from, to)[u][w] == adj[u][w]
  {
    var r := Removed(adj, from, to);
    forall u, w | HasEdge(adj, u, w) && (u, w) != (from, to)
      ensures HasEdge(r, u, w) && r[u][w] == adj[u][w]
    {
      if u == from {
        assert w in adj[from] - {to};
      }
    }
    forall p | p in EdgeSet(r)
      ensures p in EdgeSet(adj) - {(from, to)}
    {
      EdgeSetMembership(r, p.0, p.1);
      EdgeSetMembership(adj, p.0, p.1);
    }
    forall p | p in EdgeSet(adj) - {(from, to)}
      ensures p in EdgeSet(r)
    {
      EdgeSetMembership(r, p.0, p.1);
      EdgeSetMembership(adj, p.0, p.1);
    }
    EdgeSetMembership(adj, from, to);
  }

  /** Removing a vertex removes exactly the edges that touch it and keeps the
      data of every other edge. */
  lemma WithoutVertexEdges(adj: Adjacency, x: int)
    ensures EdgeSet(WithoutVertex(adj, x)) == set p | p in EdgeSet(adj) && p.0 != x && p.1 != x
    ensures forall y :: !HasEdge(WithoutVertex(adj, x), x, y) && !HasEdge(WithoutVertex(adj, x), y, x)
    ensures forall u, w :: HasEdge(adj, u, w) && u != x && w != x ==>
              HasEdge(WithoutVertex(adj, x), u, w) && WithoutVertex(adj, x)[u][w] == adj[u][w]
  {
    var r := WithoutVertex(adj, x);
    forall p | p in EdgeSet(r)
      ensures p in EdgeSet(adj) && p.0 != x && p.1 != x
    {
      EdgeSetMembership(r, p.0, p.1);
      EdgeSetMembership(adj, p.0, p.1);
    }
    forall p | p in EdgeSet(adj) && p.0 != x && p.1 != x
      ensures p in EdgeSet(r)
    {
      EdgeSetMembership(r, p.0, p.1);
      EdgeSetMembership(adj, p.0, p.1);
    }
  }

  /** Adding an edge and removing it again restores the edge set. */
  lemma AddThenRemoveEdges(adj: Adjacency, from: int, to: int, e: Edge)
    requires !HasEdge(adj, from, to)
    ensures EdgeSet(Removed(Added(adj, from, to, e), from, to)) == EdgeSet(adj)
  {
    AddedEdges(adj, from, to, e);
    RemovedEdges(Added(adj, from, to, e), from, to);
  }

  /** Adding an edge and removing it again restores the adjacency map itself
      only when the source row was not already present and empty: such a
      row, left behind by a vertex removal, is pruned. */
  lemma AddThenRemove(adj: Adjacency, from: int, to: int, e: Edge)
    requires !HasEdge(adj, from, to)
    ensures Removed(Added(adj, from, to, e), from, to) == adj <==> !(from in adj && adj[from] == map[])
  {
    var row := Row(adj, from)[to := e];
    assert Added(adj, from, to, e) == adj[from := row];
    assert row - {to} == Row(adj, from);
    if from in adj && adj[from] == map[] {
      assert from !in Removed(Added(adj, from, to, e), from, to);
    } else if from !in adj {
      assert adj[from := row] - {from} == adj;
    }
  }

  /** Emptiness of the adjacency map is not the absence of edges: removing
      the only target of an edge leaves an empty row behind. */
  lemma EmptyRowAfterVertexRemoval()
    ensures var adj := WithoutVertex(map[1 := map[2 := Edge(7, 500)]], 2);
            adj != map[] && EdgeSet(adj) == {}
  {
    var adj := WithoutVertex(map[1 := map[2 := Edge(7, 500)]], 2);
    assert 1 in adj;
    forall p | p in EdgeSet(adj)
      ensures false
    {
      EdgeSetMembership(adj, p.0, p.1);
    }
  }

  /** Each mutator keeps the graph well formed. */
  lemma MutatorsPreserveWellFormed(adj: Adjacency, vertexIds: set<int>, from: int, to: int, e: Edge, x: int)
    requires WellFormed(adj, vertexIds)
    ensures from != to ==> WellFormed(Added(adj, from, to, e), vertexIds + {from, to})
    ensures HasEdge(adj, from, to) ==> WellFormed(Removed(adj, from, to), vertexIds)
    ensures WellFormed(WithoutVertex(adj, x), vertexIds - {x})
    ensures WellFormed(adj, vertexIds + {x})
  {
  }

  // ----- Walks and cycles -----

  /** Consecutive vertices of `p` are joined by edges. */
  ghost predicate IsWalk(adj: Adjacency, p: seq<int>) {
    forall k :: 0 <= k < |p| - 1 ==> HasEdge(adj, p[k], p[k + 1])
  }

  /** The graph has a directed cycle: a closed walk with at least one edge. */
  ghost predicate Cyclic(adj: Adjacency) {
    exists p :: IsWalk(adj, p) && |p| >= 2 && p[0] == p[|p| - 1]
  }

  lemma WalkSuffix(adj: Adjacency, p: seq<int>, i: int)
    requires IsWalk(adj, p) && 0 <= i <= |p|
    ensures IsWalk(adj, p[i..])
  {
    forall k | 0 <= k < |p[i..]| - 1
      ensures HasEdge(adj, p[i..][k], p[i..][k + 1])
    {
      assert p[i..][k] == p[i + k] && p[i..][k + 1] == p[i + k + 1];
    }
  }

  lemma WalkExtend(adj: Adjacency, p: seq<int>, w: int)
    requires IsWalk(adj, p) && p != [] && HasEdge(adj, p[|p| - 1], w)
    ensures IsWalk(adj, p + [w])
  {
    forall k | 0 <= k < |p + [w]| - 1
      ensures HasEdge(adj, (p + [w])[k], (p + [w])[k + 1])
    {
      if k < |p| - 1 {
        assert (p + [w])[k] == p[k] && (p + [w])[k + 1] == p[k + 1];
      }
    }
  }

  // ----- Predecessors and in-degrees -----

  /** The predecessors of `v` that lie in `within`. */
  ghost function PredsIn(adj: Adjacency, v: int, within: set<int>): set<int> {
    set u | u in within && HasEdge(adj, u, v)
  }

  /** Taking one vertex out of `within` lowers every in-degree it
      contributed to by exactly one. */
  lemma PredsRemove(adj: Adjacency, v: int, within: set<int>, x: int)
    requires x in within
    ensures |PredsIn(adj, v, within)| == |PredsIn(adj, v, within - {x})| + (if HasEdge(adj, x, v) then 1 else 0)
  {
    if HasEdge(adj, x, v) {
      assert PredsIn(adj, v, within) == PredsIn(adj, v, within - {x}) + {x};
    } else {
      assert PredsIn(adj, v, within) == PredsIn(adj, v, within - {x});
    }
  }

  /** A walk of `n` edges that ends at `v` and stays inside `s`, built
      backwards from predecessors. */
  lemma {:induction false} BackwardWalk(adj: Adjacency, s: set<int>, v: int, n: nat) returns (p: seq<int>)
    requires v in s
    requires forall x :: x in s ==> PredsIn(adj, x, s) != {}
    ensures |p| == n + 1 && IsWalk(adj, p) && p[n] == v
    ensures forall k :: 0 <= k < |p| ==> p[k] in s
  {
    if n == 0 {
      p := [v];
    } else {
      var rest := BackwardWalk(adj, s, v, n - 1);
      var head := rest[0];
      assert head in s;
      var u := Element(PredsIn(adj, head, s));
      p := [u] + rest;
      assert forall k :: 1 <= k < |p| ==> p[k] == rest[k - 1];
    }
  }

  /** A non-empty set of vertices in which every vertex has a predecessor
      contains a cycle. */
  lemma PredecessorClosedCycle(adj: Adjacency, s: set<int>)
    requires s != {}
    requires forall x :: x in s ==> PredsIn(adj, x, s) != {}
    ensures Cyclic(adj)
  {
    var v := Element(s);
    var p := BackwardWalk(adj, s, v, |s|);
    Pigeonhole(p, s);
    var i, j :| 0 <= i < j < |p| && p[i] == p[j];
    RepeatClosesCycle(adj, p, i, j);
  }

  /** A walk that visits a vertex twice contains a cycle. */
  lemma RepeatClosesCycle(adj: Adjacency, p: seq<int>, i: int, j: int)
    requires IsWalk(adj, p) && 0 <= i < j < |p| && p[i] == p[j]
    ensures Cyclic(adj)
  {
    var cycle := p[i..j + 1];
    forall k | 0 <= k < |cycle| - 1
      ensures HasEdge(adj, cycle[k], cycle[k + 1])
    {
      assert cycle[k] == p[i + k] && cycle[k + 1] == p[i + k + 1];
    }
    assert IsWalk(adj, cycle) && |cycle| >= 2 && cycle[0] == cycle[|cycle| - 1];
  }
}

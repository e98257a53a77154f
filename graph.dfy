/**
  The directed network graph: an ordered map from a source station to an
  ordered map from target station to edge data, plus the set of known
  vertex ids. Mutators update both in place; queries walk the maps in
  ascending key order; the two algorithms (cycle detection and topological
  ordering) read the graph without changing it.
 */
module Graphs {
  import opened Wrappers
  import opened Ordered
  import opened GraphPaths

  /** One row of `getConnectionsWithPipe`: (from, (to, pipeId)). */
  datatype Connection = Connection(from: int, to: int, pipeId: int)

  /** Lexicographic order on (from, to), the iteration order of the nested
      ordered maps. */
  predicate PairLess(a: (int, int), b: (int, int)) {
    a.0 < b.0 || (a.0 == b.0 && a.1 < b.1)
  }

  predicate ConnectionLess(a: Connection, b: Connection) {
    PairLess((a.from, a.to), (b.from, b.to))
  }

  /** The connection describes a stored edge with its pipe id. */
  predicate Describes(adj: Adjacency, c: Connection) {
    HasEdge(adj, c.from, c.to) && adj[c.from][c.to].pipeId == c.pipeId
  }

  /** The edges leaving the vertices of `sources`. */
  ghost function EdgesFrom(adj: Adjacency, sources: set<int>): set<(int, int)> {
    set p | p in EdgeSet(adj) && p.0 in sources
  }

  /** A row of the adjacency map has as many edges as it has targets. */
  lemma {:induction false} RowCard(u: int, targets: set<int>)
    ensures |set w | w in targets :: (u, w)| == |targets|
    decreases |targets|
  {
    if targets != {} {
      var w := Element(targets);
      RowCard(u, targets - {w});
      assert (set x | x in targets :: (u, x)) == (set x | x in targets - {w} :: (u, x)) + {(u, w)};
    }
  }

  /** Counting the edges row by row: adding a source vertex adds the size of
      its row. */
  lemma EdgesFromStep(adj: Adjacency, sources: set<int>, u: int)
    requires u in adj && u !in sources
    ensures |EdgesFrom(adj, sources + {u})| == |EdgesFrom(adj, sources)| + |adj[u]|
  {
    var row := set w | w in adj[u].Keys :: (u, w);
    RowCard(u, adj[u].Keys);
    forall p | p in row
      ensures p in EdgeSet(adj)
    {
      EdgeSetMembership(adj, p.0, p.1);
    }
    assert EdgesFrom(adj, sources + {u}) == EdgesFrom(adj, sources) + row;
    assert EdgesFrom(adj, sources) !! row;
  }

  lemma EdgesFromAll(adj: Adjacency)
    ensures EdgesFrom(adj, adj.Keys) == EdgeSet(adj)
  {
  }

  /** A strictly increasing sequence of connections, each describing an edge,
      and every edge described: it has as many entries as there are edges. */
  lemma ConnectionsCount(adj: Adjacency, r: seq<Connection>)
    requires forall a, b :: 0 <= a < b < |r| ==> ConnectionLess(r[a], r[b])
    requires forall c :: c in r ==> Describes(adj, c)
    requires forall u, w :: HasEdge(adj, u, w) ==> Connection(u, w, adj[u][w].pipeId) in r
    ensures |r| == |EdgeSet(adj)|
  {
    var pairs := seq(|r|, k requires 0 <= k < |r| => (r[k].from, r[k].to));
    assert Distinct(pairs);
    DistinctCard(pairs);
    forall p | p in EdgeSet(adj)
      ensures p in pairs
    {
      EdgeSetMembership(adj, p.0, p.1);
      var k :| 0 <= k < |r| && r[k] == Connection(p.0, p.1, adj[p.0][p.1].pipeId);
      assert pairs[k] == p;
    }
    forall p | p in pairs
      ensures p in EdgeSet(adj)
    {
      var k :| 0 <= k < |pairs| && pairs[k] == p;
      assert r[k] in r;
      EdgeSetMembership(adj, p.0, p.1);
    }
    assert (set x | x in pairs) == EdgeSet(adj);
  }

  lemma RowwiseWithoutVertex(adj: Adjacency, r: Adjacency, x: int)
    requires x !in adj && r.Keys == adj.Keys
    requires forall u :: u in r ==> r[u] == adj[u] - {x}
    ensures r == WithoutVertex(adj, x)
  {
    ghost var expected := WithoutVertex(adj, x);
    assert r.Keys == expected.Keys;
  }

  /** Erases `x` from every row, visiting the rows in ascending key order;
      the row of `x` itself is already gone. */
  method EraseTarget(adj: Adjacency, x: int) returns (r: Adjacency)
    requires x !in adj
    ensures r == WithoutVertex(adj, x)
  {
    r := adj;
    var sources := AscendingOrder(adj.Keys);
    ghost var done: set<int> := {};
    for i := 0 to |sources|
      invariant r.Keys == adj.Keys
      invariant forall k :: 0 <= k < i ==> sources[k] in done
      invariant forall u :: u in r ==> r[u] == if u in done then adj[u] - {x} else adj[u]
    {
      assert sources[i] in sources;
      r := r[sources[i] := r[sources[i]] - {x}];
      done := done + {sources[i]};
    }
    forall u | u in r
      ensures r[u] == adj[u] - {x}
    {
      var k :| 0 <= k < |sources| && sources[k] == u;
    }
    RowwiseWithoutVertex(adj, r, x);
  }

  // ----- Three-colour depth-first search -----

  /** 0, 1 and 2 of the visit map: unvisited, on the current path, finished. */
  datatype Color = White | Gray | Black

  ghost function Whites(visited: map<int, Color>): set<int> {
    set u | u in visited && visited[u] == White
  }

  /** The gray vertices are exactly those on the current DFS path. */
  ghost predicate GrayIsPath(visited: map<int, Color>, path: seq<int>) {
    (forall k :: 0 <= k < |path| ==> path[k] in visited) &&
    forall u :: u in visited ==> (visited[u] == Gray <==> u in path)
  }

  /** Every finished vertex has only finished successors, each finished
      earlier: the ordering that rules out a cycle through black vertices. */
  ghost predicate BlackClosed(adj: Adjacency, visited: map<int, Color>, finish: map<int, nat>) {
    (forall u :: u in visited && visited[u] == Black ==> u in finish) &&
    forall u, w :: u in visited && visited[u] == Black && w in Row(adj, u) ==>
      u in finish && w in visited && visited[w] == Black && w in finish && finish[w] < finish[u]
  }

  /** Finishing a gray vertex whose successors are all finished keeps the
      search invariants, with the vertex finished at the current time. */
  lemma Blacken(adj: Adjacency, visited: map<int, Color>, finish: map<int, nat>, time: nat,
                v: int, path: seq<int>)
    requires v in visited && v !in path
    requires GrayIsPath(visited, path + [v])
    requires BlackClosed(adj, visited, finish)
    requires forall u :: u in finish ==> finish[u] < time
    requires forall w :: w in Row(adj, v) ==> w in visited && visited[w] == Black
    ensures GrayIsPath(visited[v := Black], path)
    ensures BlackClosed(adj, visited[v := Black], finish[v := time])
    ensures Whites(visited[v := Black]) <= Whites(visited)
  {
    var visited', finish' := visited[v := Black], finish[v := time];
    forall k | 0 <= k < |path|
      ensures path[k] in visited'
    {
      assert path[k] == (path + [v])[k];
    }
    forall u | u in visited'
      ensures visited'[u] == Gray <==> u in path
    {
      assert u in path + [v] <==> u in path || u == v;
    }
    forall u | u in Whites(visited')
      ensures u in Whites(visited)
    {
    }
  }

  /** Along a walk that starts at a finished vertex every vertex is finished
      and the finishing times fall by at least one per edge. */
  lemma {:induction false} WalkFinishDecreases(adj: Adjacency, visited: map<int, Color>,
                                               finish: map<int, nat>, p: seq<int>, k: nat)
    requires BlackClosed(adj, visited, finish)
    requires IsWalk(adj, p) && 0 <= k < |p|
    requires p[0] in visited && visited[p[0]] == Black
    ensures p[k] in visited && visited[p[k]] == Black && p[k] in finish
    ensures p[0] in finish && finish[p[k]] + k <= finish[p[0]]
  {
    var first := p[0];
    assert first in visited;
    if k > 0 {
      WalkFinishDecreases(adj, visited, finish, p, k - 1);
      var u, w := p[k - 1], p[k];
      assert HasEdge(adj, u, w);
      assert w in Row(adj, u);
    }
  }

  /** When every vertex with an outgoing edge is finished and finishing
      times respect the edges, the graph has no cycle. */
  lemma BlackClosedAcyclic(adj: Adjacency, visited: map<int, Color>, finish: map<int, nat>)
    requires BlackClosed(adj, visited, finish)
    requires forall u :: u in adj ==> u in visited && visited[u] == Black
    ensures !Cyclic(adj)
  {
    if Cyclic(adj) {
      var p :| IsWalk(adj, p) && |p| >= 2 && p[0] == p[|p| - 1];
      assert HasEdge(adj, p[0], p[1]);
      WalkFinishDecreases(adj, visited, finish, p, |p| - 1);
      assert false;
    }
  }

  /** A gray successor closes a cycle: the path from it to the current vertex,
      plus the edge back. */
  lemma GrayClosesCycle(adj: Adjacency, path: seq<int>, w: int)
    requires IsWalk(adj, path) && path != []
    requires HasEdge(adj, path[|path| - 1], w)
    requires w in path
    ensures Cyclic(adj)
  {
    var i :| 0 <= i < |path| && path[i] == w;
    WalkSuffix(adj, path, i);
    var cycle := path[i..] + [w];
    WalkExtend(adj, path[i..], w);
    assert IsWalk(adj, cycle) && |cycle| >= 2 && cycle[0] == cycle[|cycle| - 1];
  }

  /** A proper subset of a finite set is smaller. */
  lemma SubsetCard<T>(a: set<T>, b: set<T>)
    requires a <= b
    ensures |a| <= |b|
  {
    assert b == a + (b - a);
  }


  // ----- Kahn's algorithm -----

  /** The vertices with no incoming edge: the ones the queue is seeded with. */
  ghost function ZeroInDegree(adj: Adjacency, vertexIds: set<int>): set<int> {
    set v | v in vertexIds && |PredsIn(adj, v, vertexIds)| == 0
  }

  /** The indices of a sequence enumerate exactly its elements. */
  lemma Enumerates(s: seq<int>, elements: set<int>)
    requires forall x :: x in s <==> x in elements
    ensures elements == set k | 0 <= k < |s| :: s[k]
  {
    forall k | 0 <= k < |s|
      ensures s[k] in elements
    {
      var x := s[k];
      assert x in s;
    }
    forall x | x in elements
      ensures x in set k | 0 <= k < |s| :: s[k]
    {
      var k :| 0 <= k < |s| && s[k] == x;
    }
  }

  /** Extending the set of visited elements of an increasing sequence by
      one more element adds an element not yet visited. */
  lemma PrefixStep(s: seq<int>, i: int, done: set<int>)
    requires Increasing(s) && 0 <= i < |s|
    requires done == set k | 0 <= k < i :: s[k]
    ensures s[i] !in done
    ensures done + {s[i]} == set k | 0 <= k < i + 1 :: s[k]
  {
  }

  /** Dropping the first unvisited element of an increasing sequence from
      the set of unvisited ones. */
  lemma SuffixStep(s: seq<int>, j: int, pending: set<int>)
    requires Increasing(s) && 0 <= j < |s|
    requires pending == set k | j <= k < |s| :: s[k]
    ensures s[j] in pending
    ensures pending - {s[j]} == set k | j + 1 <= k < |s| :: s[k]
  {
  }

  /** Appending an element that is not yet present keeps a sequence free of
      duplicates. */
  lemma AppendFresh(emitted: seq<int>, queue: seq<int>, t: int)
    requires Distinct(emitted + queue) && t !in emitted + queue
    ensures emitted + (queue + [t]) == (emitted + queue) + [t]
    ensures Distinct(emitted + (queue + [t]))
    ensures forall v :: v in emitted + (queue + [t]) <==> v in emitted + queue || v == t
  {
    assert emitted + (queue + [t]) == (emitted + queue) + [t];
  }

  /** Only vertices with a row can be predecessors. */
  lemma PredsAmongSources(adj: Adjacency, vertexIds: set<int>)
    requires WellFormed(adj, vertexIds)
    ensures forall v :: PredsIn(adj, v, adj.Keys) == PredsIn(adj, v, vertexIds)
  {
  }

  /** The inner loop of the in-degree count: one unit for each target of
      the row of `u`. */
  method CountRow(adj: Adjacency, vertexIds: set<int>, u: int, inDegree: map<int, int>, ghost done: set<int>)
    returns (inDegree': map<int, int>)
    requires WellFormed(adj, vertexIds)
    requires u in adj && u !in done
    requires inDegree.Keys == vertexIds
    requires forall v :: v in vertexIds ==> inDegree[v] == |PredsIn(adj, v, done)|
    ensures inDegree'.Keys == vertexIds
    ensures forall v :: v in vertexIds ==> inDegree'[v] == |PredsIn(adj, v, done + {u})|
  {
    inDegree' := inDegree;
    var targets := AscendingOrder(adj[u].Keys);
    ghost var seen: set<int> := {};
    for j := 0 to |targets|
      invariant inDegree'.Keys == vertexIds
      invariant seen == set k | 0 <= k < j :: targets[k]
      invariant forall v :: v in vertexIds ==> inDegree'[v] == |PredsIn(adj, v, done)| + (if v in seen then 1 else 0)
    {
      var t := targets[j];
      assert t in targets;
      PrefixStep(targets, j, seen);
      inDegree' := inDegree'[t := inDegree'[t] + 1];
      seen := seen + {t};
    }
    Enumerates(targets, adj[u].Keys);
    forall v | v in vertexIds
      ensures |PredsIn(adj, v, done + {u})| == |PredsIn(adj, v, done)| + (if v in seen then 1 else 0)
    {
      PredsRemove(adj, v, done + {u}, u);
      assert done + {u} - {u} == done;
    }
  }

  /** Starts every vertex at 0, then adds one per incoming edge, walking the
      edges row by row in key order. */
  method InDegrees(adj: Adjacency, vertexIds: set<int>) returns (inDegree: map<int, int>)
    requires WellFormed(adj, vertexIds)
    ensures inDegree.Keys == vertexIds
    ensures forall v :: v in vertexIds ==> inDegree[v] == |PredsIn(adj, v, vertexIds)|
  {
    inDegree := map v | v in vertexIds :: 0;
    var sources := AscendingOrder(adj.Keys);
    ghost var done: set<int> := {};
    for i := 0 to |sources|
      invariant inDegree.Keys == vertexIds
      invariant done == set k | 0 <= k < i :: sources[k]
      invariant forall v :: v in vertexIds ==> inDegree[v] == |PredsIn(adj, v, done)|
    {
      var u := sources[i];
      assert u in sources;
      PrefixStep(sources, i, done);
      inDegree := CountRow(adj, vertexIds, u, inDegree, done);
      done := done + {u};
    }
    Enumerates(sources, adj.Keys);
    PredsAmongSources(adj, vertexIds);
  }

  /** The vertices of in-degree zero, in ascending key order. */
  method ZeroInDegreeOrder(inDegree: map<int, int>) returns (queue: seq<int>)
    ensures Increasing(queue)
    ensures forall v :: v in queue <==> v in inDegree && inDegree[v] == 0
  {
    queue := [];
    var keys := AscendingOrder(inDegree.Keys);
    for i := 0 to |keys|
      invariant forall v :: v in queue <==> v in inDegree && inDegree[v] == 0 && v in keys[..i]
      invariant forall k :: 0 <= k < |queue| ==> queue[k] in keys[..i]
      invariant Increasing(queue)
    {
      var v := keys[i];
      assert v in keys;
      if inDegree[v] == 0 {
        queue := queue + [v];
      }
      assert keys[..i + 1] == keys[..i] + [v];
    }
    assert keys[..|keys|] == keys;
  }

  /** The bookkeeping of Kahn's loop: the in-degree of a vertex counts its
      predecessors not yet emitted (`rem`), plus one for each pending
      decrement; the emitted vertices and the queue are distinct vertices,
      and they are exactly the vertices of in-degree zero. */
  ghost predicate KahnState(adj: Adjacency, vertexIds: set<int>, rem: set<int>, pending: set<int>,
                            inDegree: map<int, int>, emitted: seq<int>, queue: seq<int>)
  {
    inDegree.Keys == vertexIds &&
    (forall v :: v in vertexIds ==> inDegree[v] == |PredsIn(adj, v, rem)| + (if v in pending then 1 else 0)) &&
    Distinct(emitted + queue) &&
    (forall v :: v in emitted + queue ==> v in vertexIds) &&
    (forall v :: v in vertexIds ==> (v in emitted + queue <==> inDegree[v] == 0))
  }

  /** One step of the inner loop: decrement the in-degree of `t` and queue
      it when it reaches zero. */
  method DecrementInDegree(adj: Adjacency, vertexIds: set<int>, t: int, inDegree: map<int, int>,
                           queue: seq<int>, ghost emitted: seq<int>, ghost rem: set<int>, ghost pending: set<int>)
    returns (inDegree': map<int, int>, queue': seq<int>)
    requires t in pending && t in vertexIds
    requires KahnState(adj, vertexIds, rem, pending, inDegree, emitted, queue)
    ensures KahnState(adj, vertexIds, rem, pending - {t}, inDegree', emitted, queue')
    ensures queue <= queue'
  {
    inDegree' := inDegree[t := inDegree[t] - 1];
    queue' := queue;
    if inDegree'[t] == 0 {
      AppendFresh(emitted, queue, t);
      queue' := queue + [t];
    }
  }

  /** The inner loop of Kahn's algorithm: `x` has just been emitted; each
      successor, in ascending order, loses one unit of in-degree and joins
      the queue when it reaches zero. */
  method ReleaseSuccessors(adj: Adjacency, vertexIds: set<int>, x: int, inDegree: map<int, int>,
                           queue: seq<int>, ghost emitted: seq<int>, ghost rem: set<int>)
    returns (inDegree': map<int, int>, queue': seq<int>)
    requires WellFormed(adj, vertexIds)
    requires x in vertexIds && x !in rem
    requires KahnState(adj, vertexIds, rem + {x}, {}, inDegree, emitted, queue)
    ensures KahnState(adj, vertexIds, rem, {}, inDegree', emitted, queue')
    ensures queue <= queue'
  {
    inDegree', queue' := inDegree, queue;
    var targets := AscendingOrder(Row(adj, x).Keys);
    ghost var pending: set<int> := Row(adj, x).Keys;
    Enumerates(targets, pending);
    forall v | v in vertexIds
      ensures inDegree[v] == |PredsIn(adj, v, rem)| + (if v in pending then 1 else 0)
    {
      PredsRemove(adj, v, rem + {x}, x);
      assert rem + {x} - {x} == rem;
    }
    for j := 0 to |targets|
      invariant pending == set k | j <= k < |targets| :: targets[k]
      invariant KahnState(adj, vertexIds, rem, pending, inDegree', emitted, queue')
      invariant queue <= queue'
    {
      var t := targets[j];
      assert t in targets;
      SuffixStep(targets, j, pending);
      inDegree', queue' := DecrementInDegree(adj, vertexIds, t, inDegree', queue', emitted, rem, pending);
      pending := pending - {t};
    }
  }

  /** Every edge between two vertices of `s` goes forward in `s`. */
  ghost predicate PredecessorsFirst(adj: Adjacency, s: seq<int>) {
    forall i, j :: 0 <= i < |s| && 0 <= j < |s| && HasEdge(adj, s[j], s[i]) ==> j < i
  }

  /** Emitting the head of the queue keeps every emitted vertex after all of
      its predecessors: the head has no predecessor left outside the output,
      and no emitted vertex has a predecessor still waiting. */
  lemma EmitKeepsOrder(adj: Adjacency, vertexIds: set<int>, rem: set<int>, inDegree: map<int, int>,
                       result: seq<int>, queue: seq<int>)
    requires WellFormed(adj, vertexIds)
    requires KahnState(adj, vertexIds, rem, {}, inDegree, result, queue) && queue != []
    requires forall v :: v in rem <==> v in vertexIds && v !in result
    requires PredecessorsFirst(adj, result)
    ensures queue[0] in rem
    ensures PredecessorsFirst(adj, result + [queue[0]])
  {
    var x := queue[0];
    assert x in result + queue;
    DistinctHalves(result, queue);
    var r := result + [x];
    forall i, j | 0 <= i < |r| && 0 <= j < |r| && HasEdge(adj, r[j], r[i])
      ensures j < i
    {
      if i < |result| && j < |result| {
        assert r[i] == result[i] && r[j] == result[j];
      }
    }
  }

  /** One round of the outer loop of Kahn's algorithm: pop the head of the
      queue, append it to the output and release its successors. */
  method EmitHead(adj: Adjacency, vertexIds: set<int>, inDegree: map<int, int>, queue: seq<int>,
                  result: seq<int>, ghost rem: set<int>)
    returns (inDegree': map<int, int>, queue': seq<int>, result': seq<int>, ghost rem': set<int>)
    requires WellFormed(adj, vertexIds) && queue != []
    requires KahnState(adj, vertexIds, rem, {}, inDegree, result, queue)
    requires forall v :: v in rem <==> v in vertexIds && v !in result
    requires PredecessorsFirst(adj, result)
    ensures KahnState(adj, vertexIds, rem', {}, inDegree', result', queue')
    ensures forall v :: v in rem' <==> v in vertexIds && v !in result'
    ensures PredecessorsFirst(adj, result')
    ensures result + queue <= result' + queue'
    ensures |rem'| < |rem|
  {
    EmitKeepsOrder(adj, vertexIds, rem, inDegree, result, queue);
    var x := queue[0];
    var rest := queue[1..];
    assert (result + [x]) + rest == result + queue;
    result' := result + [x];
    rem' := rem - {x};
    assert rem' + {x} == rem;
    inDegree', queue' := ReleaseSuccessors(adj, vertexIds, x, inDegree, rest, result', rem');
    assert result' + rest <= result' + queue';
  }

  /** The fallback of the sort: when the queue did not emit every vertex,
      every vertex not yet in the output is appended, in ascending order. */
  method CompleteOrder(vertexIds: set<int>, result: seq<int>, ghost rem: set<int>) returns (order: seq<int>)
    requires Distinct(result)
    requires forall v :: v in result ==> v in vertexIds
    requires forall v :: v in rem <==> v in vertexIds && v !in result
    ensures result <= order
    ensures rem == {} ==> order == result
    ensures Distinct(order)
    ensures forall v :: v in order <==> v in vertexIds
    ensures Increasing(order[|result|..])
    ensures forall v :: v in order[|result|..] <==> v in rem
  {
    order := result;
    LeftoversEmpty(vertexIds, result, rem);
    if |result| == |vertexIds| {
      assert order[|result|..] == [];
      return;
    }
    var all := AscendingOrder(vertexIds);
    for i := 0 to |all|
      invariant |order| >= |result| && order[..|result|] == result
      invariant Distinct(order)
      invariant forall v :: v in order[|result|..] <==> v in rem && v in all[..i]
      invariant forall v :: v in order <==> v in result || v in order[|result|..]
      invariant Increasing(order[|result|..])
      invariant forall k :: |result| <= k < |order| ==> forall l :: i <= l < |all| ==> order[k] < all[l]
    {
      var v := all[i];
      assert v in all;
      assert all[..i + 1] == all[..i] + [v];
      if v !in order {
        assert order[|result|..] + [v] == (order + [v])[|result|..];
        order := order + [v];
      }
    }
    assert all[..|all|] == all;
  }

  /** Nothing is left over exactly when the queue emitted as many vertices
      as there are. */
  lemma LeftoversEmpty(vertexIds: set<int>, result: seq<int>, rem: set<int>)
    requires Distinct(result)
    requires forall v :: v in result ==> v in vertexIds
    requires forall v :: v in rem <==> v in vertexIds && v !in result
    ensures rem == {} <==> |result| == |vertexIds|
  {
    DistinctCard(result);
    if rem == {} {
      assert (set x | x in result) == vertexIds;
    } else {
      var v := Element(rem);
      forall x | x in result
        ensures x in vertexIds - {v}
      {
      }
      DistinctLength(result, vertexIds - {v});
    }
  }

  /** The queue is seeded with the vertices of in-degree zero, in ascending
      order, and nothing has been emitted yet. */
  lemma KahnStart(adj: Adjacency, vertexIds: set<int>, inDegree: map<int, int>, queue: seq<int>)
    requires inDegree.Keys == vertexIds
    requires forall v :: v in vertexIds ==> inDegree[v] == |PredsIn(adj, v, vertexIds)|
    requires Increasing(queue)
    requires forall v :: v in queue <==> v in inDegree && inDegree[v] == 0
    ensures KahnState(adj, vertexIds, vertexIds, {}, inDegree, [], queue)
    ensures forall v :: v in queue <==> v in ZeroInDegree(adj, vertexIds)
  {
    IncreasingIsDistinct(queue);
    assert [] + queue == queue;
  }

  /** What the final state of the loop says, in terms of the output and the
      set of vertices never emitted. */
  lemma KahnFinish(adj: Adjacency, vertexIds: set<int>, rem: set<int>, inDegree: map<int, int>, result: seq<int>)
    requires KahnState(adj, vertexIds, rem, {}, inDegree, result, [])
    requires forall v :: v in rem <==> v in vertexIds && v !in result
    ensures Distinct(result)
    ensures forall v :: v in result ==> v in vertexIds
    ensures forall v :: v in rem ==> PredsIn(adj, v, rem) != {}
    ensures forall u, v :: u in rem && v in result ==> !HasEdge(adj, u, v)
  {
    assert result + [] == result;
    forall v | v in rem
      ensures PredsIn(adj, v, rem) != {}
    {
      assert inDegree[v] != 0;
    }
    forall u, v | u in rem && v in result
      ensures !HasEdge(adj, u, v)
    {
      assert inDegree[v] == 0;
      assert u !in PredsIn(adj, v, rem);
    }
  }

  /** The outer loop of Kahn's algorithm: emits vertices from the front of
      the queue until it runs dry. `rem` is the set of vertices never
      emitted. */
  method KahnLoop(adj: Adjacency, vertexIds: set<int>, inDegree0: map<int, int>, queue0: seq<int>)
    returns (result: seq<int>, ghost rem: set<int>, inDegree: map<int, int>)
    requires WellFormed(adj, vertexIds)
    requires KahnState(adj, vertexIds, vertexIds, {}, inDegree0, [], queue0)
    ensures KahnState(adj, vertexIds, rem, {}, inDegree, result, [])
    ensures forall v :: v in rem <==> v in vertexIds && v !in result
    ensures queue0 <= result
    ensures PredecessorsFirst(adj, result)
  {
    var queue := queue0;
    inDegree := inDegree0;
    result := [];
    rem := vertexIds;
    assert [] + queue == queue;
    while queue != []
      invariant KahnState(adj, vertexIds, rem, {}, inDegree, result, queue)
      invariant forall v :: v in rem <==> v in vertexIds && v !in result
      invariant queue0 <= result + queue
      invariant PredecessorsFirst(adj, result)
      decreases |rem|
    {
      ghost var before := result + queue;
      inDegree, queue, result, rem := EmitHead(adj, vertexIds, inDegree, queue, result, rem);
      assert queue0 <= before <= result + queue;
    }
    assert result + queue == result;
  }

  /** `topologicalSort` up to the fallback: Kahn's algorithm with a
      first-in first-out queue seeded with the vertices of in-degree zero in
      ascending order. */
  method Kahn(adj: Adjacency, vertexIds: set<int>) returns (result: seq<int>, ghost rem: set<int>, ghost seeded: nat)
    requires WellFormed(adj, vertexIds)
    ensures Distinct(result)
    ensures forall v :: v in rem <==> v in vertexIds && v !in result
    ensures forall v :: v in result ==> v in vertexIds
    ensures seeded <= |result| && Increasing(result[..seeded])
    ensures forall v :: v in result[..seeded] <==> v in ZeroInDegree(adj, vertexIds)
    ensures PredecessorsFirst(adj, result)
    ensures forall v :: v in rem ==> PredsIn(adj, v, rem) != {}
    ensures forall u, v :: u in rem && v in result ==> !HasEdge(adj, u, v)
  {
    var inDegree := InDegrees(adj, vertexIds);
    var queue := ZeroInDegreeOrder(inDegree);
    KahnStart(adj, vertexIds, inDegree, queue);
    seeded := |queue|;
    result, rem, inDegree := KahnLoop(adj, vertexIds, inDegree, queue);
    assert result[..seeded] == queue;
    KahnFinish(adj, vertexIds, rem, inDegree, result);
  }

  /** The leftovers each have a predecessor among the leftovers, so on a
      graph without a cycle there are none. */
  lemma LeftoversOnCycle(adj: Adjacency, rem: set<int>)
    requires forall v :: v in rem ==> PredsIn(adj, v, rem) != {}
    ensures !Cyclic(adj) ==> rem == {}
  {
    if rem != {} {
      PredecessorClosedCycle(adj, rem);
    }
  }

  /** The vertices the queue emitted come after all of their predecessors,
      including the leftovers appended behind them. */
  lemma EmittedAfterPredecessors(adj: Adjacency, rem: set<int>, result: seq<int>, order: seq<int>)
    requires forall u, v :: u in rem && v in result ==> !HasEdge(adj, u, v)
    requires PredecessorsFirst(adj, result)
    requires result <= order
    requires forall v :: v in order[|result|..] <==> v in rem
    ensures forall i, j :: 0 <= i < |result| && 0 <= j < |order| && HasEdge(adj, order[j], order[i]) ==> j < i
  {
    forall i, j | 0 <= i < |result| && 0 <= j < |order| && HasEdge(adj, order[j], order[i])
      ensures j < i
    {
      assert order[i] == result[i];
      if j < |result| {
        assert order[j] == result[j];
      }
    }
  }

  /** The edges leaving `u`, as connections in ascending target order. */
  method RowConnections(adj: Adjacency, u: int) returns (row: seq<Connection>)
    requires u in adj
    ensures forall a, b :: 0 <= a < b < |row| ==> row[a].to < row[b].to
    ensures forall a :: 0 <= a < |row| ==> row[a].from == u
    ensures forall c :: c in row <==> Describes(adj, c) && c.from == u
  {
    row := [];
    var targets := AscendingOrder(adj[u].Keys);
    for j := 0 to |targets|
      invariant forall a, b :: 0 <= a < b < |row| ==> row[a].to < row[b].to
      invariant forall a :: 0 <= a < |row| ==> row[a].from == u
      invariant forall c :: c in row <==> Describes(adj, c) && c.from == u && c.to in targets[..j]
      invariant forall a :: 0 <= a < |row| ==> forall l :: j <= l < |targets| ==> row[a].to < targets[l]
    {
      var w := targets[j];
      assert targets[..j + 1] == targets[..j] + [w];
      row := row + [Connection(u, w, adj[u][w].pipeId)];
    }
    assert targets[..|targets|] == targets;
  }

  /** Appending the row of `u` to connections that all leave smaller
      vertices keeps the (from, to) order. */
  lemma AppendSorted(r: seq<Connection>, row: seq<Connection>, u: int)
    requires forall a, b :: 0 <= a < b < |r| ==> ConnectionLess(r[a], r[b])
    requires forall a :: 0 <= a < |r| ==> r[a].from < u
    requires forall a, b :: 0 <= a < b < |row| ==> row[a].to < row[b].to
    requires forall a :: 0 <= a < |row| ==> row[a].from == u
    ensures forall a, b :: 0 <= a < b < |r + row| ==> ConnectionLess((r + row)[a], (r + row)[b])
  {
  }

  /** `dfsCycleCheck`: colours `v` gray, explores its successors, and
      unless a cycle turned up colours `v` black. `path` is the current gray
      path (ghost); `finish` and `time` record finishing order (ghost). */
  method DfsCycleCheck(adj: Adjacency, vertexIds: set<int>, v: int, visited: map<int, Color>,
                       ghost path: seq<int>, ghost finish: map<int, nat>, ghost time: nat)
    returns (found: bool, visited': map<int, Color>, ghost finish': map<int, nat>, ghost time': nat)
    requires WellFormed(adj, vertexIds)
    requires visited.Keys == vertexIds
    requires v in visited && visited[v] == White
    requires IsWalk(adj, path + [v])
    requires GrayIsPath(visited, path)
    requires BlackClosed(adj, visited, finish)
    requires forall u :: u in finish ==> finish[u] < time
    ensures found ==> Cyclic(adj)
    ensures !found ==> visited'.Keys == visited.Keys && visited'[v] == Black
    ensures !found ==> GrayIsPath(visited', path)
    ensures !found ==> Whites(visited') <= Whites(visited)
    ensures !found ==> forall u :: u in visited && visited[u] == Black ==> visited'[u] == Black
    ensures !found ==> BlackClosed(adj, visited', finish')
    ensures !found ==> forall u :: u in finish' ==> finish'[u] < time'
    decreases |Whites(visited)|, 1
  {
    var gray := visited[v := Gray];
    assert Whites(gray) == Whites(visited) - {v};
    found, visited', finish', time' := ExploreSuccessors(adj, vertexIds, v, gray, path + [v], finish, time);
    if found {
      return;
    }
    Blacken(adj, visited', finish', time', v, path);
    visited' := visited'[v := Black];
    finish' := finish'[v := time'];
    time' := time' + 1;
  }

  /** The loop of `dfsCycleCheck` over the successors of the gray vertex `v`,
      in ascending order: a gray successor closes a cycle, a white one is
      searched recursively, a black one is skipped. */
  method ExploreSuccessors(adj: Adjacency, vertexIds: set<int>, v: int, visited: map<int, Color>,
                           ghost here: seq<int>, ghost finish: map<int, nat>, ghost time: nat)
    returns (found: bool, visited': map<int, Color>, ghost finish': map<int, nat>, ghost time': nat)
    requires WellFormed(adj, vertexIds)
    requires visited.Keys == vertexIds
    requires here != [] && here[|here| - 1] == v
    requires IsWalk(adj, here)
    requires GrayIsPath(visited, here)
    requires BlackClosed(adj, visited, finish)
    requires forall u :: u in finish ==> finish[u] < time
    ensures found ==> Cyclic(adj)
    ensures !found ==> visited'.Keys == visited.Keys
    ensures !found ==> GrayIsPath(visited', here)
    ensures !found ==> Whites(visited') <= Whites(visited)
    ensures !found ==> forall u :: u in visited && visited[u] == Black ==> visited'[u] == Black
    ensures !found ==> BlackClosed(adj, visited', finish')
    ensures !found ==> forall u :: u in finish' ==> finish'[u] < time'
    ensures !found ==> forall w :: w in Row(adj, v) ==> w in visited' && visited'[w] == Black
    decreases |Whites(visited)| + 1, 0
  {
    visited', finish', time' := visited, finish, time;
    found := false;
    var successors := AscendingOrder(Row(adj, v).Keys);
    for j := 0 to |successors|
      invariant visited'.Keys == visited.Keys
      invariant GrayIsPath(visited', here)
      invariant BlackClosed(adj, visited', finish')
      invariant forall u :: u in finish' ==> finish'[u] < time'
      invariant Whites(visited') <= Whites(visited)
      invariant forall u :: u in visited && visited[u] == Black ==> visited'[u] == Black
      invariant forall k :: 0 <= k < j ==> successors[k] in visited' && visited'[successors[k]] == Black
    {
      var w := successors[j];
      assert w in successors;
      assert HasEdge(adj, v, w);
      if visited'[w] == White {
        WalkExtend(adj, here, w);
        SubsetCard(Whites(visited'), Whites(visited));
        found, visited', finish', time' := DfsCycleCheck(adj, vertexIds, w, visited', here, finish', time');
        if found {
          return;
        }
      } else if visited'[w] == Gray {
        GrayClosesCycle(adj, here, w);
        return true, visited', finish', time';
      }
    }
    forall w | w in Row(adj, v)
      ensures w in visited' && visited'[w] == Black
    {
      assert w in successors;
    }
  }

  class Graph {
    var adjacency: Adjacency
    var vertexIds: set<int>

    /** Every edge endpoint is a vertex, and there are no self-loops. */
    ghost predicate Valid()
      reads this
    {
      WellFormed(adjacency, vertexIds)
    }

    constructor ()
      ensures Valid() && adjacency == map[] && vertexIds == {}
    {
      adjacency := map[];
      vertexIds := {};
    }

    /** Inserts the edge from -> to. Refused, with no change, for a
        self-connection or an edge that already exists; otherwise both
        endpoints become vertices. */
    method AddConnection(from: int, to: int, pipeId: int, diameter: int) returns (ok: bool)
      requires Valid()
      modifies this
      ensures Valid()
      ensures ok <==> from != to && !HasEdge(old(adjacency), from, to)
      ensures ok ==> adjacency == Added(old(adjacency), from, to, Edge(pipeId, diameter))
                     && vertexIds == old(vertexIds) + {from, to}
      ensures !ok ==> adjacency == old(adjacency) && vertexIds == old(vertexIds)
    {
      if from == to {
        return false;
      }
      if from in adjacency && to in adjacency[from] {
        return false;
      }
      adjacency := adjacency[from := Row(adjacency, from)[to := Edge(pipeId, diameter)]];
      vertexIds := vertexIds + {from, to};
      ok := true;
    }

    /** Erases the edge from -> to if present, pruning a row left empty;
        the vertex set never changes. */
    method RemoveConnection(from: int, to: int) returns (ok: bool)
      requires Valid()
      modifies this
      ensures Valid()
      ensures ok <==> HasEdge(old(adjacency), from, to)
      ensures ok ==> adjacency == Removed(old(adjacency), from, to)
      ensures !ok ==> adjacency == old(adjacency)
      ensures vertexIds == old(vertexIds)
    {
      if from in adjacency {
        if to in adjacency[from] {
          var row := adjacency[from] - {to};
          if row == map[] {
            adjacency := adjacency - {from};
          } else {
            adjacency := adjacency[from := row];
          }
          return true;
        }
      }
      return false;
    }

    /** Erases the row of `x`, then erases `x` from every remaining row (one
        row at a time, in key order), then forgets the vertex. */
    method RemoveVertex(x: int)
      requires Valid()
      modifies this
      ensures Valid()
      ensures adjacency == WithoutVertex(old(adjacency), x)
      ensures vertexIds == old(vertexIds) - {x}
    {
      adjacency := EraseTarget(adjacency - {x}, x);
      assert WithoutVertex(old(adjacency) - {x}, x) == WithoutVertex(old(adjacency), x);
      vertexIds := vertexIds - {x};
    }

    method AddVertex(x: int)
      requires Valid()
      modifies this
      ensures Valid()
      ensures vertexIds == old(vertexIds) + {x} && adjacency == old(adjacency)
    {
      vertexIds := vertexIds + {x};
    }

    function VertexExists(x: int): (r: bool)
      reads this
      ensures r <==> x in vertexIds
    {
      x in vertexIds
    }

    method Clear()
      modifies this
      ensures Valid()
      ensures adjacency == map[] && vertexIds == {}
      ensures EdgeSet(adjacency) == {}
    {
      adjacency := map[];
      vertexIds := {};
    }

    /** The pipe id of edge from -> to, or -1 when there is no such edge.
        (An edge may itself carry -1; see the network's invariant.) */
    function GetPipeId(from: int, to: int): (r: int)
      reads this
      ensures !HasEdge(adjacency, from, to) ==> r == -1
      ensures HasEdge(adjacency, from, to) ==> r == adjacency[from][to].pipeId
      ensures r != -1 ==> Describes(adjacency, Connection(from, to, r))
    {
      PipeIdOf(adjacency, from, to)
    }

    /** True when the adjacency map has no rows, which implies there are no
        edges but is not implied by it. */
    function IsEmpty(): (r: bool)
      reads this
      ensures r ==> EdgeSet(adjacency) == {}
      ensures r <==> |adjacency| == 0
    {
      adjacency == map[]
    }

    function GetVertexCount(): (n: nat)
      reads this
      ensures n == |vertexIds|
    {
      |vertexIds|
    }

    /** Sums the sizes of the rows: the number of edges. */
    method GetEdgeCount() returns (count: nat)
      ensures count == |EdgeSet(adjacency)|
    {
      count := 0;
      var adj := adjacency;
      var sources := AscendingOrder(adj.Keys);
      ghost var done: set<int> := {};
      for i := 0 to |sources|
        invariant forall u :: u in done <==> u in sources[..i]
        invariant count == |EdgesFrom(adj, done)|
      {
        var u := sources[i];
        assert u !in sources[..i] by {
          assert forall k :: 0 <= k < i ==> sources[k] < u;
        }
        assert sources[..i + 1] == sources[..i] + [u];
        assert u in sources;
        EdgesFromStep(adj, done, u);
        count := count + |adj[u]|;
        done := done + {u};
      }
      assert sources[..|sources|] == sources;
      assert forall u :: u in done <==> u in adj.Keys;
      assert done == adj.Keys;
      EdgesFromAll(adj);
    }

    /** `getConnections`: every edge as a (from, to) pair, in ascending
        order. It is the traversal of `GetConnectionsWithPipe` with the pipe
        ids dropped. */
    method GetConnections() returns (r: seq<(int, int)>)
      ensures forall a, b :: 0 <= a < b < |r| ==> PairLess(r[a], r[b])
      ensures forall p: (int, int) :: p in r <==> HasEdge(adjacency, p.0, p.1)
      ensures |r| == |EdgeSet(adjacency)|
    {
      var withPipe := GetConnectionsWithPipe();
      r := seq(|withPipe|, k requires 0 <= k < |withPipe| => (withPipe[k].from, withPipe[k].to));
      forall p: (int, int) | HasEdge(adjacency, p.0, p.1)
        ensures p in r
      {
        var c := Connection(p.0, p.1, adjacency[p.0][p.1].pipeId);
        assert Describes(adjacency, c);
        var k :| 0 <= k < |withPipe| && withPipe[k] == c;
        assert r[k] == p;
      }
      forall p | p in r
        ensures HasEdge(adjacency, p.0, p.1)
      {
        var k :| 0 <= k < |r| && r[k] == p;
        assert withPipe[k] in withPipe;
      }
    }

    /** Every edge as (from, (to, pipeId)), in ascending (from, to) order. */
    method GetConnectionsWithPipe() returns (r: seq<Connection>)
      ensures forall a, b :: 0 <= a < b < |r| ==> ConnectionLess(r[a], r[b])
      ensures forall c :: c in r <==> Describes(adjacency, c)
      ensures |r| == |EdgeSet(adjacency)|
    {
      r := [];
      var sources := AscendingOrder(adjacency.Keys);
      for i := 0 to |sources|
        invariant forall a, b :: 0 <= a < b < |r| ==> ConnectionLess(r[a], r[b])
        invariant forall c :: c in r <==> Describes(adjacency, c) && c.from in sources[..i]
        invariant forall a :: 0 <= a < |r| ==> forall l :: i <= l < |sources| ==> r[a].from < sources[l]
      {
        var u := sources[i];
        assert sources[..i + 1] == sources[..i] + [u];
        var row := RowConnections(adjacency, u);
        AppendSorted(r, row, u);
        r := r + row;
      }
      assert sources[..|sources|] == sources;
      ConnectionsCount(adjacency, r);
    }

    /** `hasCycle`: runs the depth-first search from every still unvisited
        vertex, in ascending order. It reports a cycle exactly when the graph
        has one. */
    method HasCycle() returns (found: bool)
      requires Valid()
      ensures found <==> Cyclic(adjacency)
    {
      var visited: map<int, Color> := map u | u in vertexIds :: White;
      ghost var finish: map<int, nat> := map[];
      ghost var time: nat := 0;
      var roots := AscendingOrder(vertexIds);
      for i := 0 to |roots|
        invariant visited.Keys == vertexIds
        invariant GrayIsPath(visited, [])
        invariant BlackClosed(adjacency, visited, finish)
        invariant forall u :: u in finish ==> finish[u] < time
        invariant forall k :: 0 <= k < i ==> roots[k] in visited && visited[roots[k]] == Black
      {
        var u := roots[i];
        assert u in roots;
        if visited[u] == White {
          found, visited, finish, time := DfsCycleCheck(adjacency, vertexIds, u, visited, [], finish, time);
          if found {
            return;
          }
        }
      }
      forall u | u in adjacency
        ensures u in visited && visited[u] == Black
      {
        assert u in roots;
      }
      BlackClosedAcyclic(adjacency, visited, finish);
      found := false;
    }

    /** `topologicalSort`: Kahn's algorithm with a first-in first-out queue
        seeded with the vertices of in-degree zero in ascending order; when
        some vertices are never released (they lie on or behind a cycle) they
        are appended in ascending order. `released` is the number of vertices
        the queue emitted. */
    method TopologicalSort() returns (order: seq<int>, ghost released: nat, ghost seeded: nat)
      requires Valid()
      ensures Distinct(order)
      ensures forall v :: v in order <==> v in vertexIds
      ensures seeded <= released <= |order|
      ensures Increasing(order[..seeded])
      ensures forall v :: v in order[..seeded] <==> v in ZeroInDegree(adjacency, vertexIds)
      ensures forall i, j :: 0 <= i < released && 0 <= j < |order| && HasEdge(adjacency, order[j], order[i]) ==> j < i
      ensures Increasing(order[released..])
      ensures !Cyclic(adjacency) ==> released == |order|
      ensures !Cyclic(adjacency) ==> PredecessorsFirst(adjacency, order)
    {
      var adj, vs := adjacency, vertexIds;
      if vs == {} {
        order, released, seeded := [], 0, 0;
        assert ZeroInDegree(adj, vs) == {};
        assert order[released..] == [];
        return;
      }
      var result;
      ghost var rem;
      result, rem, seeded := Kahn(adj, vs);
      released := |result|;
      order := CompleteOrder(vs, result, rem);
      assert order[..seeded] == result[..seeded];
      LeftoversOnCycle(adj, rem);
      EmittedAfterPredecessors(adj, rem, result, order);
    }
  }
}

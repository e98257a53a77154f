/**
  Dijkstra's algorithm as the shortest-path search runs it: a map from each
  vertex to its list of outgoing arcs, a distance map with an infinite
  sentinel, a predecessor map with the sentinel -1, and a priority queue of
  (distance, vertex) pairs with lazy deletion of stale entries. An arc whose
  weight is `None` stands for the infinite weight of a pipe under repair: it
  can never improve a distance, so it is never relaxed.
 */
module Dijkstra {
  import opened Wrappers
  import opened Ordered

  datatype Arc = Arc(to: int, weight: Option<real>)

  type ArcMap = map<int, seq<Arc>>

  /** A tentative distance: a finite value or the infinite sentinel. */
  datatype Dist = Fin(d: real) | Inf

  /** The arcs leaving `u`; a vertex without an entry has none. */
  function Arcs(adj: ArcMap, u: int): seq<Arc> {
    if u in adj then adj[u] else []
  }

  /** Every finite weight is non-negative. */
  ghost predicate NonNegative(adj: ArcMap) {
    forall u, a :: u in adj && a in adj[u] && a.weight.Some? ==> a.weight.value >= 0.0
  }

  /** Both ends of every arc are among `vertices`. */
  ghost predicate Closed(adj: ArcMap, vertices: set<int>) {
    forall u, a :: u in adj && a in adj[u] ==> u in vertices && a.to in vertices
  }

  function Sum(ws: seq<real>): real {
    if ws == [] then 0.0 else Sum(ws[..|ws| - 1]) + ws[|ws| - 1]
  }

  /** `p` follows finite-weight arcs, the i-th of weight `ws[i]`. */
  ghost predicate IsWalk(adj: ArcMap, p: seq<int>, ws: seq<real>) {
    |p| == |ws| + 1 &&
    forall i :: 0 <= i < |ws| ==> Arc(p[i + 1], Some(ws[i])) in Arcs(adj, p[i])
  }

  ghost predicate WalkBetween(adj: ArcMap, p: seq<int>, ws: seq<real>, s: int, t: int) {
    IsWalk(adj, p, ws) && p[0] == s && p[|p| - 1] == t
  }

  /** No walk from `s` to `t` costs less than `d`. */
  ghost predicate LowerBound(adj: ArcMap, s: int, t: int, d: real) {
    forall p, ws :: WalkBetween(adj, p, ws, s, t) ==> d <= Sum(ws)
  }

  /** There is no walk from `s` to `t` at all. */
  ghost predicate Unreachable(adj: ArcMap, s: int, t: int) {
    forall p, ws :: !WalkBetween(adj, p, ws, s, t)
  }

  // ----- Sums and walks -----

  lemma SumAppend(ws: seq<real>, w: real)
    ensures Sum(ws + [w]) == Sum(ws) + w
  {
    assert (ws + [w])[..|ws|] == ws;
  }

  lemma {:induction false} SumPrepend(w: real, ws: seq<real>)
    ensures Sum([w] + ws) == w + Sum(ws)
    decreases |ws|
  {
    if ws != [] {
      var front := ws[..|ws| - 1];
      SumPrepend(w, front);
      assert ([w] + ws)[..|ws|] == [w] + front;
    }
  }

  /** With non-negative weights a prefix costs no more than the whole. */
  lemma {:induction false} SumPrefix(ws: seq<real>, k: nat)
    requires k <= |ws|
    requires forall i :: 0 <= i < |ws| ==> ws[i] >= 0.0
    ensures Sum(ws[..k]) <= Sum(ws)
    decreases |ws|
  {
    if k < |ws| {
      var front := ws[..|ws| - 1];
      SumPrefix(front, k);
      assert front[..k] == ws[..k];
    } else {
      assert ws[..k] == ws;
    }
  }

  lemma WalkWeightsNonNegative(adj: ArcMap, p: seq<int>, ws: seq<real>)
    requires NonNegative(adj) && IsWalk(adj, p, ws)
    ensures forall i :: 0 <= i < |ws| ==> ws[i] >= 0.0
  {
    forall i | 0 <= i < |ws|
      ensures ws[i] >= 0.0
    {
      assert Arc(p[i + 1], Some(ws[i])) in Arcs(adj, p[i]);
    }
  }

  lemma WalkPrefix(adj: ArcMap, p: seq<int>, ws: seq<real>, k: nat)
    requires IsWalk(adj, p, ws) && k < |p|
    ensures IsWalk(adj, p[..k + 1], ws[..k])
  {
    forall i | 0 <= i < k
      ensures Arc(p[..k + 1][i + 1], Some(ws[..k][i])) in Arcs(adj, p[..k + 1][i])
    {
      assert p[..k + 1][i + 1] == p[i + 1] && p[..k + 1][i] == p[i];
    }
  }

  /** The first position of `p` outside `settled`. */
  lemma FirstOutside(p: seq<int>, settled: set<int>) returns (k: nat)
    requires p != [] && p[|p| - 1] !in settled
    ensures k < |p| && p[k] !in settled
    ensures forall i :: 0 <= i < k ==> p[i] in settled
  {
    k := 0;
    while p[k] in settled
      invariant k < |p|
      invariant forall i :: 0 <= i < k ==> p[i] in settled
      decreases |p| - k
    {
      k := k + 1;
    }
  }

  // ----- The search state -----

  /** Settled vertices carry a finite distance no walk from the source beats. */
  ghost predicate Settled(adj: ArcMap, s: int, dist: map<int, Dist>, settled: set<int>) {
    forall x :: x in settled ==> x in dist && dist[x].Fin? && LowerBound(adj, s, x, dist[x].d)
  }

  /** Every finite arc out of a settled vertex has been relaxed. */
  ghost predicate Relaxed(adj: ArcMap, dist: map<int, Dist>, settled: set<int>) {
    forall x, a :: x in settled && a in Arcs(adj, x) && a.weight.Some? ==>
      x in dist && a.to in dist && dist[x].Fin? && dist[a.to].Fin? &&
      dist[a.to].d <= dist[x].d + a.weight.value
  }

  /** An unsettled vertex with a finite distance waits in the queue with it. */
  ghost predicate Frontier(dist: map<int, Dist>, settled: set<int>, queue: set<(real, int)>) {
    forall v :: v in dist && v !in settled && dist[v].Fin? ==> (dist[v].d, v) in queue
  }

  /** Queue entries never undercut the distance; those of settled vertices are stale. */
  ghost predicate QueueSound(dist: map<int, Dist>, settled: set<int>, queue: set<(real, int)>) {
    forall e :: e in queue ==>
      e.1 in dist && dist[e.1].Fin? && dist[e.1].d <= e.0 && (e.1 in settled ==> dist[e.1].d < e.0)
  }

  /** Vertices are settled in order of distance: no entry lies below a settled one. */
  ghost predicate Monotone(dist: map<int, Dist>, settled: set<int>, queue: set<(real, int)>) {
    forall x, e :: x in settled && e in queue ==> x in dist && dist[x].Fin? && dist[x].d <= e.0
  }

  ghost predicate NonNegativeDist(dist: map<int, Dist>) {
    forall v :: v in dist && dist[v].Fin? ==> dist[v].d >= 0.0
  }

  /** The finite distance of `v`, unless `v` is the source, is explained by
      an arc from a settled predecessor, which was settled before `v`. */
  ghost predicate Linked(adj: ArcMap, s: int, dist: map<int, Dist>, prev: map<int, int>,
                         settled: set<int>, rank: map<int, nat>, v: int) {
    v in dist && v != s && dist[v].Fin? ==>
      v in prev && prev[v] in settled && prev[v] in dist && dist[prev[v]].Fin? &&
      Arc(v, Some(dist[v].d - dist[prev[v]].d)) in Arcs(adj, prev[v]) &&
      (v in settled ==> prev[v] in rank && v in rank && rank[prev[v]] < rank[v])
  }

  ghost predicate Chain(adj: ArcMap, s: int, dist: map<int, Dist>, prev: map<int, int>,
                        settled: set<int>, rank: map<int, nat>) {
    forall v :: Linked(adj, s, dist, prev, settled, rank, v)
  }

  /** The fixed frame of the search: the vertex set, the source, the sentinel. */
  ghost predicate Frame(adj: ArcMap, vertices: set<int>, s: int, dist: map<int, Dist>,
                        prev: map<int, int>, settled: set<int>, rank: map<int, nat>) {
    dist.Keys == vertices && s in vertices && -1 !in vertices &&
    Closed(adj, vertices) && NonNegative(adj) &&
    settled <= vertices && rank.Keys == settled &&
    (forall x :: x in settled ==> rank[x] < |settled|) &&
    dist[s] == Fin(0.0) && (s !in prev || prev[s] == -1)
  }

  // ----- Settling the queue's minimum -----

  predicate IsMinEntry(e: (real, int), queue: set<(real, int)>) {
    e in queue && forall f :: f in queue ==> e.0 < f.0 || (e.0 == f.0 && e.1 <= f.1)
  }

  /** A priority queue ordered by (distance, id) has a smallest entry. */
  lemma {:induction false} MinEntryExists(queue: set<(real, int)>)
    requires queue != {}
    ensures exists e :: IsMinEntry(e, queue)
    decreases |queue|
  {
    var e := Element(queue);
    var rest := queue - {e};
    if rest == {} {
      assert queue == {e};
      assert IsMinEntry(e, queue);
    } else {
      MinEntryExists(rest);
      var m :| IsMinEntry(m, rest);
      if e.0 < m.0 || (e.0 == m.0 && e.1 <= m.1) {
        assert IsMinEntry(e, queue);
      } else {
        assert IsMinEntry(m, queue);
      }
    }
  }

  /** A walk from the source to a vertex outside the settled set leaves
      that set at some vertex `y`, which waits in the queue with a distance
      no larger than the cost of the whole walk. */
  lemma Escape(adj: ArcMap, s: int, dist: map<int, Dist>, settled: set<int>,
               queue: set<(real, int)>, p: seq<int>, ws: seq<real>) returns (y: int)
    requires NonNegative(adj) && s in dist && dist[s] == Fin(0.0)
    requires Settled(adj, s, dist, settled) && Relaxed(adj, dist, settled)
    requires Frontier(dist, settled, queue)
    requires IsWalk(adj, p, ws) && p[0] == s && p[|p| - 1] !in settled
    ensures y in dist && dist[y].Fin? && (dist[y].d, y) in queue && dist[y].d <= Sum(ws)
  {
    WalkWeightsNonNegative(adj, p, ws);
    var k := FirstOutside(p, settled);
    y := p[k];
    if k == 0 {
      SumPrefix(ws, 0);
      assert ws[..0] == [];
    } else {
      var x := p[k - 1];
      assert x in settled;
      WalkPrefix(adj, p, ws, k - 1);
      assert WalkBetween(adj, p[..k], ws[..k - 1], s, x);
      assert Arc(y, Some(ws[k - 1])) in Arcs(adj, x);
      SumAppend(ws[..k - 1], ws[k - 1]);
      assert ws[..k - 1] + [ws[k - 1]] == ws[..k];
      SumPrefix(ws, k);
    }
  }

  /** The heart of Dijkstra's argument: the smallest live entry of the queue
      carries the shortest distance to its vertex, since any walk to it
      passes a queued vertex first. */
  lemma PopIsOptimal(adj: ArcMap, vertices: set<int>, s: int, dist: map<int, Dist>,
                     prev: map<int, int>, settled: set<int>, rank: map<int, nat>,
                     queue: set<(real, int)>, u: int)
    requires Frame(adj, vertices, s, dist, prev, settled, rank)
    requires Settled(adj, s, dist, settled) && Relaxed(adj, dist, settled)
    requires Frontier(dist, settled, queue)
    requires u in dist && dist[u].Fin? && u !in settled && IsMinEntry((dist[u].d, u), queue)
    ensures LowerBound(adj, s, u, dist[u].d)
  {
    forall p, ws | WalkBetween(adj, p, ws, s, u)
      ensures dist[u].d <= Sum(ws)
    {
      var y := Escape(adj, s, dist, settled, queue, p, ws);
    }
  }

  /** The state between two pops. */
  ghost predicate Between(adj: ArcMap, vertices: set<int>, s: int, target: int, dist: map<int, Dist>,
                          prev: map<int, int>, settled: set<int>, rank: map<int, nat>,
                          queue: set<(real, int)>) {
    Frame(adj, vertices, s, dist, prev, settled, rank) &&
    Settled(adj, s, dist, settled) && Relaxed(adj, dist, settled) &&
    Frontier(dist, settled, queue) && QueueSound(dist, settled, queue) &&
    Monotone(dist, settled, queue) && NonNegativeDist(dist) &&
    Chain(adj, s, dist, prev, settled, rank) && target !in settled
  }

  /** Arcs of `x` already relaxed: all of them, or the first `done` of `u`'s. */
  ghost predicate RelaxedExcept(adj: ArcMap, dist: map<int, Dist>, settled: set<int>, u: int, done: nat) {
    forall x, a :: x in settled && a in Arcs(adj, x) && a.weight.Some? &&
                   (x != u || (done <= |Arcs(adj, u)| && a in Arcs(adj, u)[..done])) ==>
      x in dist && a.to in dist && dist[x].Fin? && dist[a.to].Fin? &&
      dist[a.to].d <= dist[x].d + a.weight.value
  }

  /** The state while the arcs of the newest settled vertex `u` are relaxed. */
  ghost predicate Relaxing(adj: ArcMap, vertices: set<int>, s: int, target: int, dist: map<int, Dist>,
                           prev: map<int, int>, settled: set<int>, rank: map<int, nat>,
                           queue: set<(real, int)>, u: int, done: nat) {
    Frame(adj, vertices, s, dist, prev, settled, rank) &&
    u in settled && u != target && target !in settled - {u} && done <= |Arcs(adj, u)| &&
    u in dist && dist[u].Fin? &&
    (forall x :: x in settled ==> x in dist && dist[x].Fin? && dist[x].d <= dist[u].d) &&
    Settled(adj, s, dist, settled) && RelaxedExcept(adj, dist, settled, u, done) &&
    Frontier(dist, settled, queue) && QueueSound(dist, settled, queue) &&
    Monotone(dist, settled, queue) && NonNegativeDist(dist) &&
    Chain(adj, s, dist, prev, settled, rank)
  }

  /** Popping a stale entry (its distance has since improved) changes nothing else. */
  lemma StalePop(adj: ArcMap, vertices: set<int>, s: int, target: int, dist: map<int, Dist>,
                 prev: map<int, int>, settled: set<int>, rank: map<int, nat>,
                 queue: set<(real, int)>, e: (real, int))
    requires Between(adj, vertices, s, target, dist, prev, settled, rank, queue)
    requires e in queue && e.1 in dist && dist[e.1].Fin? && e.0 > dist[e.1].d
    ensures Between(adj, vertices, s, target, dist, prev, settled, rank, queue - {e})
  {
  }

  /** Popping a live minimum settles its vertex at its shortest distance. */
  lemma SettleMin(adj: ArcMap, vertices: set<int>, s: int, target: int, dist: map<int, Dist>,
                  prev: map<int, int>, settled: set<int>, rank: map<int, nat>,
                  queue: set<(real, int)>, u: int)
    requires Between(adj, vertices, s, target, dist, prev, settled, rank, queue)
    requires u in dist && dist[u].Fin? && IsMinEntry((dist[u].d, u), queue)
    ensures u !in settled
    ensures var settled', rank', queue' := settled + {u}, rank[u := |settled|], queue - {(dist[u].d, u)};
      Frame(adj, vertices, s, dist, prev, settled', rank') &&
      Settled(adj, s, dist, settled') && Chain(adj, s, dist, prev, settled', rank') &&
      (u != target ==> Relaxing(adj, vertices, s, target, dist, prev, settled', rank', queue', u, 0))
  {
    var settled', rank', queue' := settled + {u}, rank[u := |settled|], queue - {(dist[u].d, u)};
    PopIsOptimal(adj, vertices, s, dist, prev, settled, rank, queue, u);
    SettleFrame(adj, vertices, s, dist, prev, settled, rank, u);
    SettleChain(adj, s, dist, prev, settled, rank, u);
    SettleQueue(dist, settled, queue, u);
    SettleRelaxed(adj, dist, settled, u);
  }

  lemma SettleFrame(adj: ArcMap, vertices: set<int>, s: int, dist: map<int, Dist>,
                    prev: map<int, int>, settled: set<int>, rank: map<int, nat>, u: int)
    requires Frame(adj, vertices, s, dist, prev, settled, rank)
    requires u in vertices && u !in settled
    ensures Frame(adj, vertices, s, dist, prev, settled + {u}, rank[u := |settled|])
  {
  }

  lemma SettleChain(adj: ArcMap, s: int, dist: map<int, Dist>, prev: map<int, int>,
                    settled: set<int>, rank: map<int, nat>, u: int)
    requires Chain(adj, s, dist, prev, settled, rank)
    requires rank.Keys == settled && forall x :: x in settled ==> rank[x] < |settled|
    requires u !in settled
    ensures Chain(adj, s, dist, prev, settled + {u}, rank[u := |settled|])
  {
    var settled', rank' := settled + {u}, rank[u := |settled|];
    forall v
      ensures Linked(adj, s, dist, prev, settled', rank', v)
    {
      assert Linked(adj, s, dist, prev, settled, rank, v);
    }
  }

  lemma SettleQueue(dist: map<int, Dist>, settled: set<int>, queue: set<(real, int)>, u: int)
    requires Frontier(dist, settled, queue) && QueueSound(dist, settled, queue)
    requires Monotone(dist, settled, queue)
    requires u in dist && dist[u].Fin? && IsMinEntry((dist[u].d, u), queue)
    ensures u !in settled
    ensures forall x :: x in settled + {u} ==> dist[x].Fin? && dist[x].d <= dist[u].d
    ensures var settled', queue' := settled + {u}, queue - {(dist[u].d, u)};
      Frontier(dist, settled', queue') && QueueSound(dist, settled', queue') &&
      Monotone(dist, settled', queue')
  {
  }

  lemma SettleRelaxed(adj: ArcMap, dist: map<int, Dist>, settled: set<int>, u: int)
    requires Relaxed(adj, dist, settled)
    ensures RelaxedExcept(adj, dist, settled + {u}, u, 0)
  {
    assert Arcs(adj, u)[..0] == [];
  }

  /** Lowering the distance of `v` through the arc `u -> v` keeps the state. */
  lemma Improve(adj: ArcMap, vertices: set<int>, s: int, target: int, dist: map<int, Dist>,
                prev: map<int, int>, settled: set<int>, rank: map<int, nat>,
                queue: set<(real, int)>, u: int, done: nat, nd: real)
    requires Relaxing(adj, vertices, s, target, dist, prev, settled, rank, queue, u, done)
    requires done < |Arcs(adj, u)| && Arcs(adj, u)[done].weight.Some?
    requires nd == dist[u].d + Arcs(adj, u)[done].weight.value
    requires var v := Arcs(adj, u)[done].to; v in dist && (dist[v].Inf? || nd < dist[v].d)
    ensures var v := Arcs(adj, u)[done].to;
      Relaxing(adj, vertices, s, target, dist[v := Fin(nd)], prev[v := u], settled, rank,
               queue + {(nd, v)}, u, done + 1)
  {
    var a := Arcs(adj, u)[done];
    var v := a.to;
    assert a in adj[u];
    assert nd >= dist[u].d;
    assert v !in settled;
    ImproveFrame(adj, vertices, s, dist, prev, settled, rank, u, v, nd);
    ImproveChain(adj, s, dist, prev, settled, rank, u, a, a.weight.value, nd);
    ImproveQueue(dist, settled, queue, u, v, nd);
    ImproveRelaxed(adj, dist, settled, u, done, nd);
  }

  /** The frame and the settled distances do not involve the improved vertex. */
  lemma ImproveFrame(adj: ArcMap, vertices: set<int>, s: int, dist: map<int, Dist>,
                     prev: map<int, int>, settled: set<int>, rank: map<int, nat>,
                     u: int, v: int, nd: real)
    requires Frame(adj, vertices, s, dist, prev, settled, rank) && Settled(adj, s, dist, settled)
    requires u in settled && v in dist && v !in settled && nd >= 0.0 && (dist[v].Inf? || nd < dist[v].d)
    requires forall x :: x in settled ==> x in dist && dist[x].Fin? && dist[x].d <= dist[u].d
    ensures var dist' := dist[v := Fin(nd)];
      Frame(adj, vertices, s, dist', prev[v := u], settled, rank) && Settled(adj, s, dist', settled) &&
      dist'[u] == dist[u] &&
      (forall x :: x in settled ==> x in dist' && dist'[x].Fin? && dist'[x].d <= dist'[u].d)
  {
  }

  lemma ImproveChain(adj: ArcMap, s: int, dist: map<int, Dist>, prev: map<int, int>,
                     settled: set<int>, rank: map<int, nat>, u: int, a: Arc, w: real, nd: real)
    requires Chain(adj, s, dist, prev, settled, rank)
    requires u in settled && u in dist && dist[u].Fin? && a in Arcs(adj, u)
    requires a.to !in settled && a.weight == Some(w) && nd == dist[u].d + w
    ensures Chain(adj, s, dist[a.to := Fin(nd)], prev[a.to := u], settled, rank)
  {
    var dist', prev' := dist[a.to := Fin(nd)], prev[a.to := u];
    forall v
      ensures Linked(adj, s, dist', prev', settled, rank, v)
    {
      assert Linked(adj, s, dist, prev, settled, rank, v);
      if v == a.to {
        assert dist'[v].d - dist'[u].d == w;
        assert Arc(v, Some(w)) == a;
      }
    }
  }

  lemma ImproveQueue(dist: map<int, Dist>, settled: set<int>, queue: set<(real, int)>,
                     u: int, v: int, nd: real)
    requires Frontier(dist, settled, queue) && QueueSound(dist, settled, queue)
    requires Monotone(dist, settled, queue) && NonNegativeDist(dist)
    requires forall x :: x in settled ==> x in dist && dist[x].Fin? && dist[x].d <= nd
    requires v in dist && v !in settled && nd >= 0.0 && (dist[v].Inf? || nd < dist[v].d)
    ensures var dist', queue' := dist[v := Fin(nd)], queue + {(nd, v)};
      Frontier(dist', settled, queue') && QueueSound(dist', settled, queue') &&
      Monotone(dist', settled, queue') && NonNegativeDist(dist')
  {
  }

  lemma ImproveRelaxed(adj: ArcMap, dist: map<int, Dist>, settled: set<int>, u: int, done: nat, nd: real)
    requires RelaxedExcept(adj, dist, settled, u, done)
    requires done < |Arcs(adj, u)| && Arcs(adj, u)[done].weight.Some?
    requires u in settled && u in dist && dist[u].Fin? && nd == dist[u].d + Arcs(adj, u)[done].weight.value
    requires var v := Arcs(adj, u)[done].to; v in dist && v !in settled && (dist[v].Inf? || nd < dist[v].d)
    ensures RelaxedExcept(adj, dist[Arcs(adj, u)[done].to := Fin(nd)], settled, u, done + 1)
  {
    var a := Arcs(adj, u)[done];
    var dist' := dist[a.to := Fin(nd)];
    forall x, b | x in settled && b in Arcs(adj, x) && b.weight.Some? && (x != u || b in Arcs(adj, u)[..done + 1])
      ensures dist'[b.to].Fin? && dist'[b.to].d <= dist'[x].d + b.weight.value
    {
      if x == u && b !in Arcs(adj, u)[..done] {
        assert b == a;
      }
    }
  }
  /** An arc that cannot improve its target needs no update. */
  lemma Keep(adj: ArcMap, vertices: set<int>, s: int, target: int, dist: map<int, Dist>,
             prev: map<int, int>, settled: set<int>, rank: map<int, nat>,
             queue: set<(real, int)>, u: int, done: nat)
    requires Relaxing(adj, vertices, s, target, dist, prev, settled, rank, queue, u, done)
    requires done < |Arcs(adj, u)|
    requires var a := Arcs(adj, u)[done];
      a.weight.None? || (a.to in dist && dist[a.to].Fin? && dist[u].d + a.weight.value >= dist[a.to].d)
    ensures Relaxing(adj, vertices, s, target, dist, prev, settled, rank, queue, u, done + 1)
  {
    var a := Arcs(adj, u)[done];
    forall x, b | x in settled && b in Arcs(adj, x) && b.weight.Some? && (x != u || b in Arcs(adj, u)[..done + 1])
      ensures dist[b.to].Fin? && dist[b.to].d <= dist[x].d + b.weight.value
    {
      if x == u && b !in Arcs(adj, u)[..done] {
        assert b == a;
      }
    }
  }

  lemma RelaxingDone(adj: ArcMap, vertices: set<int>, s: int, target: int, dist: map<int, Dist>,
                     prev: map<int, int>, settled: set<int>, rank: map<int, nat>,
                     queue: set<(real, int)>, u: int)
    requires Relaxing(adj, vertices, s, target, dist, prev, settled, rank, queue, u, |Arcs(adj, u)|)
    ensures Between(adj, vertices, s, target, dist, prev, settled, rank, queue)
  {
    assert Arcs(adj, u)[..|Arcs(adj, u)|] == Arcs(adj, u);
  }

  /** The state before the first pop: only the source has a finite distance. */
  lemma Start(adj: ArcMap, vertices: set<int>, s: int, target: int, dist: map<int, Dist>,
              prev: map<int, int>)
    requires Frame(adj, vertices, s, dist, prev, {}, map[])
    requires forall v :: v in dist && v != s ==> dist[v] == Inf
    ensures Between(adj, vertices, s, target, dist, prev, {}, map[], {(0.0, s)})
  {
  }

  /** Once the queue is empty, every vertex a walk from the source reaches
      has been settled. */
  lemma ExhaustedReach(adj: ArcMap, vertices: set<int>, s: int, target: int,
                       dist: map<int, Dist>, prev: map<int, int>, settled: set<int>,
                       rank: map<int, nat>, p: seq<int>, ws: seq<real>)
    requires Between(adj, vertices, s, target, dist, prev, settled, rank, {})
    requires IsWalk(adj, p, ws) && p[0] == s
    ensures p[|p| - 1] in settled
  {
    assert s in settled;
    var i := 0;
    while i < |ws|
      invariant i <= |ws| && p[i] in settled
    {
      assert Arc(p[i + 1], Some(ws[i])) in Arcs(adj, p[i]);
      i := i + 1;
    }
  }

  /** The inner loop of the search: relaxes every arc out of the vertex `u`
      just settled, in the order of its arc list, recording `u` as the
      predecessor of, and queueing, each vertex whose distance improves. A
      pipe under repair has infinite weight and never improves anything. */
  method RelaxArcs(adj: ArcMap, u: int, dist0: map<int, Dist>, prev0: map<int, int>,
                   queue0: set<(real, int)>, ghost vertices: set<int>, ghost s: int,
                   ghost target: int, ghost settled: set<int>, ghost rank: map<int, nat>)
    returns (dist: map<int, Dist>, prev: map<int, int>, queue: set<(real, int)>)
    requires Relaxing(adj, vertices, s, target, dist0, prev0, settled, rank, queue0, u, 0)
    ensures Between(adj, vertices, s, target, dist, prev, settled, rank, queue)
    ensures dist.Keys == dist0.Keys
  {
    dist, prev, queue := dist0, prev0, queue0;
    var arcs := Arcs(adj, u);
    for j := 0 to |arcs|
      invariant Relaxing(adj, vertices, s, target, dist, prev, settled, rank, queue, u, j)
    {
      var a := arcs[j];
      assert a in adj[u];
      if a.weight.Some? {
        var nd := dist[u].d + a.weight.value;
        if dist[a.to].Inf? || nd < dist[a.to].d {
          Improve(adj, vertices, s, target, dist, prev, settled, rank, queue, u, j, nd);
          dist := dist[a.to := Fin(nd)];
          prev := prev[a.to := u];
          queue := queue + {(nd, a.to)};
        } else {
          Keep(adj, vertices, s, target, dist, prev, settled, rank, queue, u, j);
        }
      } else {
        Keep(adj, vertices, s, target, dist, prev, settled, rank, queue, u, j);
      }
    }
    RelaxingDone(adj, vertices, s, target, dist, prev, settled, rank, queue, u);
  }

  lemma FewerUnsettled(vertices: set<int>, before: set<int>, after: set<int>)
    requires before < after <= vertices
    ensures |vertices - after| < |vertices - before|
  {
    var u := Element(after - before);
    var rest := (vertices - before) - {u};
    assert u in vertices - before;
    assert |rest| == |vertices - before| - 1;
    assert rest == (vertices - after) + (rest - (vertices - after));
  }

  /** The result of one round of the main loop. */
  ghost predicate AfterRound(adj: ArcMap, vertices: set<int>, s: int, target: int,
                             dist: map<int, Dist>, prev: map<int, int>, settled: set<int>,
                             rank: map<int, nat>, queue: set<(real, int)>, found: bool) {
    (!found ==> Between(adj, vertices, s, target, dist, prev, settled, rank, queue)) &&
    (found ==> target in settled && Frame(adj, vertices, s, dist, prev, settled, rank) &&
               Settled(adj, s, dist, settled) && Chain(adj, s, dist, prev, settled, rank))
  }

  /** One round of the main loop: pops the smallest (distance, id) pair;
      a stale entry is dropped, the target stops the search, and any other
      vertex is settled and has its arcs relaxed. */
  method Round(adj: ArcMap, target: int, dist0: map<int, Dist>, prev0: map<int, int>,
               queue0: set<(real, int)>, ghost vertices: set<int>, ghost s: int,
               ghost settled0: set<int>, ghost rank0: map<int, nat>)
    returns (dist: map<int, Dist>, prev: map<int, int>, queue: set<(real, int)>, found: bool,
             ghost settled: set<int>, ghost rank: map<int, nat>)
    requires queue0 != {}
    requires Between(adj, vertices, s, target, dist0, prev0, settled0, rank0, queue0)
    ensures AfterRound(adj, vertices, s, target, dist, prev, settled, rank, queue, found)
    ensures settled0 < settled <= vertices || (settled == settled0 && |queue| < |queue0|)
  {
    dist, prev, settled, rank := dist0, prev0, settled0, rank0;
    found := false;
    MinEntryExists(queue0);
    var e :| IsMinEntry(e, queue0);
    queue := queue0 - {e};
    var u := e.1;
    if e.0 > dist[u].d {
      StalePop(adj, vertices, s, target, dist, prev, settled, rank, queue0, e);
      return;
    }
    SettleMin(adj, vertices, s, target, dist, prev, settled, rank, queue0, u);
    settled, rank := settled + {u}, rank[u := |settled|];
    if u == target {
      found := true;
      return;
    }
    dist, prev, queue := RelaxArcs(adj, u, dist, prev, queue, vertices, s, target, settled, rank);
  }

  /** The main loop of the search. The queue starts with the source at
      distance 0 and rounds run until it is empty or the target is popped.
      On return the target is settled at its shortest distance, or no walk
      reaches it. */
  method Search(adj: ArcMap, s: int, target: int, dist0: map<int, Dist>, prev0: map<int, int>,
                ghost vertices: set<int>)
    returns (dist: map<int, Dist>, prev: map<int, int>, ghost settled: set<int>, ghost rank: map<int, nat>)
    requires Frame(adj, vertices, s, dist0, prev0, {}, map[])
    requires forall v :: v in dist0 && v != s ==> dist0[v] == Inf
    ensures Frame(adj, vertices, s, dist, prev, settled, rank)
    ensures Settled(adj, s, dist, settled) && Chain(adj, s, dist, prev, settled, rank)
    ensures target in settled || Unreachable(adj, s, target)
    ensures target in dist && dist[target].Fin? ==> target in settled
  {
    dist, prev := dist0, prev0;
    var queue := {(0.0, s)};
    settled, rank := {}, map[];
    Start(adj, vertices, s, target, dist, prev);
    var found := false;
    while queue != {} && !found
      invariant AfterRound(adj, vertices, s, target, dist, prev, settled, rank, queue, found)
      invariant settled <= vertices
      decreases |vertices - settled|, |queue|
    {
      ghost var before := settled;
      dist, prev, queue, found, settled, rank :=
        Round(adj, target, dist, prev, queue, vertices, s, settled, rank);
      if before < settled {
        FewerUnsettled(vertices, before, settled);
      }
    }
    if target !in settled {
      forall p, ws | IsWalk(adj, p, ws) && p[0] == s
        ensures p[|p| - 1] in settled
      {
        ExhaustedReach(adj, vertices, s, target, dist, prev, settled, rank, p, ws);
      }
    }
  }

  // ----- Reading the path back -----

  /** The sequence in reverse order, as std::reverse leaves it. */
  function Reversed(a: seq<int>): (r: seq<int>)
    ensures |r| == |a| && forall i :: 0 <= i < |a| ==> r[i] == a[|a| - 1 - i]
  {
    if a == [] then [] else Reversed(a[1..]) + [a[0]]
  }

  lemma ReversedSnoc(a: seq<int>, c: int)
    ensures Reversed(a + [c]) == [c] + Reversed(a)
  {
    var l, r := Reversed(a + [c]), [c] + Reversed(a);
    assert forall i :: 0 <= i < |l| ==> l[i] == r[i];
  }

  lemma WalkPrepend(adj: ArcMap, p: seq<int>, ws: seq<real>, c: int, w: real)
    requires IsWalk(adj, p, ws) && Arc(p[0], Some(w)) in Arcs(adj, c)
    ensures IsWalk(adj, [c] + p, [w] + ws)
  {
    var p', ws' := [c] + p, [w] + ws;
    forall i | 0 <= i < |ws'|
      ensures Arc(p'[i + 1], Some(ws'[i])) in Arcs(adj, p'[i])
    {
      if i > 0 {
        assert p'[i + 1] == p[i] && p'[i] == p[i - 1] && ws'[i] == ws[i - 1];
      }
    }
  }

  /** The read-back loop's invariant: `back` holds the vertices met so far
      (the target first), `ws` the weights of the walk they form in forward
      order, and `current` is the next vertex to visit or the sentinel. */
  ghost predicate ReadBack(adj: ArcMap, s: int, dist: map<int, Dist>, settled: set<int>, target: int,
                           back: seq<int>, current: int, ws: seq<real>) {
    target in dist && dist[target].Fin? &&
    (current != -1 ==> current in settled && current in dist && dist[current].Fin?) &&
    (back == [] ==> current == target && ws == []) &&
    (back != [] ==>
       back[0] == target && back[|back| - 1] in dist && dist[back[|back| - 1]].Fin? &&
       IsWalk(adj, Reversed(back), ws) &&
       Sum(ws) == dist[target].d - dist[back[|back| - 1]].d &&
       (current == -1 ==> back[|back| - 1] == s) &&
       (current != -1 ==>
          Arc(back[|back| - 1], Some(dist[back[|back| - 1]].d - dist[current].d)) in Arcs(adj, current)))
  }

  /** One step of the read-back: visiting `current` extends the walk by the
      arc from its predecessor, and the predecessor was settled earlier. */
  lemma ReadBackStep(adj: ArcMap, vertices: set<int>, s: int, dist: map<int, Dist>, prev: map<int, int>,
                     settled: set<int>, rank: map<int, nat>, target: int,
                     back: seq<int>, current: int, ws: seq<real>) returns (ws': seq<real>)
    requires Frame(adj, vertices, s, dist, prev, settled, rank) && Chain(adj, s, dist, prev, settled, rank)
    requires forall x :: x in settled ==> dist[x].Fin?
    requires current != -1 && ReadBack(adj, s, dist, settled, target, back, current, ws)
    ensures var next := if current in prev then prev[current] else -1;
      ReadBack(adj, s, dist, settled, target, back + [current], next, ws') &&
      current in rank && (next == -1 || (next in rank && rank[next] < rank[current]))
  {
    assert Linked(adj, s, dist, prev, settled, rank, current);
    ReversedSnoc(back, current);
    if back != [] {
      var first := back[|back| - 1];
      var w := dist[first].d - dist[current].d;
      WalkPrepend(adj, Reversed(back), ws, current, w);
      SumPrepend(w, ws);
      ws' := [w] + ws;
    } else {
      assert back + [current] == [current];
      ws' := ws;
    }
  }

  /** Follows the predecessor map back from the target until the sentinel
      -1, collecting the vertices, then reverses them. A vertex without a
      predecessor entry counts as having none. For a settled target the
      result is a walk from the source whose cost is the target's distance. */
  method Reconstruct(prev: map<int, int>, target: int, ghost adj: ArcMap, ghost vertices: set<int>,
                     ghost s: int, ghost dist: map<int, Dist>, ghost settled: set<int>,
                     ghost rank: map<int, nat>)
    returns (path: seq<int>, ghost ws: seq<real>)
    requires Frame(adj, vertices, s, dist, prev, settled, rank) && Chain(adj, s, dist, prev, settled, rank)
    requires forall x :: x in settled ==> dist[x].Fin?
    requires target in settled
    ensures WalkBetween(adj, path, ws, s, target) && Sum(ws) == dist[target].d
  {
    var back: seq<int> := [];
    var current := target;
    ws := [];
    while current != -1
      invariant ReadBack(adj, s, dist, settled, target, back, current, ws)
      decreases if current in rank then rank[current] + 1 else 0
    {
      ws := ReadBackStep(adj, vertices, s, dist, prev, settled, rank, target, back, current, ws);
      back := back + [current];
      current := if current in prev then prev[current] else -1;
    }
    path := Reversed(back);
  }

  /** The search followed by the read-back: a walk from the source to the
      target of least cost with that cost, or the empty sequence and 0 when
      no walk reaches the target. A target without a distance entry counts
      as infinitely far. */
  method ShortestWalk(adj: ArcMap, s: int, target: int, dist0: map<int, Dist>, prev0: map<int, int>,
                      ghost vertices: set<int>)
    returns (path: seq<int>, total: real, ghost ws: seq<real>)
    requires Frame(adj, vertices, s, dist0, prev0, {}, map[])
    requires forall v :: v in dist0 && v != s ==> dist0[v] == Inf
    ensures path != [] ==> WalkBetween(adj, path, ws, s, target) && total == Sum(ws)
    ensures path != [] ==> LowerBound(adj, s, target, total)
    ensures path == [] ==> total == 0.0 && Unreachable(adj, s, target)
  {
    path, total, ws := [], 0.0, [];
    var dist, prev;
    ghost var settled, rank;
    dist, prev, settled, rank := Search(adj, s, target, dist0, prev0, vertices);
    var distance := if target in dist then dist[target] else Inf;
    if distance.Fin? {
      total := distance.d;
      path, ws := Reconstruct(prev, target, adj, vertices, s, dist, settled, rank);
    }
  }
}

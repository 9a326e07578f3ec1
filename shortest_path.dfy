/**
 * Single-source shortest travel times (Dijkstra's search).
 *
 * The sorted set of `(distance, node)` pairs that serves as priority queue
 * is modelled as a set of pairs from which the least pair, in the
 * lexicographic order of the tuples, is taken. Decrease-key is the same
 * remove-then-insert as in the program: the stale pair of the improved node
 * is removed before the improved pair is added.
 */
module ShortestPath {
  import opened Walks

  /** Lexicographic order on `(distance, node)` pairs, as the sorted set orders them. */
  predicate PairLe(p: (int, int), q: (int, int)) {
    p.0 < q.0 || (p.0 == q.0 && p.1 <= q.1)
  }

  /** Every non-empty queue has a least pair. */
  lemma LeastPairExists(pq: set<(int, int)>)
    requires pq != {}
    ensures exists p :: p in pq && forall q :: q in pq ==> PairLe(p, q)
  {
    var x :| x in pq;
    if pq - {x} != {} {
      LeastPairExists(pq - {x});
      var y :| y in pq - {x} && forall q :: q in pq - {x} ==> PairLe(y, q);
      var m := if PairLe(x, y) then x else y;
      forall q | q in pq
        ensures PairLe(m, q)
      {
        if q != x {
          assert q in pq - {x};
        }
      }
    } else {
      assert pq == {x};
    }
  }

  /** Some walk from `start` to `v` weighs exactly `c`. */
  ghost predicate Witnessed(edges: seq<Edge>, start: int, v: int, c: nat) {
    exists p :: IsWalk(edges, start, v, p) && Weight(p) == c
  }

  /** Every finite entry is the weight of some walk from `start`. */
  ghost predicate Sound(edges: seq<Edge>, start: int, d: seq<Dist>) {
    forall v :: 0 <= v < |d| && d[v].Fin? ==> Witnessed(edges, start, v, d[v].value)
  }

  /** Edge `e` cannot be relaxed: going through it does not shorten the travel time of its head. */
  predicate Relaxed(d: seq<Dist>, e: Edge)
    requires 0 <= e.from < |d| && 0 <= e.to < |d|
  {
    DistLe(d[e.to], AddDist(d[e.from], Fin(e.weight)))
  }

  /** Every queued pair carries the current distance of its node. */
  ghost predicate QueueOk(d: seq<Dist>, pq: set<(int, int)>) {
    forall p :: p in pq ==> 0 <= p.1 < |d| && d[p.1].Fin? && d[p.1].value == p.0
  }

  /**
   * Every edge whose tail is reached is relaxed or waits for its tail to be
   * taken from the queue, except the edges leaving `u` not yet in `done`.
   */
  ghost predicate EdgesOk(edges: seq<Edge>, d: seq<Dist>, pq: set<(int, int)>, u: int, done: seq<Edge>)
    requires ValidEdges(edges, |d|)
  {
    forall e :: e in edges ==>
      d[e.from].Inf? || (d[e.from].value, e.from) in pq || Relaxed(d, e) || (e.from == u && e !in done)
  }

  /** Number of unreached nodes. */
  function InfCount(d: seq<Dist>): nat {
    if d == [] then 0 else (if d[0].Inf? then 1 else 0) + InfCount(d[1..])
  }

  /** Sum of the finite entries. */
  function FinSum(d: seq<Dist>): nat {
    if d == [] then 0 else (if d[0].Fin? then d[0].value else 0) + FinSum(d[1..])
  }

  /** Lowering one entry lowers the pair (unreached count, finite sum) lexicographically. */
  lemma {:induction false} LowerEntry(d: seq<Dist>, i: int, c: nat)
    requires 0 <= i < |d| && DistLt(Fin(c), d[i])
    ensures InfCount(d[i := Fin(c)]) < InfCount(d)
            || (InfCount(d[i := Fin(c)]) == InfCount(d) && FinSum(d[i := Fin(c)]) < FinSum(d))
    ensures d[i].Fin? ==> InfCount(d[i := Fin(c)]) == InfCount(d)
    decreases i
  {
    var d' := d[i := Fin(c)];
    if i == 0 {
      assert d'[1..] == d[1..];
    } else {
      assert d'[1..] == d[1..][i - 1 := Fin(c)];
      LowerEntry(d[1..], i - 1, c);
    }
  }

  /** A walk to the tail of an edge, followed by the edge, is a walk to its head. */
  lemma WitnessStep(edges: seq<Edge>, start: int, e: Edge, c: nat)
    requires e in edges && Witnessed(edges, start, e.from, c)
    ensures Witnessed(edges, start, e.to, c + e.weight)
  {
    var p :| IsWalk(edges, start, e.from, p) && Weight(p) == c;
    assert [e][1..] == [];
    assert IsWalk(edges, e.from, e.to, [e]);
    WalkConcat(edges, start, e.from, e.to, p, [e]);
  }

  /**
   * Once no edge can be relaxed, the entry of the head of any walk is at
   * most the entry of its start plus the walk's weight.
   */
  lemma {:induction false} RelaxedBoundsWalk(edges: seq<Edge>, d: seq<Dist>, x: int, v: int, p: seq<Edge>)
    requires ValidEdges(edges, |d|)
    requires forall e :: e in edges ==> d[e.from].Inf? || Relaxed(d, e)
    requires 0 <= x < |d| && d[x].Fin? && IsWalk(edges, x, v, p)
    ensures 0 <= v < |d| && d[v].Fin? && d[v].value <= d[x].value + Weight(p)
    decreases |p|
  {
    if p != [] {
      var e := p[0];
      assert Relaxed(d, e);
      RelaxedBoundsWalk(edges, d, e.to, v, p[1..]);
    }
  }

  /**
   * Entries that are walk weights, with the start at 0 and no relaxable
   * edge, are exactly the shortest travel times.
   */
  lemma RelaxedIsDistance(edges: seq<Edge>, start: int, d: seq<Dist>, v: int)
    requires ValidEdges(edges, |d|) && 0 <= start < |d| && d[start] == Fin(0)
    requires Sound(edges, start, d)
    requires forall e :: e in edges ==> d[e.from].Inf? || Relaxed(d, e)
    requires 0 <= v < |d|
    ensures d[v] == Distance(edges, start, v)
  {
    if Reach(edges, start, v) {
      assert d[v].Fin? by {
        var p :| IsWalk(edges, start, v, p);
        RelaxedBoundsWalk(edges, d, start, v, p);
      }
      forall p | IsWalk(edges, start, v, p)
        ensures d[v].value <= Weight(p)
      {
        RelaxedBoundsWalk(edges, d, start, v, p);
      }
      ShortestIsDistance(edges, start, v, d[v].value);
    } else if d[v].Fin? {
      assert false;
    }
  }

  /** The search state is lexicographically below (`ic0`, `fs0`, `pq0`), or equal to it. */
  ghost predicate Below(d: seq<Dist>, pq: set<(int, int)>, ic0: nat, fs0: nat, pq0: set<(int, int)>) {
    || InfCount(d) < ic0
    || (InfCount(d) == ic0 && FinSum(d) < fs0)
    || (InfCount(d) == ic0 && FinSum(d) == fs0 && pq == pq0)
  }

  /** Relaxing edge `edges[t]` out of the node `u` just taken from the queue keeps the invariants. */
  lemma RelaxKeepsInv(edges: seq<Edge>, start: int, d: seq<Dist>, pq: set<(int, int)>, u: int, cu: nat, t: int,
                      ic0: nat, fs0: nat, pq0: set<(int, int)>, was: Dist, mid: set<(int, int)>, pq': set<(int, int)>)
    requires ValidEdges(edges, |d|) && 0 <= start < |d| && 0 <= t < |edges|
    requires d[start] == Fin(0) && 0 <= u < |d| && d[u] == Fin(cu)
    requires Sound(edges, start, d) && QueueOk(d, pq) && EdgesOk(edges, d, pq, u, edges[..t])
    requires Below(d, pq, ic0, fs0, pq0)
    requires edges[t].from == u && DistLt(Fin(cu + edges[t].weight), d[edges[t].to])
    requires was == d[edges[t].to]
    requires mid == if was.Fin? then pq - {(was.value, edges[t].to)} else pq
    requires pq' == mid + {(cu + edges[t].weight, edges[t].to)}
    ensures var d' := d[edges[t].to := Fin(cu + edges[t].weight)];
      && d'[start] == Fin(0) && d'[u] == Fin(cu)
      && Sound(edges, start, d') && QueueOk(d', pq') && EdgesOk(edges, d', pq', u, edges[..t + 1])
      && (InfCount(d') < ic0 || (InfCount(d') == ic0 && FinSum(d') < fs0))
  {
    var e := edges[t];
    var v, c := e.to, cu + e.weight;
    var d' := d[v := Fin(c)];
    assert e in edges;
    LowerEntry(d, v, c);
    WitnessStep(edges, start, e, cu);
    assert edges[..t + 1] == edges[..t] + [e];
    forall f | f in edges
      ensures d'[f.from].Inf? || (d'[f.from].value, f.from) in pq' || Relaxed(d', f)
              || (f.from == u && f !in edges[..t + 1])
    {
      if f.from == v {
        assert (d'[f.from].value, f.from) in pq';
      } else if f == e {
        assert Relaxed(d', f);
      } else if d[f.from].Fin? && (d[f.from].value, f.from) in pq {
        assert (d'[f.from].value, f.from) in pq';
      } else if d[f.from].Fin? && Relaxed(d, f) {
        assert Relaxed(d', f);
      }
    }
  }

  /** Passing over an edge that cannot be relaxed keeps the invariants. */
  lemma SkipKeepsInv(edges: seq<Edge>, d: seq<Dist>, pq: set<(int, int)>, u: int, cu: nat, t: int)
    requires ValidEdges(edges, |d|) && 0 <= t < |edges|
    requires 0 <= u < |d| && d[u] == Fin(cu)
    requires EdgesOk(edges, d, pq, u, edges[..t])
    requires edges[t].from == u ==> !DistLt(Fin(cu + edges[t].weight), d[edges[t].to])
    ensures EdgesOk(edges, d, pq, u, edges[..t + 1])
  {
    assert edges[..t + 1] == edges[..t] + [edges[t]];
    assert edges[t] in edges;
  }

  /**
   * The search: the returned array holds, for every node, the least travel
   * time from `start`, or infinity when the node cannot be reached; no edge
   * can be relaxed any more.
   */
  method GetShortestPath(edges: seq<Edge>, start: int, n: nat) returns (distances: array<Dist>)
    requires ValidEdges(edges, n) && 0 <= start < n
    ensures fresh(distances) && distances.Length == n
    ensures distances[start] == Fin(0)
    ensures forall e :: e in edges ==> distances[e.from].Inf? || Relaxed(distances[..], e)
    ensures forall v :: 0 <= v < n ==> distances[v] == Distance(edges, start, v)
  {
    distances := new Dist[n](_ => Inf);
    distances[start] := Fin(0);
    var pq: set<(int, int)> := {(0, start)};
    assert IsWalk(edges, start, start, []);
    while pq != {}
      invariant distances.Length == n && distances[start] == Fin(0)
      invariant Sound(edges, start, distances[..])
      invariant QueueOk(distances[..], pq)
      invariant EdgesOk(edges, distances[..], pq, -1, [])
      decreases InfCount(distances[..]), FinSum(distances[..]), |pq|
    {
      LeastPairExists(pq);
      var least :| least in pq && forall q :: q in pq ==> PairLe(least, q);
      var currentDistance: nat, currentNode := least.0, least.1;
      TakeKeepsInv(edges, distances[..], pq, least);
      pq := pq - {least};
      pq := RelaxOutgoing(edges, start, distances, pq, currentNode, currentDistance);
    }
    forall v | 0 <= v < n
      ensures distances[v] == Distance(edges, start, v)
    {
      RelaxedIsDistance(edges, start, distances[..], v);
    }
  }

  /** Taking a queued pair out of the queue keeps the invariants, the edges of its node now being pending. */
  lemma TakeKeepsInv(edges: seq<Edge>, d: seq<Dist>, pq: set<(int, int)>, least: (int, int))
    requires ValidEdges(edges, |d|) && QueueOk(d, pq) && EdgesOk(edges, d, pq, -1, [])
    requires least in pq
    ensures QueueOk(d, pq - {least}) && EdgesOk(edges, d, pq - {least}, least.1, [])
  {
  }

  /**
   * The inner loop of the search: relaxes every edge leaving `u`, whose
   * distance `cu` was just taken from the queue, and returns the new queue.
   */
  method RelaxOutgoing(edges: seq<Edge>, start: int, distances: array<Dist>, pq: set<(int, int)>, u: int, cu: nat)
    returns (pq': set<(int, int)>)
    requires ValidEdges(edges, distances.Length) && 0 <= start < distances.Length
    requires distances[start] == Fin(0) && 0 <= u < distances.Length && distances[u] == Fin(cu)
    requires Sound(edges, start, distances[..]) && QueueOk(distances[..], pq)
    requires EdgesOk(edges, distances[..], pq, u, [])
    modifies distances
    ensures distances[start] == Fin(0)
    ensures Sound(edges, start, distances[..]) && QueueOk(distances[..], pq')
    ensures EdgesOk(edges, distances[..], pq', -1, [])
    ensures Below(distances[..], pq', InfCount(old(distances[..])), FinSum(old(distances[..])), pq)
    ensures LoweredVia(edges, u, cu, old(distances[..]), distances[..])
    ensures forall e :: e in edges && e.from == u ==> DistLe(distances[e.to], Fin(cu + e.weight))
  {
    ghost var ic0, fs0 := InfCount(distances[..]), FinSum(distances[..]);
    ghost var d0 := distances[..];
    pq' := pq;
    for t := 0 to |edges|
      invariant distances[start] == Fin(0) && distances[u] == Fin(cu)
      invariant Sound(edges, start, distances[..])
      invariant QueueOk(distances[..], pq')
      invariant EdgesOk(edges, distances[..], pq', u, edges[..t])
      invariant Below(distances[..], pq', ic0, fs0, pq)
      invariant LoweredVia(edges, u, cu, d0, distances[..])
      invariant OutRelaxed(edges, u, cu, distances[..], t)
    {
      var edge := edges[t];
      ghost var d, q := distances[..], pq';
      if edge.from == u {
        var neighbor := edge.to;
        var newDistance := cu + edge.weight;
        if DistLt(Fin(newDistance), distances[neighbor]) {
          ghost var was := distances[neighbor];
          if distances[neighbor].Fin? {
            pq' := pq' - {(distances[neighbor].value, neighbor)};
          }
          ghost var mid := pq';
          distances[neighbor] := Fin(newDistance);
          pq' := pq' + {(newDistance, neighbor)};
          RelaxKeepsInv(edges, start, d, q, u, cu, t, ic0, fs0, pq, was, mid, pq');
          LowerStep(edges, u, cu, d0, d, t);
          assert distances[..] == d[neighbor := Fin(newDistance)];
        } else {
          SkipKeepsInv(edges, d, q, u, cu, t);
          SkipStep(edges, u, cu, d, t);
        }
      } else {
        SkipKeepsInv(edges, d, q, u, cu, t);
        SkipStep(edges, u, cu, d, t);
      }
    }
    AllDone(edges, distances[..], pq', u);
    OutAllRelaxed(edges, u, cu, distances[..]);
  }

  /**
   * `d` is `d0` with some entries lowered, each to `cu` plus the weight of
   * an edge from `u` to that node.
   */
  ghost predicate LoweredVia(edges: seq<Edge>, u: int, cu: nat, d0: seq<Dist>, d: seq<Dist>) {
    && |d| == |d0|
    && (forall v :: 0 <= v < |d| ==> DistLe(d[v], d0[v]))
    && (forall v :: 0 <= v < |d| && d[v] != d0[v] ==>
          exists e :: e in edges && e.from == u && e.to == v && d[v] == Fin(cu + e.weight))
  }

  /** Each of the first `t` edges that leaves `u` cannot lower its head below `cu` plus its weight. */
  ghost predicate OutRelaxed(edges: seq<Edge>, u: int, cu: nat, d: seq<Dist>, t: int) {
    forall k :: 0 <= k < t && k < |edges| && edges[k].from == u ==>
      0 <= edges[k].to < |d| && DistLe(d[edges[k].to], Fin(cu + edges[k].weight))
  }

  /** Lowering the head of edge `t` out of `u` to `cu` plus its weight keeps both facts. */
  lemma LowerStep(edges: seq<Edge>, u: int, cu: nat, d0: seq<Dist>, d: seq<Dist>, t: int)
    requires ValidEdges(edges, |d|) && 0 <= t < |edges| && edges[t].from == u
    requires LoweredVia(edges, u, cu, d0, d) && OutRelaxed(edges, u, cu, d, t)
    requires DistLt(Fin(cu + edges[t].weight), d[edges[t].to])
    ensures LoweredVia(edges, u, cu, d0, d[edges[t].to := Fin(cu + edges[t].weight)])
    ensures OutRelaxed(edges, u, cu, d[edges[t].to := Fin(cu + edges[t].weight)], t + 1)
  {
    var e := edges[t];
    assert e in edges;
    var d' := d[e.to := Fin(cu + e.weight)];
    forall v | 0 <= v < |d'| && d'[v] != d0[v]
      ensures exists f :: f in edges && f.from == u && f.to == v && d'[v] == Fin(cu + f.weight)
    {
      if v == e.to {
        assert e in edges && e.from == u && e.to == v && d'[v] == Fin(cu + e.weight);
      }
    }
  }

  /** Passing over edge `t` when it cannot lower its head keeps its head relaxed. */
  lemma SkipStep(edges: seq<Edge>, u: int, cu: nat, d: seq<Dist>, t: int)
    requires ValidEdges(edges, |d|) && 0 <= t < |edges| && OutRelaxed(edges, u, cu, d, t)
    requires edges[t].from == u ==> !DistLt(Fin(cu + edges[t].weight), d[edges[t].to])
    ensures OutRelaxed(edges, u, cu, d, t + 1)
  {
    assert edges[t] in edges;
  }

  /** Once all edges are passed, every edge out of `u` is relaxed from `cu`. */
  lemma OutAllRelaxed(edges: seq<Edge>, u: int, cu: nat, d: seq<Dist>)
    requires OutRelaxed(edges, u, cu, d, |edges|)
    ensures forall e :: e in edges && e.from == u ==> 0 <= e.to < |d| && DistLe(d[e.to], Fin(cu + e.weight))
  {
    forall e | e in edges && e.from == u
      ensures 0 <= e.to < |d| && DistLe(d[e.to], Fin(cu + e.weight))
    {
      var k :| 0 <= k < |edges| && edges[k] == e;
    }
  }

  /** After all edges are processed, none is pending. */
  lemma AllDone(edges: seq<Edge>, d: seq<Dist>, pq: set<(int, int)>, u: int)
    requires ValidEdges(edges, |d|) && EdgesOk(edges, d, pq, u, edges[..|edges|])
    ensures EdgesOk(edges, d, pq, -1, [])
  {
    assert edges[..|edges|] == edges;
  }
}

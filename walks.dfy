/**
 * Directed weighted edges, walks, reachability and shortest distances: the
 * graph vocabulary in which the strongly-connected-component search, the
 * shortest-path search and the connectivity repair are specified.
 *
 * Nodes are the integers 0 .. n-1. Travel times are natural numbers; the
 * distance type `Dist` has an explicit infinity standing for the
 * "never reached" sentinel of the shortest-path search.
 */
module Walks {

  /** A directed edge with its travel time. */
  datatype Edge = Edge(from: int, to: int, weight: nat)

  /** Every endpoint is a node of a graph with `n` nodes. */
  predicate ValidEdges(edges: seq<Edge>, n: int) {
    forall e :: e in edges ==> 0 <= e.from < n && 0 <= e.to < n
  }

  /** Some edge of `edges` goes from `u` to `v`. */
  predicate HasEdge(edges: seq<Edge>, u: int, v: int) {
    exists e :: e in edges && e.from == u && e.to == v
  }

  /** `p` is a walk of edges of `edges` leading from `u` to `v`. */
  ghost predicate IsWalk(edges: seq<Edge>, u: int, v: int, p: seq<Edge>)
    decreases |p|
  {
    if p == [] then u == v
    else p[0] in edges && p[0].from == u && IsWalk(edges, p[0].to, v, p[1..])
  }

  /** Total travel time of a walk. */
  function Weight(p: seq<Edge>): nat {
    if p == [] then 0 else p[0].weight + Weight(p[1..])
  }

  ghost predicate Reach(edges: seq<Edge>, u: int, v: int) {
    exists p :: IsWalk(edges, u, v, p)
  }

  /** `u` and `v` are mutually reachable, that is, in the same strongly connected component. */
  ghost predicate SameScc(edges: seq<Edge>, u: int, v: int) {
    Reach(edges, u, v) && Reach(edges, v, u)
  }

  ghost predicate StronglyConnected(edges: seq<Edge>, n: int) {
    forall u, v :: 0 <= u < n && 0 <= v < n ==> Reach(edges, u, v)
  }

  lemma {:induction false} WalkConcat(edges: seq<Edge>, u: int, m: int, v: int, p: seq<Edge>, q: seq<Edge>)
    requires IsWalk(edges, u, m, p) && IsWalk(edges, m, v, q)
    ensures IsWalk(edges, u, v, p + q)
    ensures Weight(p + q) == Weight(p) + Weight(q)
    decreases |p|
  {
    if p != [] {
      WalkConcat(edges, p[0].to, m, v, p[1..], q);
      assert (p + q)[0] == p[0];
      assert (p + q)[1..] == p[1..] + q;
    } else {
      assert p + q == q;
    }
  }

  lemma ReachRefl(edges: seq<Edge>, u: int)
    ensures Reach(edges, u, u)
  {
    assert IsWalk(edges, u, u, []);
  }

  lemma ReachEdge(edges: seq<Edge>, u: int, v: int)
    requires HasEdge(edges, u, v)
    ensures Reach(edges, u, v)
  {
    var e :| e in edges && e.from == u && e.to == v;
    assert IsWalk(edges, v, v, []);
    assert [e][1..] == [];
    assert IsWalk(edges, u, v, [e]);
  }

  lemma ReachTrans(edges: seq<Edge>, u: int, m: int, v: int)
    requires Reach(edges, u, m) && Reach(edges, m, v)
    ensures Reach(edges, u, v)
  {
    var p :| IsWalk(edges, u, m, p);
    var q :| IsWalk(edges, m, v, q);
    WalkConcat(edges, u, m, v, p, q);
  }

  /** Reach through a first edge. */
  lemma ReachStep(edges: seq<Edge>, u: int, m: int, v: int)
    requires HasEdge(edges, u, m) && Reach(edges, m, v)
    ensures Reach(edges, u, v)
  {
    ReachEdge(edges, u, m);
    ReachTrans(edges, u, m, v);
  }

  /** Reach through a last edge. */
  lemma ReachExtend(edges: seq<Edge>, u: int, m: int, v: int)
    requires Reach(edges, u, m) && HasEdge(edges, m, v)
    ensures Reach(edges, u, v)
  {
    ReachEdge(edges, m, v);
    ReachTrans(edges, u, m, v);
  }

  lemma SameSccTrans(edges: seq<Edge>, u: int, m: int, v: int)
    requires SameScc(edges, u, m) && SameScc(edges, m, v)
    ensures SameScc(edges, u, v)
  {
    ReachTrans(edges, u, m, v);
    ReachTrans(edges, v, m, u);
  }

  /** A walk stays a walk when edges are added to the graph. */
  lemma {:induction false} WalkMonotone(edges: seq<Edge>, more: seq<Edge>, u: int, v: int, p: seq<Edge>)
    requires forall e :: e in edges ==> e in more
    requires IsWalk(edges, u, v, p)
    ensures IsWalk(more, u, v, p)
    decreases |p|
  {
    if p != [] {
      WalkMonotone(edges, more, p[0].to, v, p[1..]);
    }
  }

  lemma ReachMonotone(edges: seq<Edge>, more: seq<Edge>, u: int, v: int)
    requires forall e :: e in edges ==> e in more
    requires Reach(edges, u, v)
    ensures Reach(more, u, v)
  {
    var p :| IsWalk(edges, u, v, p);
    WalkMonotone(edges, more, u, v, p);
  }

  /** A walk of a graph whose edges stay inside the node range visits only nodes. */
  lemma {:induction false} WalkEndsInRange(edges: seq<Edge>, n: int, u: int, v: int, p: seq<Edge>)
    requires ValidEdges(edges, n) && 0 <= u < n
    requires IsWalk(edges, u, v, p)
    ensures 0 <= v < n
    decreases |p|
  {
    if p != [] {
      WalkEndsInRange(edges, n, p[0].to, v, p[1..]);
    }
  }

  // ---------------------------------------------------------------------------
  // Distances

  /** A travel time, or infinity for "not reached". */
  datatype Dist = Fin(value: nat) | Inf

  /** Addition in which infinity absorbs everything. */
  function AddDist(a: Dist, b: Dist): (r: Dist)
    ensures r.Fin? <==> a.Fin? && b.Fin?
    ensures r.Fin? ==> r.value == a.value + b.value
  {
    if a.Inf? || b.Inf? then Inf else Fin(a.value + b.value)
  }

  /** Comparison `<=` on distances; infinity is above every finite distance. */
  predicate DistLe(a: Dist, b: Dist) {
    b.Inf? || (a.Fin? && a.value <= b.value)
  }

  /** Comparison `<` on distances. */
  predicate DistLt(a: Dist, b: Dist) {
    a.Fin? && (b.Inf? || a.value < b.value)
  }

  /** The sum of a row of distances. */
  function SumDist(s: seq<Dist>): (r: Dist)
    ensures r.Fin? <==> forall i :: 0 <= i < |s| ==> s[i].Fin?
  {
    if s == [] then Fin(0) else AddDist(SumDist(s[..|s| - 1]), s[|s| - 1])
  }

  /** `c` is the least total travel time of a walk from `s` to `v`. */
  ghost predicate IsShortest(edges: seq<Edge>, s: int, v: int, c: nat) {
    && (exists p :: IsWalk(edges, s, v, p) && Weight(p) == c)
    && (forall p :: IsWalk(edges, s, v, p) ==> c <= Weight(p))
  }

  /** Whenever some walk exists, a lightest walk exists. */
  lemma {:induction false} ShortestExists(edges: seq<Edge>, s: int, v: int, p: seq<Edge>)
    requires IsWalk(edges, s, v, p)
    ensures exists c :: IsShortest(edges, s, v, c)
    decreases Weight(p)
  {
    if q :| IsWalk(edges, s, v, q) && Weight(q) < Weight(p) {
      ShortestExists(edges, s, v, q);
    } else {
      assert IsShortest(edges, s, v, Weight(p));
    }
  }

  /** The shortest-path distance from `s` to `v`: infinite exactly when `v` is unreachable. */
  ghost function Distance(edges: seq<Edge>, s: int, v: int): (r: Dist)
    ensures r.Fin? <==> Reach(edges, s, v)
    ensures r.Fin? ==> IsShortest(edges, s, v, r.value)
  {
    if Reach(edges, s, v) then
      var p :| IsWalk(edges, s, v, p);
      ShortestExists(edges, s, v, p);
      var c :| IsShortest(edges, s, v, c);
      Fin(c)
    else Inf
  }

  /** The least travel time is unique, so `IsShortest` pins `Distance` down. */
  lemma ShortestIsDistance(edges: seq<Edge>, s: int, v: int, c: nat)
    requires IsShortest(edges, s, v, c)
    ensures Distance(edges, s, v) == Fin(c)
  {
    var p :| IsWalk(edges, s, v, p) && Weight(p) == c;
    var d := Distance(edges, s, v);
    assert d.Fin?;
    var q :| IsWalk(edges, s, v, q) && Weight(q) == d.value;
  }
}

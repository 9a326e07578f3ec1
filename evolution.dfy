/**
 * The evolutionary operators: connectivity repair, fitness evaluation,
 * mutation, crossover, and the generation loop of the multi-objective
 * search.
 *
 * The random draws of the program are explicit inputs. A keep-mask holds
 * one "NextDouble() > 0.5" draw per candidate edge (a missing entry counts
 * as "not kept"); a mutation flag stands for "NextDouble() > 0.8"; a
 * draw `r` standing for "Next(count)" selects index `r % count`, which
 * covers every value the generator can return.
 */
module Evolution {
  import opened Wrappers
  import opened Walks
  import opened Scc
  import opened ShortestPath
  import opened Selection

  // ---------------------------------------------------------------------------
  // Edge-list helpers (the LINQ queries of the program)

  /** The `t`-th draw of a keep-mask says "keep"; draws past the end say "drop". */
  predicate Kept(keep: seq<bool>, t: int) {
    0 <= t < |keep| && keep[t]
  }

  /** The elements of `xs` whose draw says "keep", in order. */
  function Where(xs: seq<Edge>, keep: seq<bool>): (r: seq<Edge>)
    ensures forall e :: e in r ==> e in xs
    ensures forall t :: 0 <= t < |xs| && Kept(keep, t) ==> xs[t] in r
    ensures forall e :: e in r ==> exists t :: 0 <= t < |xs| && xs[t] == e && Kept(keep, t)
    ensures multiset(r) <= multiset(xs)
    ensures (forall t :: 0 <= t < |xs| ==> Kept(keep, t)) ==> r == xs
  {
    if xs == [] then []
    else
      var init := Where(xs[..|xs| - 1], keep);
      assert xs == xs[..|xs| - 1] + [xs[|xs| - 1]];
      assert forall t :: 0 <= t < |xs| - 1 ==> xs[..|xs| - 1][t] == xs[t];
      if Kept(keep, |xs| - 1) then init + [xs[|xs| - 1]] else init
  }

  /**
   * `w` is `xs` read at `idx`, the increasing list of exactly the positions
   * whose draw says keep.
   */
  ghost predicate ReadAtKept(xs: seq<Edge>, keep: seq<bool>, w: seq<Edge>, idx: seq<nat>) {
    && |idx| == |w|
    && (forall i, j :: 0 <= i < j < |idx| ==> idx[i] < idx[j])
    && (forall i :: 0 <= i < |idx| ==> idx[i] < |xs| && Kept(keep, idx[i]) && w[i] == xs[idx[i]])
    && (forall t :: 0 <= t < |xs| && Kept(keep, t) ==> t in idx)
  }

  /**
   * One more input element: `ys` is `xs` and one more element, which joins
   * the result, at its own position, exactly when its draw says keep.
   */
  lemma ReadAtKeptSnoc(xs: seq<Edge>, keep: seq<bool>, w: seq<Edge>, idx: seq<nat>,
                       ys: seq<Edge>, w': seq<Edge>, idx': seq<nat>)
    requires ReadAtKept(xs, keep, w, idx)
    requires |ys| == |xs| + 1 && ys[..|xs|] == xs
    requires Kept(keep, |xs|) ==> w' == w + [ys[|xs|]] && idx' == idx + [|xs|]
    requires !Kept(keep, |xs|) ==> w' == w && idx' == idx
    ensures ReadAtKept(ys, keep, w', idx')
  {
    assert forall t :: 0 <= t < |xs| ==> ys[t] == xs[t];
    if Kept(keep, |xs|) {
      forall i | 0 <= i < |idx'|
        ensures idx'[i] < |ys| && Kept(keep, idx'[i]) && w'[i] == ys[idx'[i]]
      {
        if i < |idx| {
          assert idx'[i] == idx[i] && w'[i] == w[i];
        }
      }
      forall t | 0 <= t < |ys| && Kept(keep, t)
        ensures t in idx'
      {
        if t < |xs| {
          assert t in idx;
        } else {
          assert idx'[|idx|] == t;
        }
      }
    }
  }

  /** The kept positions of `xs`, along which `Where` reads it. */
  lemma {:induction false} WhereReadsKept(xs: seq<Edge>, keep: seq<bool>) returns (idx: seq<nat>)
    ensures ReadAtKept(xs, keep, Where(xs, keep), idx)
    decreases |xs|
  {
    if xs == [] {
      idx := [];
    } else {
      var init, last := xs[..|xs| - 1], xs[|xs| - 1];
      var before := WhereReadsKept(init, keep);
      idx := if Kept(keep, |init|) then before + [|init|] else before;
      ReadAtKeptSnoc(init, keep, Where(init, keep), before, xs, Where(xs, keep), idx);
    }
  }

  /**
   * `Where` keeps one copy per kept position, in input order: the result is
   * `xs` read at the increasing list of exactly the positions whose draw
   * says keep.
   */
  lemma WhereIndices(xs: seq<Edge>, keep: seq<bool>) returns (idx: seq<nat>)
    ensures |idx| == |Where(xs, keep)|
    ensures forall i, j :: 0 <= i < j < |idx| ==> idx[i] < idx[j]
    ensures forall i :: 0 <= i < |idx| ==> idx[i] < |xs| && Kept(keep, idx[i]) && Where(xs, keep)[i] == xs[idx[i]]
    ensures forall t :: 0 <= t < |xs| && Kept(keep, t) ==> t in idx
  {
    idx := WhereReadsKept(xs, keep);
  }

  /** Position of the first occurrence of `e` in `xs`. */
  function FirstIndex(xs: seq<Edge>, e: Edge): (k: nat)
    requires e in xs
    ensures k < |xs| && xs[k] == e && e !in xs[..k]
  {
    if xs[0] == e then 0 else 1 + FirstIndex(xs[1..], e)
  }

  lemma {:induction false} FirstIndexPrefix(xs: seq<Edge>, x: Edge, e: Edge)
    requires e in xs
    ensures FirstIndex(xs + [x], e) == FirstIndex(xs, e)
  {
    if xs[0] != e {
      assert (xs + [x])[1..] == xs[1..] + [x];
      FirstIndexPrefix(xs[1..], x, e);
    }
  }

  /**
   * The distinct elements of `xs` in order of first occurrence (the LINQ
   * Union of two lists is the distinct elements of their concatenation).
   */
  function Distinct(xs: seq<Edge>): (r: seq<Edge>)
    ensures forall e :: e in r ==> e in xs
    ensures forall e :: e in xs ==> e in r
    ensures forall i, j :: 0 <= i < j < |r| ==> r[i] != r[j]
  {
    if xs == [] then []
    else
      var init, last := xs[..|xs| - 1], xs[|xs| - 1];
      assert xs == init + [last];
      var d := Distinct(init);
      if last in d then d else d + [last]
  }

  /** The distinct elements keep the order of their first occurrences. */
  lemma {:induction false} DistinctKeepsFirstOrder(xs: seq<Edge>)
    ensures forall i, j :: 0 <= i < j < |Distinct(xs)| ==> FirstIndex(xs, Distinct(xs)[i]) < FirstIndex(xs, Distinct(xs)[j])
    decreases |xs|
  {
    if xs != [] {
      var init, last := xs[..|xs| - 1], xs[|xs| - 1];
      assert xs == init + [last];
      DistinctKeepsFirstOrder(init);
      var d := Distinct(init);
      forall e | e in init
        ensures FirstIndex(xs, e) == FirstIndex(init, e)
      {
        FirstIndexPrefix(init, last, e);
      }
      if last !in d {
        assert FirstIndex(xs, last) == |xs| - 1;
      }
    }
  }

  /** Removes the first occurrence of `x`, as the program's List.Remove does. */
  function RemoveFirst(xs: seq<Edge>, x: Edge): (r: seq<Edge>)
    ensures x !in xs ==> r == xs
    ensures |r| == if x in xs then |xs| - 1 else |xs|
    ensures forall e :: e in r ==> e in xs
  {
    if xs == [] then []
    else if xs[0] == x then
      assert xs == [xs[0]] + xs[1..];
      xs[1..]
    else
      assert xs == [xs[0]] + xs[1..];
      [xs[0]] + RemoveFirst(xs[1..], x)
  }

  /** The removal takes away exactly one copy of `x`, when there is one. */
  lemma {:induction false} RemoveFirstMultiset(xs: seq<Edge>, x: Edge)
    ensures multiset(RemoveFirst(xs, x)) == multiset(xs) - multiset{x}
  {
    if xs != [] {
      assert xs == [xs[0]] + xs[1..];
      if xs[0] != x {
        RemoveFirstMultiset(xs[1..], x);
      }
    }
  }

  /** The removal cuts out exactly the first occurrence: the one after a prefix without `x`. */
  lemma {:induction false} RemoveFirstCutsFirst(prefix: seq<Edge>, x: Edge, suffix: seq<Edge>)
    requires x !in prefix
    ensures RemoveFirst(prefix + [x] + suffix, x) == prefix + suffix
  {
    var xs := prefix + [x] + suffix;
    if prefix == [] {
      assert xs == [x] + suffix;
    } else {
      assert xs[0] == prefix[0] && xs[1..] == prefix[1..] + [x] + suffix;
      assert xs[0] != x;
      RemoveFirstCutsFirst(prefix[1..], x, suffix);
      calc {
        RemoveFirst(xs, x);
        [prefix[0]] + RemoveFirst(prefix[1..] + [x] + suffix, x);
        [prefix[0]] + (prefix[1..] + suffix);
        { assert prefix == [prefix[0]] + prefix[1..]; }
        prefix + suffix;
      }
    }
  }

  /**
   * The edges left by the removal step of a mutation: with the draw set and
   * more than one edge, the first occurrence of the edge at the drawn
   * position is removed.
   */
  function AfterRemoval(edges: seq<Edge>, fires: bool, removal: nat): (r: seq<Edge>)
    ensures |r| == if fires && |edges| > 1 then |edges| - 1 else |edges|
    ensures forall e :: e in r ==> e in edges
    ensures !(fires && |edges| > 1) ==> r == edges
  {
    if fires && |edges| > 1 then RemoveFirst(edges, edges[removal % |edges|]) else edges
  }

  // ---------------------------------------------------------------------------
  // Connectivity repair

  /** Edge `e` leads from component `ci` to component `cj`. */
  predicate IsBridge(e: Edge, ci: seq<int>, cj: seq<int>) {
    e.from in ci && e.to in cj
  }

  /**
   * The candidate leading from `ci` to `cj` of least weight, the earliest
   * one among equal weights (a stable order by weight, then the first
   * element); `None` where the program's `First()` throws.
   */
  function CheapestBridge(cands: seq<Edge>, ci: seq<int>, cj: seq<int>): (r: Option<Edge>)
    ensures r.None? <==> forall e :: e in cands ==> !IsBridge(e, ci, cj)
    ensures r.Some? ==> r.value in cands && IsBridge(r.value, ci, cj)
  {
    if cands == [] then None
    else
      var rest := CheapestBridge(cands[1..], ci, cj);
      assert cands == [cands[0]] + cands[1..];
      if IsBridge(cands[0], ci, cj) && (rest.None? || cands[0].weight <= rest.value.weight) then Some(cands[0])
      else rest
  }

  /** The chosen bridge weighs no more than any candidate bridge. */
  lemma {:induction false} CheapestBridgeIsLeast(cands: seq<Edge>, ci: seq<int>, cj: seq<int>, e: Edge)
    requires e in cands && IsBridge(e, ci, cj)
    ensures CheapestBridge(cands, ci, cj).Some? && CheapestBridge(cands, ci, cj).value.weight <= e.weight
  {
    if e != cands[0] {
      assert e in cands[1..];
      CheapestBridgeIsLeast(cands[1..], ci, cj, e);
    }
  }

  /** Among candidate bridges of least weight, the chosen one comes first. */
  lemma {:induction false} CheapestBridgeIsFirst(cands: seq<Edge>, ci: seq<int>, cj: seq<int>, t: nat)
    requires t < |cands| && IsBridge(cands[t], ci, cj)
    requires CheapestBridge(cands, ci, cj).Some? && cands[t].weight == CheapestBridge(cands, ci, cj).value.weight
    ensures CheapestBridge(cands, ci, cj).value in cands[..t + 1]
  {
    var r := CheapestBridge(cands, ci, cj).value;
    if r == cands[0] {
      assert cands[0] in cands[..t + 1];
    } else {
      var rest := CheapestBridge(cands[1..], ci, cj);
      assert t > 0;
      assert cands[1..][t - 1] == cands[t];
      CheapestBridgeIsFirst(cands[1..], ci, cj, t - 1);
      assert cands[1..][..t] == cands[1..t + 1];
    }
  }

  /** Edge `e` is the cheapest bridge of some ordered pair of distinct components. */
  ghost predicate BridgeOfSomePair(allEdges: seq<Edge>, sccs: seq<seq<int>>, e: Edge) {
    exists i, j :: 0 <= i < |sccs| && 0 <= j < |sccs| && i != j && CheapestBridge(allEdges, sccs[i], sccs[j]) == Some(e)
  }

  /** Some ordered pair of distinct components has no candidate bridge. */
  ghost predicate SomePairUnbridged(allEdges: seq<Edge>, sccs: seq<seq<int>>) {
    exists i, j :: 0 <= i < |sccs| && 0 <= j < |sccs| && i != j && CheapestBridge(allEdges, sccs[i], sccs[j]).None?
  }

  /**
   * `r` is `edges` followed by one cheapest bridge for every ordered pair of
   * distinct components: k·(k-1) edges, each the bridge of some pair, and
   * every pair's bridge among them.
   */
  ghost predicate Repaired(edges: seq<Edge>, allEdges: seq<Edge>, sccs: seq<seq<int>>, r: seq<Edge>) {
    && |r| == |edges| + |sccs| * (|sccs| - 1)
    && r[..|edges|] == edges
    && (forall t :: |edges| <= t < |r| ==> BridgeOfSomePair(allEdges, sccs, r[t]))
    && (forall i, j :: 0 <= i < |sccs| && 0 <= j < |sccs| && i != j ==>
          CheapestBridge(allEdges, sccs[i], sccs[j]).Some? &&
          CheapestBridge(allEdges, sccs[i], sccs[j]).value in r[|edges|..])
    && (forall i, j :: 0 <= i < |sccs| && 0 <= j < |sccs| && i != j ==> BridgeAt(allEdges, sccs, r[|edges|..], i, j))
  }

  /**
   * Where the bridge from component `i` to component `j` goes among the
   * k·(k-1) appended bridges: by `i`, then by `j`, skipping `j == i`.
   */
  function Slot(k: int, i: int, j: int): int {
    i * (k - 1) + (if j < i then j else j - 1)
  }

  /** The appended bridge at `Slot(k, i, j)` is the cheapest bridge from component `i` to component `j`. */
  ghost predicate BridgeAt(allEdges: seq<Edge>, sccs: seq<seq<int>>, added: seq<Edge>, i: int, j: int) {
    && 0 <= i < |sccs| && 0 <= j < |sccs|
    && 0 <= Slot(|sccs|, i, j) < |added|
    && CheapestBridge(allEdges, sccs[i], sccs[j]) == Some(added[Slot(|sccs|, i, j)])
  }

  /** The slots of row `i` follow the rows before it and precede the rows after it. */
  lemma SlotRange(k: int, i: int, j: int, i': int)
    requires 0 <= i < k && 0 <= j < k && i != j && 0 <= i'
    ensures i * (k - 1) <= Slot(k, i, j) < (i + 1) * (k - 1)
    ensures i < i' ==> Slot(k, i, j) < i' * (k - 1)
  {
    if i < i' {
      MulMonotone(i + 1, i', k - 1);
    }
  }

  lemma MulMonotone(a: int, b: int, c: int)
    requires a <= b && 0 <= c
    ensures a * c <= b * c
  {
  }

  /**
   * Appending the bridges of row `i`, in the order of `j`, to the bridges
   * of the rows before it keeps every bridge at its slot.
   */
  lemma BridgesAppended(allEdges: seq<Edge>, sccs: seq<seq<int>>, added: seq<Edge>, i: int, row: seq<Edge>)
    requires 0 <= i < |sccs| && |added| == i * (|sccs| - 1) && |row| == |sccs| - 1
    requires forall i', j' :: 0 <= i' < i && 0 <= j' < |sccs| && i' != j' ==> BridgeAt(allEdges, sccs, added, i', j')
    requires forall j :: 0 <= j < |sccs| && j != i ==>
               CheapestBridge(allEdges, sccs[i], sccs[j]) == Some(row[if j < i then j else j - 1])
    ensures forall i', j' :: 0 <= i' <= i && 0 <= j' < |sccs| && i' != j' ==> BridgeAt(allEdges, sccs, added + row, i', j')
  {
    var k := |sccs|;
    assert (i + 1) * (k - 1) == i * (k - 1) + (k - 1);
    forall i', j' | 0 <= i' <= i && 0 <= j' < k && i' != j'
      ensures BridgeAt(allEdges, sccs, added + row, i', j')
    {
      SlotRange(k, i', j', i);
      if i' < i {
        assert BridgeAt(allEdges, sccs, added, i', j');
        assert (added + row)[Slot(k, i', j')] == added[Slot(k, i', j')];
      } else {
        assert (added + row)[Slot(k, i', j')] == row[if j' < i' then j' else j' - 1];
      }
    }
  }

  /**
   * `r` is `kept` repaired: `kept` followed by one cheapest bridge for every
   * ordered pair of distinct components of `kept`.
   */
  ghost predicate RepairedFrom(kept: seq<Edge>, allEdges: seq<Edge>, n: nat, r: seq<Edge>) {
    exists sccs :: IsSccPartition(kept, n, sccs) && Repaired(kept, allEdges, sccs, r)
  }

  /** Every ordered pair of distinct nodes has a candidate edge. */
  predicate CoversAllPairs(allEdges: seq<Edge>, n: int) {
    forall u, v :: 0 <= u < n && 0 <= v < n && u != v ==> HasEdge(allEdges, u, v)
  }

  /**
   * Adds, for every ordered pair of distinct strongly connected components,
   * the cheapest candidate edge leading from the first to the second.
   * `None` when some pair has no candidate (the program throws there).
   */
  method EnsureConnectivity(edges: seq<Edge>, allEdges: seq<Edge>, n: nat)
    returns (r: Option<seq<Edge>>, ghost sccs: seq<seq<int>>)
    requires ValidEdges(edges, n)
    ensures IsSccPartition(edges, n, sccs)
    ensures r.None? <==> SomePairUnbridged(allEdges, sccs)
    ensures r.Some? ==> Repaired(edges, allEdges, sccs, r.value)
    ensures r.Some? ==> |edges| <= |r.value| && r.value[..|edges|] == edges
    ensures r.Some? ==> ValidEdges(r.value, n) && StronglyConnected(r.value, n)
    ensures r.Some? ==> forall e :: e in r.value ==> e in edges || e in allEdges
    ensures CoversAllPairs(allEdges, n) ==> r.Some?
  {
    var components := FindSccs(n, edges);
    sccs := components;
    if CoversAllPairs(allEdges, n) {
      BridgesExist(edges, allEdges, n, sccs);
    }
    var k := |components|;
    var out := edges;
    ghost var added: seq<Edge> := [];
    for i := 0 to k
      invariant out == edges + added && |added| == i * (k - 1)
      invariant forall e :: e in added ==> BridgeOfSomePair(allEdges, sccs, e)
      invariant forall i', j' :: 0 <= i' < i && 0 <= j' < k && i' != j' ==> PairBridged(allEdges, sccs, i', j', added)
      invariant forall i', j' :: 0 <= i' < i && 0 <= j' < k && i' != j' ==> BridgeAt(allEdges, sccs, added, i', j')
    {
      var bridges := BridgesFrom(components, i, allEdges);
      if bridges.None? {
        return None, sccs;
      }
      BridgedGrows(allEdges, sccs, added, bridges.value);
      BridgesAppended(allEdges, sccs, added, i, bridges.value);
      out := out + bridges.value;
      added := added + bridges.value;
      assert (i + 1) * (k - 1) == i * (k - 1) + (k - 1);
    }
    r := Some(out);
    AllPairsBridged(edges, allEdges, n, sccs, added);
  }

  /**
   * The inner loop of the repair: the cheapest bridges from component `i`
   * to every other component, in component order; `None` at the first
   * component that has none.
   */
  method BridgesFrom(components: seq<seq<int>>, i: nat, allEdges: seq<Edge>) returns (bridges: Option<seq<Edge>>)
    requires i < |components|
    ensures bridges.None? <==>
              exists j :: 0 <= j < |components| && j != i && CheapestBridge(allEdges, components[i], components[j]).None?
    ensures bridges.Some? ==> |bridges.value| == |components| - 1
    ensures bridges.Some? ==> forall e :: e in bridges.value ==> BridgeOfSomePair(allEdges, components, e)
    ensures bridges.Some? ==> forall j :: 0 <= j < |components| && j != i ==> PairBridged(allEdges, components, i, j, bridges.value)
    ensures bridges.Some? ==> forall j :: 0 <= j < |components| && j != i ==>
              CheapestBridge(allEdges, components[i], components[j]) == Some(bridges.value[if j < i then j else j - 1])
  {
    var found: seq<Edge> := [];
    for j := 0 to |components|
      invariant |found| == if j <= i then j else j - 1
      invariant forall j' :: 0 <= j' < j && j' != i ==>
                  CheapestBridge(allEdges, components[i], components[j']) == Some(found[if j' < i then j' else j' - 1])
      invariant forall e :: e in found ==> BridgeOfSomePair(allEdges, components, e)
      invariant forall j' :: 0 <= j' < j && j' != i ==> PairBridged(allEdges, components, i, j', found)
      invariant forall j' :: 0 <= j' < j && j' != i ==> CheapestBridge(allEdges, components[i], components[j']).Some?
    {
      if i != j {
        var e := CheapestBridge(allEdges, components[i], components[j]);
        if e.None? {
          return None;
        }
        assert BridgeOfSomePair(allEdges, components, e.value) by {
          assert CheapestBridge(allEdges, components[i], components[j]) == Some(e.value);
        }
        BridgedGrows(allEdges, components, found, [e.value]);
        found := found + [e.value];
      }
    }
    bridges := Some(found);
  }

  /** A bridge in either part is in the concatenation. */
  lemma BridgedGrows(allEdges: seq<Edge>, sccs: seq<seq<int>>, added: seq<Edge>, more: seq<Edge>)
    ensures forall i, j :: 0 <= i < |sccs| && 0 <= j < |sccs| ==>
              (PairBridged(allEdges, sccs, i, j, added) || PairBridged(allEdges, sccs, i, j, more) ==>
                 PairBridged(allEdges, sccs, i, j, added + more))
  {
  }

  /** Once every pair is bridged, the extended list is a repair and is strongly connected. */
  lemma AllPairsBridged(edges: seq<Edge>, allEdges: seq<Edge>, n: nat, sccs: seq<seq<int>>, added: seq<Edge>)
    requires ValidEdges(edges, n) && IsSccPartition(edges, n, sccs)
    requires |added| == |sccs| * (|sccs| - 1)
    requires forall e :: e in added ==> BridgeOfSomePair(allEdges, sccs, e)
    requires forall i, j :: 0 <= i < |sccs| && 0 <= j < |sccs| && i != j ==> PairBridged(allEdges, sccs, i, j, added)
    requires forall i, j :: 0 <= i < |sccs| && 0 <= j < |sccs| && i != j ==> BridgeAt(allEdges, sccs, added, i, j)
    ensures !SomePairUnbridged(allEdges, sccs)
    ensures Repaired(edges, allEdges, sccs, edges + added)
    ensures ValidEdges(edges + added, n) && StronglyConnected(edges + added, n)
    ensures forall e :: e in edges + added ==> e in edges || e in allEdges
  {
    var r := edges + added;
    assert r[..|edges|] == edges && r[|edges|..] == added;
    forall t | |edges| <= t < |r|
      ensures BridgeOfSomePair(allEdges, sccs, r[t])
    {
      assert r[t] == added[t - |edges|];
    }
    forall i, j | 0 <= i < |sccs| && 0 <= j < |sccs| && i != j
      ensures CheapestBridge(allEdges, sccs[i], sccs[j]).Some? && CheapestBridge(allEdges, sccs[i], sccs[j]).value in r[|edges|..]
    {
      assert PairBridged(allEdges, sccs, i, j, added);
    }
    RepairConnects(edges, allEdges, n, sccs, r);
  }

  /** The cheapest bridge from component `i` to component `j` exists and is in `added`. */
  ghost predicate PairBridged(allEdges: seq<Edge>, sccs: seq<seq<int>>, i: int, j: int, added: seq<Edge>)
    requires 0 <= i < |sccs| && 0 <= j < |sccs|
  {
    CheapestBridge(allEdges, sccs[i], sccs[j]).Some? && CheapestBridge(allEdges, sccs[i], sccs[j]).value in added
  }

  /** With a candidate for every pair of distinct nodes, every pair of distinct components is bridged. */
  lemma BridgesExist(edges: seq<Edge>, allEdges: seq<Edge>, n: nat, sccs: seq<seq<int>>)
    requires IsSccPartition(edges, n, sccs) && CoversAllPairs(allEdges, n)
    ensures !SomePairUnbridged(allEdges, sccs)
  {
    forall i, j | 0 <= i < |sccs| && 0 <= j < |sccs| && i != j
      ensures CheapestBridge(allEdges, sccs[i], sccs[j]).Some?
    {
      var u, v := sccs[i][0], sccs[j][0];
      assert u in sccs[i] && v in sccs[j];
      assert u != v;
      assert HasEdge(allEdges, u, v);
      var e :| e in allEdges && e.from == u && e.to == v;
      assert IsBridge(e, sccs[i], sccs[j]);
    }
  }

  /** A repaired edge list is valid and strongly connected. */
  lemma RepairConnects(edges: seq<Edge>, allEdges: seq<Edge>, n: nat, sccs: seq<seq<int>>, r: seq<Edge>)
    requires ValidEdges(edges, n) && IsSccPartition(edges, n, sccs)
    requires Repaired(edges, allEdges, sccs, r)
    ensures ValidEdges(r, n) && StronglyConnected(r, n)
    ensures forall e :: e in r ==> e in edges || e in allEdges
  {
    RepairKeepsEdges(edges, allEdges, n, sccs, r);
    forall i, j | 0 <= i < |sccs| && 0 <= j < |sccs| && i != j
      ensures PairBridged(allEdges, sccs, i, j, r)
    {
      assert CheapestBridge(allEdges, sccs[i], sccs[j]).value in r[|edges|..];
    }
    forall u, v | 0 <= u < n && 0 <= v < n
      ensures Reach(r, u, v)
    {
      RepairReaches(edges, allEdges, n, sccs, r, u, v);
    }
  }

  /** A repair keeps the original edges and adds only candidates between nodes. */
  lemma RepairKeepsEdges(edges: seq<Edge>, allEdges: seq<Edge>, n: nat, sccs: seq<seq<int>>, r: seq<Edge>)
    requires ValidEdges(edges, n) && IsSccPartition(edges, n, sccs)
    requires Repaired(edges, allEdges, sccs, r)
    ensures ValidEdges(r, n)
    ensures forall e :: e in r ==> e in edges || e in allEdges
    ensures forall e :: e in edges ==> e in r
  {
    forall e | e in r
      ensures 0 <= e.from < n && 0 <= e.to < n && (e in edges || e in allEdges)
    {
      var t :| 0 <= t < |r| && r[t] == e;
      if t >= |edges| {
        assert BridgeOfSomePair(allEdges, sccs, r[t]);
      } else {
        assert e in r[..|edges|];
      }
    }
    forall e | e in edges
      ensures e in r
    {
      assert e in r[..|edges|];
    }
  }

  /** In a repair, every node reaches every node: within a component, or over the bridge between two. */
  lemma RepairReaches(edges: seq<Edge>, allEdges: seq<Edge>, n: nat, sccs: seq<seq<int>>, r: seq<Edge>, u: int, v: int)
    requires IsSccPartition(edges, n, sccs)
    requires forall i, j :: 0 <= i < |sccs| && 0 <= j < |sccs| && i != j ==> PairBridged(allEdges, sccs, i, j, r)
    requires forall e :: e in edges ==> e in r
    requires 0 <= u < n && 0 <= v < n
    ensures Reach(r, u, v)
  {
    assert Covered(sccs, u) && Covered(sccs, v);
    var ci :| 0 <= ci < |sccs| && u in sccs[ci];
    var cj :| 0 <= cj < |sccs| && v in sccs[cj];
    if ci == cj {
      InComponent(edges, n, sccs, ci, u, v);
      ReachMonotone(edges, r, u, v);
    } else {
      assert PairBridged(allEdges, sccs, ci, cj, r);
      var b := CheapestBridge(allEdges, sccs[ci], sccs[cj]).value;
      ReachOverBridge(edges, n, sccs, r, ci, cj, u, v, b);
    }
  }

  /** A walk from `u` to `v`: inside the component of `u` to the bridge, across, then inside the component of `v`. */
  lemma ReachOverBridge(edges: seq<Edge>, n: nat, sccs: seq<seq<int>>, r: seq<Edge>, ci: int, cj: int, u: int, v: int, b: Edge)
    requires IsSccPartition(edges, n, sccs) && forall e :: e in edges ==> e in r
    requires 0 <= ci < |sccs| && 0 <= cj < |sccs| && u in sccs[ci] && v in sccs[cj]
    requires b in r && b.from in sccs[ci] && b.to in sccs[cj]
    ensures Reach(r, u, v)
  {
    InComponent(edges, n, sccs, ci, u, b.from);
    InComponent(edges, n, sccs, cj, b.to, v);
    ReachMonotone(edges, r, u, b.from);
    ReachMonotone(edges, r, b.to, v);
    assert HasEdge(r, b.from, b.to);
    ReachStep(r, b.from, b.to, v);
    ReachTrans(r, u, b.from, v);
  }

  /** Two members of one component are mutually reachable. */
  lemma InComponent(edges: seq<Edge>, n: nat, sccs: seq<seq<int>>, c: int, a: int, b: int)
    requires IsSccPartition(edges, n, sccs) && 0 <= c < |sccs| && a in sccs[c] && b in sccs[c]
    ensures SameScc(edges, a, b)
  {
    assert 0 <= b < n;
  }

  // ---------------------------------------------------------------------------
  // Fitness

  /** Shortest travel times from `s` to every node. */
  ghost function Row(edges: seq<Edge>, s: int, n: nat): (r: seq<Dist>)
    ensures |r| == n && forall v :: 0 <= v < n ==> r[v] == Distance(edges, s, v)
  {
    seq(n, v => Distance(edges, s, v))
  }

  /** Sum of the rows of the sources `0 .. m-1`. */
  ghost function TotalUpTo(edges: seq<Edge>, n: nat, m: nat): Dist {
    if m == 0 then Fin(0) else AddDist(TotalUpTo(edges, n, m - 1), SumDist(Row(edges, m - 1, n)))
  }

  /** The second objective: the sum of the shortest travel times over all ordered pairs of nodes. */
  ghost function TotalDistance(edges: seq<Edge>, n: nat): Dist {
    TotalUpTo(edges, n, n)
  }

  /** Every node is reachable from `s`. */
  ghost predicate ReachesAll(edges: seq<Edge>, s: int, n: nat) {
    forall v :: 0 <= v < n ==> Reach(edges, s, v)
  }

  /** A row sums to a finite time exactly when its source reaches every node. */
  lemma RowFinite(edges: seq<Edge>, s: int, n: nat)
    ensures SumDist(Row(edges, s, n)).Fin? <==> ReachesAll(edges, s, n)
  {
    var row := Row(edges, s, n);
    if SumDist(row).Fin? {
      forall v | 0 <= v < n
        ensures Reach(edges, s, v)
      {
        assert row[v].Fin?;
      }
    }
  }

  /** Each of the sources `0 .. m-1` reaches every node. */
  ghost predicate SourcesReachAll(edges: seq<Edge>, n: nat, m: nat) {
    m == 0 || (SourcesReachAll(edges, n, m - 1) && ReachesAll(edges, m - 1, n))
  }

  lemma {:induction false} TotalUpToFinite(edges: seq<Edge>, n: nat, m: nat)
    ensures TotalUpTo(edges, n, m).Fin? <==> SourcesReachAll(edges, n, m)
  {
    if m > 0 {
      TotalUpToFinite(edges, n, m - 1);
      RowFinite(edges, m - 1, n);
    }
  }

  lemma {:induction false} SourcesReachAllMeans(edges: seq<Edge>, n: nat, m: nat)
    ensures SourcesReachAll(edges, n, m) <==> forall s :: 0 <= s < m ==> ReachesAll(edges, s, n)
  {
    if m > 0 {
      SourcesReachAllMeans(edges, n, m - 1);
    }
  }

  /** The total travel time is finite exactly when every node reaches every node. */
  lemma TotalDistanceFinite(edges: seq<Edge>, n: nat)
    ensures TotalDistance(edges, n).Fin? <==> StronglyConnected(edges, n)
  {
    TotalUpToFinite(edges, n, n);
    SourcesReachAllMeans(edges, n, n);
    if TotalDistance(edges, n).Fin? {
      forall u, v | 0 <= u < n && 0 <= v < n
        ensures Reach(edges, u, v)
      {
        assert ReachesAll(edges, u, n);
      }
    }
  }

  /**
   * Sets the first objective to the number of edges and the second to the
   * sum, over every source, of all its shortest travel times.
   */
  method EvaluateSolution(solution: Solution, n: nat)
    requires ValidEdges(solution.edges, n)
    modifies solution
    ensures solution.edges == old(solution.edges)
    ensures solution.objective1 == |solution.edges|
    ensures solution.objective2 == TotalDistance(solution.edges, n)
  {
    var edges := solution.edges;
    solution.objective1 := |edges|;
    var totalCommuteTime := Fin(0);
    for i := 0 to n
      invariant solution.edges == edges && solution.objective1 == |edges|
      invariant totalCommuteTime == TotalUpTo(edges, n, i)
    {
      var distances := GetShortestPath(edges, i, n);
      TotalStep(edges, n, i, totalCommuteTime, distances);
      totalCommuteTime := AddDist(totalCommuteTime, SumDist(distances[..]));
    }
    solution.objective2 := totalCommuteTime;
  }

  /** Adding the sum of the next source's distances extends the running total by that source. */
  lemma TotalStep(edges: seq<Edge>, n: nat, i: nat, total: Dist, d: array<Dist>)
    requires total == TotalUpTo(edges, n, i)
    requires d.Length == n && forall v :: 0 <= v < n ==> d[v] == Distance(edges, i, v)
    ensures AddDist(total, SumDist(d[..])) == TotalUpTo(edges, n, i + 1)
  {
    assert d[..] == Row(edges, i, n);
  }

  // ---------------------------------------------------------------------------
  // Solutions of the population

  /** Every edge of `s` is a candidate edge. */
  ghost predicate Drawn(s: Solution, allEdges: seq<Edge>)
    reads s
  {
    forall e :: e in s.edges ==> e in allEdges
  }

  /** No solution object appears twice in `xs`, so updating one leaves the others alone. */
  ghost predicate NoAliases(xs: seq<Solution>)
    decreases |xs|
  {
    xs == [] || (NoAliases(xs[..|xs| - 1]) && xs[|xs| - 1] !in xs[..|xs| - 1])
  }

  /** Appending a solution not yet in `xs` keeps `xs` free of aliases. */
  lemma NoAliasesAppend(xs: seq<Solution>, x: Solution)
    requires NoAliases(xs) && x !in xs
    ensures NoAliases(xs + [x])
  {
    assert (xs + [x])[..|xs|] == xs;
  }

  /** Without aliases, different positions hold different solutions. */
  lemma {:induction false} NoAliasesApart(xs: seq<Solution>)
    requires NoAliases(xs)
    ensures forall a, b :: 0 <= a < b < |xs| ==> xs[a] != xs[b]
    decreases |xs|
  {
    if xs != [] {
      var init := xs[..|xs| - 1];
      NoAliasesApart(init);
      forall a, b | 0 <= a < b < |xs|
        ensures xs[a] != xs[b]
      {
        if b < |xs| - 1 {
          assert xs[a] == init[a] && xs[b] == init[b];
        } else {
          assert xs[a] in init;
        }
      }
    }
  }

  /** A member of the population: drawn from the candidates, repaired, and evaluated. */
  ghost predicate Member(s: Solution, allEdges: seq<Edge>, n: nat)
    reads s
  {
    && Drawn(s, allEdges)
    && ValidEdges(s.edges, n)
    && StronglyConnected(s.edges, n)
    && s.objective1 == |s.edges|
    && s.objective2 == TotalDistance(s.edges, n)
  }

  /** A repaired, evaluated member has a finite total travel time. */
  lemma MemberTotalFinite(s: Solution, allEdges: seq<Edge>, n: nat)
    requires Member(s, allEdges, n)
    ensures s.objective2.Fin?
  {
    TotalDistanceFinite(s.edges, n);
  }

  /** A random solution: the kept candidate edges, repaired. */
  method CreateRandomSolution(allEdges: seq<Edge>, keep: seq<bool>, n: nat)
    returns (solution: Option<Solution>, ghost picked: seq<Edge>, ghost sccs: seq<seq<int>>)
    requires ValidEdges(allEdges, n)
    ensures picked == Where(allEdges, keep)
    ensures IsSccPartition(picked, n, sccs)
    ensures solution.None? <==> SomePairUnbridged(allEdges, sccs)
    ensures solution.Some? ==> Repaired(picked, allEdges, sccs, solution.value.edges)
    ensures solution.Some? ==> fresh(solution.value)
    ensures solution.Some? ==> |picked| <= |solution.value.edges| && solution.value.edges[..|picked|] == picked
    ensures solution.Some? ==> Drawn(solution.value, allEdges) && ValidEdges(solution.value.edges, n)
    ensures solution.Some? ==> StronglyConnected(solution.value.edges, n)
    ensures solution.Some? ==> RepairedFrom(picked, allEdges, n, solution.value.edges)
    ensures CoversAllPairs(allEdges, n) ==> solution.Some?
  {
    var edges := Where(allEdges, keep);
    picked := edges;
    var repaired;
    repaired, sccs := EnsureConnectivity(edges, allEdges, n);
    if repaired.None? {
      return None, picked, sccs;
    }
    assert IsSccPartition(picked, n, sccs) && Repaired(picked, allEdges, sccs, repaired.value);
    var s := new Solution(repaired.value);
    solution := Some(s);
  }

  /** A child: the kept edges of the union of both parents' edges, repaired. */
  method Crossover(parent1: Solution, parent2: Solution, keep: seq<bool>, allEdges: seq<Edge>, n: nat)
    returns (child: Option<Solution>, ghost picked: seq<Edge>, ghost sccs: seq<seq<int>>)
    requires ValidEdges(allEdges, n) && Drawn(parent1, allEdges) && Drawn(parent2, allEdges)
    ensures picked == Where(Distinct(parent1.edges + parent2.edges), keep)
    ensures IsSccPartition(picked, n, sccs)
    ensures child.None? <==> SomePairUnbridged(allEdges, sccs)
    ensures child.Some? ==> Repaired(picked, allEdges, sccs, child.value.edges)
    ensures child.Some? ==> fresh(child.value)
    ensures child.Some? ==> |picked| <= |child.value.edges| && child.value.edges[..|picked|] == picked
    ensures child.Some? ==> Drawn(child.value, allEdges) && ValidEdges(child.value.edges, n)
    ensures child.Some? ==> StronglyConnected(child.value.edges, n)
    ensures child.Some? ==> RepairedFrom(picked, allEdges, n, child.value.edges)
    ensures CoversAllPairs(allEdges, n) ==> child.Some?
  {
    var childEdges := Where(Distinct(parent1.edges + parent2.edges), keep);
    picked := childEdges;
    assert forall e :: e in childEdges ==> e in allEdges;
    var repaired;
    repaired, sccs := EnsureConnectivity(childEdges, allEdges, n);
    if repaired.None? {
      return None, picked, sccs;
    }
    assert IsSccPartition(picked, n, sccs) && Repaired(picked, allEdges, sccs, repaired.value);
    var s := new Solution(repaired.value);
    child := Some(s);
  }

  /**
   * With the mutation draw set and more than one edge, removes the first
   * occurrence of the edge at the drawn position; then repairs. `false`
   * when the repair fails.
   */
  method Mutate(solution: Solution, fires: bool, removal: nat, allEdges: seq<Edge>, n: nat)
    returns (ok: bool, ghost kept: seq<Edge>, ghost sccs: seq<seq<int>>)
    requires ValidEdges(allEdges, n) && Drawn(solution, allEdges)
    modifies solution
    ensures kept == AfterRemoval(old(solution.edges), fires, removal)
    ensures IsSccPartition(kept, n, sccs)
    ensures !ok <==> SomePairUnbridged(allEdges, sccs)
    ensures ok ==> Repaired(kept, allEdges, sccs, solution.edges)
    ensures |kept| >= |old(solution.edges)| - 1
    ensures ok ==> |kept| <= |solution.edges| && solution.edges[..|kept|] == kept && StronglyConnected(solution.edges, n)
    ensures ok ==> RepairedFrom(kept, allEdges, n, solution.edges)
    ensures !ok ==> solution.edges == kept
    ensures Drawn(solution, allEdges) && ValidEdges(solution.edges, n)
    ensures solution.objective1 == old(solution.objective1) && solution.objective2 == old(solution.objective2)
    ensures CoversAllPairs(allEdges, n) ==> ok
  {
    if fires && |solution.edges| > 1 {
      var edgeToRemove := solution.edges[removal % |solution.edges|];
      solution.edges := RemoveFirst(solution.edges, edgeToRemove);
    }
    kept := solution.edges;
    var repaired;
    repaired, sccs := EnsureConnectivity(solution.edges, allEdges, n);
    if repaired.None? {
      return false, kept, sccs;
    }
    assert IsSccPartition(kept, n, sccs) && Repaired(kept, allEdges, sccs, repaired.value);
    solution.edges := repaired.value;
    ok := true;
  }

  // ---------------------------------------------------------------------------
  // Generations

  /** The draws that produce one child. */
  datatype ChildDraws = ChildDraws(parent1: nat, parent2: nat, keep: seq<bool>, mutate: bool, removal: nat)

  /** The parent selected by draw `k`, as `population[Next(population.Count)]` selects it. */
  function Parent(population: seq<Solution>, k: nat): (p: Solution)
    requires population != []
    ensures p in population
  {
    population[k % |population|]
  }

  /** The edge lists of `population`, in order. */
  ghost function EdgesOf(population: seq<Solution>): (r: seq<seq<Edge>>)
    reads set s | s in population
    ensures |r| == |population| && forall j :: 0 <= j < |population| ==> r[j] == population[j].edges
  {
    if population == [] then [] else [population[0].edges] + EdgesOf(population[1..])
  }

  /** The edges that draw `d` keeps from the union of the edges of the parents it selects from `parents`. */
  ghost function CrossPicked(parents: seq<seq<Edge>>, d: ChildDraws): seq<Edge>
    requires parents != []
  {
    Where(Distinct(parents[d.parent1 % |parents|] + parents[d.parent2 % |parents|]), d.keep)
  }

  /**
   * `edges` are those of the child that draw `d` breeds from parents whose
   * edge lists are `parents`: the kept edges of the union of both parents'
   * edges, repaired, where `sccs` are the components of the kept edges.
   */
  ghost predicate Crossed(parents: seq<seq<Edge>>, d: ChildDraws, allEdges: seq<Edge>, n: nat,
                          sccs: seq<seq<int>>, edges: seq<Edge>) {
    && parents != []
    && IsSccPartition(CrossPicked(parents, d), n, sccs)
    && Repaired(CrossPicked(parents, d), allEdges, sccs, edges)
  }

  /**
   * The child that draw `d` breeds from `parents` cannot be repaired: some
   * ordered pair of the components `sccs` of its kept edges has no bridge.
   */
  ghost predicate CrossFails(parents: seq<seq<Edge>>, d: ChildDraws, allEdges: seq<Edge>, n: nat, sccs: seq<seq<int>>) {
    && parents != []
    && IsSccPartition(CrossPicked(parents, d), n, sccs)
    && SomePairUnbridged(allEdges, sccs)
  }

  /**
   * A child bred as `Crossed` says is not one that `CrossFails` describes
   * with the same components: with `BreedChild`'s contract, the child is
   * `None` exactly when `CrossFails` holds.
   */
  lemma CrossedNotFailed(parents: seq<seq<Edge>>, d: ChildDraws, allEdges: seq<Edge>, n: nat,
                         sccs: seq<seq<int>>, edges: seq<Edge>)
    requires Crossed(parents, d, allEdges, n, sccs, edges)
    ensures !CrossFails(parents, d, allEdges, n, sccs)
  {
  }

  /** Child `a` of `crossed` is as `Crossed` says with components `components[a]`. */
  ghost predicate CrossedChild(parents: seq<seq<Edge>>, draws: seq<ChildDraws>, allEdges: seq<Edge>, n: nat,
                               components: seq<seq<seq<int>>>, crossed: seq<seq<Edge>>, a: int) {
    && 0 <= a < |crossed| && a < |components| && a < |draws|
    && Crossed(parents, draws[a], allEdges, n, components[a], crossed[a])
  }

  /** Every child so far is as `Crossed` says. */
  ghost predicate AllCrossed(parents: seq<seq<Edge>>, draws: seq<ChildDraws>, allEdges: seq<Edge>, n: nat,
                             components: seq<seq<seq<int>>>, crossed: seq<seq<Edge>>) {
    && |components| == |crossed| <= |draws|
    && forall a :: 0 <= a < |crossed| ==> CrossedChild(parents, draws, allEdges, n, components, crossed, a)
  }

  /** One more child as `Crossed` says keeps `AllCrossed`. */
  lemma AllCrossedExtend(parents: seq<seq<Edge>>, draws: seq<ChildDraws>, allEdges: seq<Edge>, n: nat,
                         components: seq<seq<seq<int>>>, crossed: seq<seq<Edge>>, sccs: seq<seq<int>>, edges: seq<Edge>)
    requires AllCrossed(parents, draws, allEdges, n, components, crossed) && |crossed| < |draws|
    requires Crossed(parents, draws[|crossed|], allEdges, n, sccs, edges)
    ensures AllCrossed(parents, draws, allEdges, n, components + [sccs], crossed + [edges])
  {
    forall a | 0 <= a < |crossed| + 1
      ensures CrossedChild(parents, draws, allEdges, n, components + [sccs], crossed + [edges], a)
    {
      if a < |crossed| {
        assert CrossedChild(parents, draws, allEdges, n, components, crossed, a);
        assert (components + [sccs])[a] == components[a] && (crossed + [edges])[a] == crossed[a];
      }
    }
  }

  /**
   * Child `i`: the crossover of the two parents that `draws[i]` selects
   * from `population`. `None` when the repair fails.
   */
  method BreedChild(population: seq<Solution>, allEdges: seq<Edge>, n: nat, draws: seq<ChildDraws>, i: nat,
                    ghost components: seq<seq<seq<int>>>, ghost crossed: seq<seq<Edge>>)
    returns (child: Option<Solution>, ghost sccs: seq<seq<int>>)
    requires ValidEdges(allEdges, n) && population != [] && i == |crossed| < |draws|
    requires forall s :: s in population ==> Drawn(s, allEdges)
    requires AllCrossed(EdgesOf(population), draws, allEdges, n, components, crossed)
    ensures child.Some? ==> fresh(child.value) && Drawn(child.value, allEdges)
    ensures child.Some? ==>
              AllCrossed(EdgesOf(population), draws, allEdges, n, components + [sccs], crossed + [child.value.edges])
    ensures child.None? ==> CrossFails(EdgesOf(population), draws[i], allEdges, n, sccs)
    ensures CoversAllPairs(allEdges, n) ==> child.Some?
  {
    var d := draws[i];
    var parent1 := Parent(population, d.parent1);
    var parent2 := Parent(population, d.parent2);
    ghost var picked;
    child, picked, sccs := Crossover(parent1, parent2, d.keep, allEdges, n);
    assert picked == CrossPicked(EdgesOf(population), d);
    if child.Some? {
      AllCrossedExtend(EdgesOf(population), draws, allEdges, n, components, crossed, sccs, child.value.edges);
    }
  }

  /**
   * The children of one generation: for each draw, a crossover of two
   * parents drawn from `population`. `None` when a repair fails or a parent
   * is drawn from an empty population.
   */
  method Breed(population: seq<Solution>, allEdges: seq<Edge>, n: nat, draws: seq<ChildDraws>)
    returns (offspring: Option<seq<Solution>>, ghost components: seq<seq<seq<int>>>, ghost crossed: seq<seq<Edge>>,
             ghost failed: seq<seq<int>>)
    requires ValidEdges(allEdges, n)
    requires forall s :: s in population ==> Drawn(s, allEdges)
    ensures offspring.Some? ==> |offspring.value| == |draws| == |crossed|
    ensures offspring.Some? ==> population != [] || draws == []
    ensures offspring.Some? ==> EdgesOf(offspring.value) == crossed
    ensures AllCrossed(EdgesOf(population), draws, allEdges, n, components, crossed)
    ensures offspring.None? ==> draws != []
    ensures offspring.None? && population != [] ==>
              |crossed| < |draws| && CrossFails(EdgesOf(population), draws[|crossed|], allEdges, n, failed)
    ensures offspring.Some? ==> forall c :: c in offspring.value ==> fresh(c) && Drawn(c, allEdges)
    ensures offspring.Some? ==> NoAliases(offspring.value)
    ensures population == [] && draws != [] ==> offspring.None?
    ensures (population != [] || draws == []) && CoversAllPairs(allEdges, n) ==> offspring.Some?
  {
    var children: seq<Solution> := [];
    components, crossed := [], [];
    ghost var parents := EdgesOf(population);
    for i := 0 to |draws|
      invariant |children| == i && |crossed| == i && (population == [] ==> i == 0)
      invariant forall c :: c in children ==> fresh(c) && Drawn(c, allEdges)
      invariant NoAliases(children)
      invariant forall a :: 0 <= a < i ==> children[a].edges == crossed[a]
      invariant AllCrossed(parents, draws, allEdges, n, components, crossed)
      invariant parents == EdgesOf(population)
    {
      if |population| == 0 {
        return None, components, crossed, [];
      }
      var child, sccs := BreedChild(population, allEdges, n, draws, i, components, crossed);
      if child.None? {
        return None, components, crossed, sccs;
      }
      NoAliasesAppend(children, child.value);
      children := children + [child.value];
      components, crossed := components + [sccs], crossed + [child.value.edges];
    }
    assert EdgesOf(children) == crossed;
    offspring, failed := Some(children), [];
  }

  /**
   * `edges` are those of a child whose edges were `before`, after the
   * mutation that draw `d` selects and the repair, where `sccs` are the
   * components of the edges the mutation left.
   */
  ghost predicate Mutated(before: seq<Edge>, d: ChildDraws, allEdges: seq<Edge>, n: nat,
                          sccs: seq<seq<int>>, edges: seq<Edge>) {
    && IsSccPartition(AfterRemoval(before, d.mutate, d.removal), n, sccs)
    && Repaired(AfterRemoval(before, d.mutate, d.removal), allEdges, sccs, edges)
  }

  /**
   * The child whose edges were `before` cannot be repaired after the
   * mutation that draw `d` selects: some ordered pair of the components
   * `sccs` of what is left has no bridge.
   */
  ghost predicate MutateFails(before: seq<Edge>, d: ChildDraws, allEdges: seq<Edge>, n: nat, sccs: seq<seq<int>>) {
    && IsSccPartition(AfterRemoval(before, d.mutate, d.removal), n, sccs)
    && SomePairUnbridged(allEdges, sccs)
  }

  /**
   * A child mutated as `Mutated` says is not one that `MutateFails`
   * describes with the same components: with `MutateChild`'s contract, the
   * mutation fails exactly when `MutateFails` holds.
   */
  lemma MutatedNotFailed(before: seq<Edge>, d: ChildDraws, allEdges: seq<Edge>, n: nat,
                         sccs: seq<seq<int>>, edges: seq<Edge>)
    requires Mutated(before, d, allEdges, n, sccs, edges)
    ensures !MutateFails(before, d, allEdges, n, sccs)
  {
  }

  /** Child `a`, whose edges were `before[a]`, has edges `after[a]` as `Mutated` says with components `components[a]`. */
  ghost predicate MutatedChild(before: seq<seq<Edge>>, draws: seq<ChildDraws>, allEdges: seq<Edge>, n: nat,
                               components: seq<seq<seq<int>>>, after: seq<seq<Edge>>, a: int) {
    && 0 <= a < |after| && a < |before| && a < |components| && a < |draws|
    && Mutated(before[a], draws[a], allEdges, n, components[a], after[a])
  }

  /** Every child so far is as `Mutated` says. */
  ghost predicate AllMutated(before: seq<seq<Edge>>, draws: seq<ChildDraws>, allEdges: seq<Edge>, n: nat,
                             components: seq<seq<seq<int>>>, after: seq<seq<Edge>>) {
    && |components| == |after| <= |before|
    && |after| <= |draws|
    && forall a :: 0 <= a < |after| ==> MutatedChild(before, draws, allEdges, n, components, after, a)
  }

  /** One more child as `Mutated` says keeps `AllMutated`. */
  lemma AllMutatedExtend(before: seq<seq<Edge>>, draws: seq<ChildDraws>, allEdges: seq<Edge>, n: nat,
                         components: seq<seq<seq<int>>>, after: seq<seq<Edge>>, sccs: seq<seq<int>>, edges: seq<Edge>)
    requires AllMutated(before, draws, allEdges, n, components, after)
    requires |after| < |before| && |after| < |draws|
    requires Mutated(before[|after|], draws[|after|], allEdges, n, sccs, edges)
    ensures AllMutated(before, draws, allEdges, n, components + [sccs], after + [edges])
  {
    forall a | 0 <= a < |after| + 1
      ensures MutatedChild(before, draws, allEdges, n, components + [sccs], after + [edges], a)
    {
      if a < |after| {
        assert MutatedChild(before, draws, allEdges, n, components, after, a);
        assert (components + [sccs])[a] == components[a] && (after + [edges])[a] == after[a];
      }
    }
  }

  /** One child of `MutateAndEvaluate`: mutated with draw `d`, repaired and evaluated. */
  method MutateChild(child: Solution, d: ChildDraws, allEdges: seq<Edge>, n: nat) returns (ok: bool, ghost sccs: seq<seq<int>>)
    requires ValidEdges(allEdges, n) && Drawn(child, allEdges)
    modifies child
    ensures ok ==> Member(child, allEdges, n) && Mutated(old(child.edges), d, allEdges, n, sccs, child.edges)
    ensures !ok ==> MutateFails(old(child.edges), d, allEdges, n, sccs)
    ensures CoversAllPairs(allEdges, n) ==> ok
  {
    ghost var kept;
    ok, kept, sccs := Mutate(child, d.mutate, d.removal, allEdges, n);
    if ok {
      EvaluateSolution(child, n);
    }
  }

  /**
   * Mutates and then evaluates every child, in order. `false` when a
   * repair fails.
   */
  method MutateAndEvaluate(children: seq<Solution>, draws: seq<ChildDraws>, allEdges: seq<Edge>, n: nat)
    returns (ok: bool, ghost components: seq<seq<seq<int>>>, ghost mutated: seq<seq<Edge>>, ghost failed: seq<seq<int>>)
    requires ValidEdges(allEdges, n) && |draws| == |children|
    requires forall c :: c in children ==> Drawn(c, allEdges)
    requires NoAliases(children)
    modifies set c | c in children
    ensures ok ==> forall c :: c in children ==> Member(c, allEdges, n)
    ensures ok ==> EdgesOf(children) == mutated
    ensures AllMutated(old(EdgesOf(children)), draws, allEdges, n, components, mutated)
    ensures !ok ==> |mutated| < |children| && MutateFails(old(EdgesOf(children))[|mutated|], draws[|mutated|], allEdges, n, failed)
    ensures CoversAllPairs(allEdges, n) || children == [] ==> ok
  {
    NoAliasesApart(children);
    ghost var before := EdgesOf(children);
    components, mutated := [], [];
    for i := 0 to |children|
      invariant |mutated| == i
      invariant forall a :: 0 <= a < i ==> Member(children[a], allEdges, n) && children[a].edges == mutated[a]
      invariant AllMutated(before, draws, allEdges, n, components, mutated)
      invariant forall a :: i <= a < |children| ==> Drawn(children[a], allEdges) && children[a].edges == before[a]
    {
      label before:
      var ok', sccs := MutateChild(children[i], draws[i], allEdges, n);
      if !ok' {
        return false, components, mutated, sccs;
      }
      forall a | 0 <= a < i
        ensures Member(children[a], allEdges, n) && children[a].edges == mutated[a]
      {
        assert children[a] != children[i];
        assert unchanged@before(children[a]);
      }
      AllMutatedExtend(before, draws, allEdges, n, components, mutated, sccs, children[i].edges);
      components, mutated := components + [sccs], mutated + [children[i].edges];
    }
    assert EdgesOf(children) == mutated;
    ok, failed := true, [];
  }

  /**
   * What one generation made: the offspring; the edges each child had after
   * the crossover and after the mutation, with the components behind each
   * repair; and the components of the child whose repair failed, if one did.
   */
  datatype Generation = Generation(offspring: seq<Solution>, crossComponents: seq<seq<seq<int>>>, crossed: seq<seq<Edge>>,
                                   mutComponents: seq<seq<seq<int>>>, mutated: seq<seq<Edge>>, failed: seq<seq<int>>)

  /**
   * `next` is the generation that follows `population`, whose edges are
   * `parents`, under `draws`, as `t` records it: child `i` is the crossover
   * of the parents that draw `i` selects, then mutated as the same draw
   * says, repaired and evaluated; `next` is the first `size` survivors of
   * the population and the offspring together.
   */
  ghost predicate Stepped(population: seq<Solution>, parents: seq<seq<Edge>>, draws: seq<ChildDraws>, allEdges: seq<Edge>,
                          n: nat, size: nat, t: Generation, next: seq<Solution>)
    reads population, t.offspring
  {
    && |t.offspring| == |t.crossed| == |t.mutated| == size
    && (forall c :: c in t.offspring ==> Member(c, allEdges, n))
    && AllCrossed(parents, draws, allEdges, n, t.crossComponents, t.crossed)
    && AllMutated(t.crossed, draws, allEdges, n, t.mutComponents, t.mutated)
    && t.mutated == EdgesOf(t.offspring)
    && next == Take(NonDominatedSorting(population + t.offspring), size)
  }

  /**
   * The generation after a population whose edges are `parents` fails under
   * `draws`, as `t` records it: a parent is drawn from an empty population;
   * or the children before
   * child `|t.crossed|` were bred and that child cannot be repaired; or all
   * were bred, the children before child `|t.mutated|` were mutated, and
   * that child cannot be repaired after its mutation.
   */
  ghost predicate StepFailed(parents: seq<seq<Edge>>, draws: seq<ChildDraws>, allEdges: seq<Edge>, n: nat, t: Generation) {
    || (parents == [] && draws != [])
    || (&& |t.crossed| < |draws|
        && AllCrossed(parents, draws, allEdges, n, t.crossComponents, t.crossed)
        && CrossFails(parents, draws[|t.crossed|], allEdges, n, t.failed))
    || (&& |t.crossed| == |draws|
        && AllCrossed(parents, draws, allEdges, n, t.crossComponents, t.crossed)
        && |t.mutated| < |t.crossed|
        && AllMutated(t.crossed, draws, allEdges, n, t.mutComponents, t.mutated)
        && MutateFails(t.crossed[|t.mutated|], draws[|t.mutated|], allEdges, n, t.failed))
  }

  /**
   * A generation recorded as `Stepped` is not one recorded as failing: with
   * `NextGeneration`'s contract, the result is `None` exactly when
   * `StepFailed` holds of the record.
   */
  lemma SteppedNotFailed(population: seq<Solution>, parents: seq<seq<Edge>>, draws: seq<ChildDraws>, allEdges: seq<Edge>,
                         n: nat, size: nat, t: Generation, next: seq<Solution>)
    requires |draws| == size
    requires Stepped(population, parents, draws, allEdges, n, size, t, next)
    ensures !StepFailed(parents, draws, allEdges, n, t)
  {
    if draws != [] {
      assert CrossedChild(parents, draws, allEdges, n, t.crossComponents, t.crossed, 0);
      assert parents != [];
    }
  }

  /**
   * A generation as `Stepped` records it keeps the population a front: at
   * most `size` members, all of them solutions, sorted by objectives, none
   * dominating another, and not empty when the old population was not.
   */
  lemma SteppedKeepsFront(population: seq<Solution>, parents: seq<seq<Edge>>, draws: seq<ChildDraws>, allEdges: seq<Edge>,
                          n: nat, size: nat, t: Generation, next: seq<Solution>)
    requires forall s :: s in population ==> Member(s, allEdges, n)
    requires Stepped(population, parents, draws, allEdges, n, size, t, next)
    ensures |next| <= size
    ensures forall s :: s in next ==> Member(s, allEdges, n)
    ensures SortedByObjectives(next)
    ensures forall a, b :: a in next && b in next ==> !Dominates(a, b)
    ensures population != [] && size > 0 ==> next != []
  {
    SelectionKeepsFront(population + t.offspring, size);
    forall s | s in next
      ensures Member(s, allEdges, n)
    {
      assert s in population + t.offspring;
    }
  }

  /** The order half of `SteppedKeepsFront`, which asks nothing of the old population. */
  lemma SteppedFront(population: seq<Solution>, parents: seq<seq<Edge>>, draws: seq<ChildDraws>, allEdges: seq<Edge>,
                     n: nat, size: nat, t: Generation, next: seq<Solution>)
    requires Stepped(population, parents, draws, allEdges, n, size, t, next)
    ensures SortedByObjectives(next)
    ensures forall a, b :: a in next && b in next ==> !Dominates(a, b)
  {
    SelectionKeepsFront(population + t.offspring, size);
  }

  /**
   * One generation: children bred, mutated and evaluated; the survivors of
   * population and children together, cut to `populationSize`. `None` when
   * a repair fails or a parent is drawn from an empty population.
   */
  method NextGeneration(population: seq<Solution>, populationSize: nat, allEdges: seq<Edge>, n: nat,
                        draws: seq<ChildDraws>)
    returns (next: Option<seq<Solution>>, ghost t: Generation)
    requires ValidEdges(allEdges, n) && |draws| == populationSize
    requires forall s :: s in population ==> Member(s, allEdges, n)
    ensures next.Some? ==> forall c :: c in t.offspring ==> fresh(c)
    ensures next.Some? ==> Stepped(population, old(EdgesOf(population)), draws, allEdges, n, populationSize, t, next.value)
    ensures next.None? ==> StepFailed(old(EdgesOf(population)), draws, allEdges, n, t)
    ensures next.Some? ==> |next.value| <= populationSize
    ensures next.Some? ==> forall s :: s in next.value ==> Member(s, allEdges, n)
    ensures next.Some? ==> SortedByObjectives(next.value)
    ensures next.Some? ==> forall a, b :: a in next.value && b in next.value ==> !Dominates(a, b)
    ensures next.Some? && populationSize > 0 ==> next.value != []
    ensures population == [] && populationSize > 0 ==> next.None?
    ensures (population != [] || populationSize == 0) && CoversAllPairs(allEdges, n) ==> next.Some?
  {
    ghost var parents := EdgesOf(population);
    var bred;
    ghost var crossComponents, crossed, failed;
    bred, crossComponents, crossed, failed := Breed(population, allEdges, n, draws);
    assert EdgesOf(population) == parents;
    if bred.None? {
      return None, Generation([], crossComponents, crossed, [], [], failed);
    }
    var children := bred.value;
    var ok;
    ghost var mutComponents, mutated;
    ok, mutComponents, mutated, failed := MutateAndEvaluate(children, draws, allEdges, n);
    t := Generation(children, crossComponents, crossed, mutComponents, mutated, failed);
    if !ok {
      return None, t;
    }
    next := Some(Take(NonDominatedSorting(population + children), populationSize));
    SteppedKeepsFront(population, parents, draws, allEdges, n, populationSize, t, next.value);
  }

  /**
   * Solution `i` of `initial` is the repair of the candidates that keep-mask
   * `i` keeps, against components `sccs[i]` of those candidates, evaluated.
   */
  ghost predicate SeedAt(initial: seq<Solution>, keeps: seq<seq<bool>>, allEdges: seq<Edge>, n: nat,
                         sccs: seq<seq<seq<int>>>, i: int)
    reads initial
  {
    && 0 <= i < |initial| && i < |keeps| && i < |sccs|
    && Member(initial[i], allEdges, n)
    && IsSccPartition(Where(allEdges, keeps[i]), n, sccs[i])
    && Repaired(Where(allEdges, keeps[i]), allEdges, sccs[i], initial[i].edges)
  }

  /** Every solution of `initial` is seeded by its keep-mask, in order. */
  ghost predicate Seeded(initial: seq<Solution>, keeps: seq<seq<bool>>, allEdges: seq<Edge>, n: nat,
                         sccs: seq<seq<seq<int>>>)
    reads initial
  {
    && |initial| <= |keeps| && |initial| <= |sccs|
    && forall i :: 0 <= i < |initial| ==> SeedAt(initial, keeps, allEdges, n, sccs, i)
  }

  /** The candidates `keep` keeps have components `sccs`, and some pair of them cannot be bridged. */
  ghost predicate SeedFails(keep: seq<bool>, allEdges: seq<Edge>, n: nat, sccs: seq<seq<int>>) {
    IsSccPartition(Where(allEdges, keep), n, sccs) && SomePairUnbridged(allEdges, sccs)
  }

  /** A solution seeded by the next keep-mask extends a seeded prefix. */
  lemma SeededExtend(initial: seq<Solution>, keeps: seq<seq<bool>>, allEdges: seq<Edge>, n: nat,
                     sccs: seq<seq<seq<int>>>, s: Solution, c: seq<seq<int>>)
    requires Seeded(initial, keeps, allEdges, n, sccs) && |initial| == |sccs| < |keeps|
    requires Member(s, allEdges, n) && IsSccPartition(Where(allEdges, keeps[|initial|]), n, c)
    requires Repaired(Where(allEdges, keeps[|initial|]), allEdges, c, s.edges)
    ensures Seeded(initial + [s], keeps, allEdges, n, sccs + [c])
  {
    forall i | 0 <= i < |initial| + 1
      ensures SeedAt(initial + [s], keeps, allEdges, n, sccs + [c], i)
    {
      if i < |initial| {
        assert SeedAt(initial, keeps, allEdges, n, sccs, i);
        assert (initial + [s])[i] == initial[i] && (sccs + [c])[i] == sccs[i];
      } else {
        assert (initial + [s])[i] == s && (sccs + [c])[i] == c;
      }
    }
  }

  /** Recording the components of a failed seed keeps the prefix seeded. */
  lemma SeededRecord(initial: seq<Solution>, keeps: seq<seq<bool>>, allEdges: seq<Edge>, n: nat,
                     sccs: seq<seq<seq<int>>>, c: seq<seq<int>>)
    requires Seeded(initial, keeps, allEdges, n, sccs) && |initial| == |sccs|
    ensures Seeded(initial, keeps, allEdges, n, sccs + [c])
  {
    forall i | 0 <= i < |initial|
      ensures SeedAt(initial, keeps, allEdges, n, sccs + [c], i)
    {
      assert SeedAt(initial, keeps, allEdges, n, sccs, i);
      assert (sccs + [c])[i] == sccs[i];
    }
  }

  /** The solutions that a run's populations and offspring hold. */
  ghost function RunObjects(history: seq<seq<Solution>>, trace: seq<Generation>): set<object> {
    (set g, s | 0 <= g < |history| && s in history[g] :: s as object)
      + (set g, s | 0 <= g < |trace| && s in trace[g].offspring :: s as object)
  }

  /** Every solution a run holds is allocated when the run's record is. */
  lemma RunObjectsAllocated(history: seq<seq<Solution>>, trace: seq<Generation>)
    requires allocated(history) && allocated(trace)
    ensures forall o :: o in RunObjects(history, trace) ==> allocated(o)
  {
  }

  /** Population `g + 1` of `history` follows population `g` under the draws of round `g`, as `trace[g]` records. */
  ghost predicate StepAt(history: seq<seq<Solution>>, draws: seq<seq<ChildDraws>>, size: nat, allEdges: seq<Edge>, n: nat,
                         trace: seq<Generation>, g: int)
    reads RunObjects(history, trace)
  {
    && 0 <= g < |history| - 1 && g < |trace| && g < |draws|
    && assert forall s :: s in history[g] ==> s in RunObjects(history, trace);
       assert forall s :: s in trace[g].offspring ==> s in RunObjects(history, trace);
       Stepped(history[g], EdgesOf(history[g]), draws[g], allEdges, n, size, trace[g], history[g + 1])
  }

  /** Every population of `history` after the first follows the one before it. */
  ghost predicate AllSteps(history: seq<seq<Solution>>, draws: seq<seq<ChildDraws>>, size: nat, allEdges: seq<Edge>, n: nat,
                           trace: seq<Generation>)
    reads RunObjects(history, trace)
  {
    forall g :: 0 <= g < |history| - 1 ==> StepAt(history, draws, size, allEdges, n, trace, g)
  }

  /** A round that follows the last population, as `Stepped` says, extends the run by one population. */
  lemma AllStepsExtend(history: seq<seq<Solution>>, draws: seq<seq<ChildDraws>>, size: nat, allEdges: seq<Edge>, n: nat,
                       trace: seq<Generation>, t: Generation, next: seq<Solution>)
    requires AllSteps(history, draws, size, allEdges, n, trace)
    requires 0 < |history| <= |draws| && |trace| == |history| - 1
    requires Stepped(history[|history| - 1], EdgesOf(history[|history| - 1]), draws[|history| - 1], allEdges, n, size, t, next)
    ensures AllSteps(history + [next], draws, size, allEdges, n, trace + [t])
  {
    var h, tr := history + [next], trace + [t];
    forall g | 0 <= g < |h| - 1
      ensures StepAt(h, draws, size, allEdges, n, tr, g)
    {
      if g < |history| - 1 {
        assert h[g] == history[g] && h[g + 1] == history[g + 1] && tr[g] == trace[g];
        assert StepAt(history, draws, size, allEdges, n, trace, g);
      } else {
        assert h[g] == history[g] && h[g + 1] == next && tr[g] == t;
      }
    }
  }

  /** Recording a failed round in `trace` leaves every earlier round as it was. */
  lemma AllStepsRecord(history: seq<seq<Solution>>, draws: seq<seq<ChildDraws>>, size: nat, allEdges: seq<Edge>, n: nat,
                       trace: seq<Generation>, t: Generation)
    requires AllSteps(history, draws, size, allEdges, n, trace) && |trace| == |history| - 1
    ensures AllSteps(history, draws, size, allEdges, n, trace + [t])
  {
    var tr := trace + [t];
    forall g | 0 <= g < |history| - 1
      ensures StepAt(history, draws, size, allEdges, n, tr, g)
    {
      assert tr[g] == trace[g];
      assert StepAt(history, draws, size, allEdges, n, trace, g);
    }
  }

  /**
   * The initial population: one random, repaired and evaluated solution per
   * keep-mask, in order. `ok` is false when a repair fails; `population` then
   * holds the solutions made before the one that failed.
   */
  method InitialPopulation(populationSize: nat, allEdges: seq<Edge>, n: nat, initialKeeps: seq<seq<bool>>)
    returns (ok: bool, population: seq<Solution>, ghost initialSccs: seq<seq<seq<int>>>)
    requires ValidEdges(allEdges, n) && |initialKeeps| == populationSize
    ensures Seeded(population, initialKeeps, allEdges, n, initialSccs)
    ensures forall s :: s in population ==> fresh(s) && Member(s, allEdges, n)
    ensures ok ==> |population| == populationSize
    ensures !ok ==> |population| < populationSize && |population| < |initialSccs|
                    && SeedFails(initialKeeps[|population|], allEdges, n, initialSccs[|population|])
    ensures CoversAllPairs(allEdges, n) ==> ok
  {
    population, initialSccs := [], [];
    for i := 0 to populationSize
      invariant |population| == i == |initialSccs|
      invariant Seeded(population, initialKeeps, allEdges, n, initialSccs)
      invariant forall s :: s in population ==> fresh(s) && Member(s, allEdges, n)
    {
      var solution;
      ghost var picked, sccs;
      solution, picked, sccs := CreateRandomSolution(allEdges, initialKeeps[i], n);
      if solution.None? {
        assert SeedFails(initialKeeps[i], allEdges, n, sccs);
        SeededRecord(population, initialKeeps, allEdges, n, initialSccs, sccs);
        return false, population, initialSccs + [sccs];
      }
      EvaluateSolution(solution.value, n);
      SeededExtend(population, initialKeeps, allEdges, n, initialSccs, solution.value, sccs);
      population := population + [solution.value];
      initialSccs := initialSccs + [sccs];
    }
    ok := true;
  }

  /**
   * One round of the search, with the run's record extended by it: the next
   * population joins `history` and what the round made joins `trace`.
   */
  method Advance(population: seq<Solution>, populationSize: nat, allEdges: seq<Edge>, n: nat,
                 draws: seq<seq<ChildDraws>>, generation: nat, ghost history: seq<seq<Solution>>,
                 ghost trace: seq<Generation>)
    returns (next: Option<seq<Solution>>, ghost history': seq<seq<Solution>>, ghost trace': seq<Generation>)
    requires ValidEdges(allEdges, n) && |history| == generation + 1 == |trace| + 1 && generation < |draws|
    requires |draws[generation]| == populationSize && history[generation] == population
    requires forall s :: s in population ==> Member(s, allEdges, n)
    requires AllSteps(history, draws, populationSize, allEdges, n, trace)
    ensures AllSteps(history', draws, populationSize, allEdges, n, trace')
    ensures |trace'| == |trace| + 1
    ensures next.Some? ==> history' == history + [next.value]
    ensures next.Some? ==> |next.value| <= populationSize && forall s :: s in next.value ==> Member(s, allEdges, n)
    ensures next.Some? && populationSize > 0 ==> next.value != []
    ensures next.None? ==> history' == history
                           && StepFailed(EdgesOf(population), draws[generation], allEdges, n, trace'[generation])
    ensures (population != [] || populationSize == 0) && CoversAllPairs(allEdges, n) ==> next.Some?
  {
    ghost var t;
    RunObjectsAllocated(history, trace);
    label before:
    next, t := NextGeneration(population, populationSize, allEdges, n, draws[generation]);
    assert unchanged@before(RunObjects(history, trace));
    assert EdgesOf(population) == old@before(EdgesOf(population));
    if next.None? {
      AllStepsRecord(history, draws, populationSize, allEdges, n, trace, t);
      history', trace' := history, trace + [t];
      return;
    }
    AllStepsExtend(history, draws, populationSize, allEdges, n, trace, t, next.value);
    history', trace' := history + [next.value], trace + [t];
  }

  /**
   * The generation loop: `generations` rounds from `population`. `history`
   * lists the populations the rounds went through, `trace` what each round
   * made; `None` when a round fails, with that round last in `trace`.
   */
  method Evolve(population: seq<Solution>, populationSize: nat, generations: nat, allEdges: seq<Edge>, n: nat,
                draws: seq<seq<ChildDraws>>)
    returns (front: Option<seq<Solution>>, ghost history: seq<seq<Solution>>, ghost trace: seq<Generation>)
    requires ValidEdges(allEdges, n) && |population| == populationSize && |draws| == generations
    requires forall g :: 0 <= g < generations ==> |draws[g]| == populationSize
    requires forall s :: s in population ==> Member(s, allEdges, n)
    ensures 1 <= |history| <= generations + 1 && history[0] == population
    ensures AllSteps(history, draws, populationSize, allEdges, n, trace)
    ensures front.Some? ==> |history| == generations + 1 && |trace| == generations && front.value == history[generations]
    ensures front.None? ==>
              && |history| <= generations && |trace| == |history|
              && StepFailed(EdgesOf(history[|history| - 1]), draws[|history| - 1], allEdges, n, trace[|history| - 1])
    ensures front.Some? ==> |front.value| <= populationSize
    ensures front.Some? ==> forall s :: s in front.value ==> Member(s, allEdges, n)
    ensures front.Some? && populationSize > 0 ==> front.value != []
    ensures CoversAllPairs(allEdges, n) ==> front.Some?
  {
    var current := population;
    history, trace := [population], [];
    for generation := 0 to generations
      invariant |history| == generation + 1 && |trace| == generation && history[generation] == current
      invariant history[0] == population
      invariant AllSteps(history, draws, populationSize, allEdges, n, trace)
      invariant |current| <= populationSize && (populationSize > 0 ==> current != [])
      invariant forall s :: s in current ==> Member(s, allEdges, n)
    {
      var next;
      next, history, trace := Advance(current, populationSize, allEdges, n, draws, generation, history, trace);
      if next.None? {
        assert |history| - 1 == generation;
        return None, history, trace;
      }
      current := next.value;
    }
    front := Some(current);
  }

  /**
   * The whole search: an initial population of random, repaired and
   * evaluated solutions, then `generations` rounds of breeding and
   * selection. Returns the final population, the program's Pareto front;
   * `None` when a repair fails. `history` lists the populations the run
   * went through, `trace` what each round made.
   */
  method RunNsgaII(populationSize: nat, generations: nat, allEdges: seq<Edge>, n: nat,
                   initialKeeps: seq<seq<bool>>, draws: seq<seq<ChildDraws>>)
    returns (front: Option<seq<Solution>>, ghost initialSccs: seq<seq<seq<int>>>, ghost history: seq<seq<Solution>>,
             ghost trace: seq<Generation>)
    requires ValidEdges(allEdges, n) && |initialKeeps| == populationSize && |draws| == generations
    requires forall g :: 0 <= g < generations ==> |draws[g]| == populationSize
    ensures 1 <= |history| <= generations + 1
    ensures Seeded(history[0], initialKeeps, allEdges, n, initialSccs)
    ensures AllSteps(history, draws, populationSize, allEdges, n, trace)
    ensures front.Some? ==> |history[0]| == populationSize && |history| == generations + 1 && |trace| == generations
    ensures front.Some? ==> front.value == history[generations]
    ensures front.None? ==>
              || (&& |history| == 1 && |history[0]| < populationSize && |history[0]| < |initialSccs|
                  && SeedFails(initialKeeps[|history[0]|], allEdges, n, initialSccs[|history[0]|]))
              || (&& |history[0]| == populationSize && |history| <= generations && |trace| == |history|
                  && StepFailed(EdgesOf(history[|history| - 1]), draws[|history| - 1], allEdges, n, trace[|history| - 1]))
    ensures front.Some? ==> |front.value| <= populationSize
    ensures front.Some? ==> forall s :: s in front.value ==> Member(s, allEdges, n)
    ensures front.Some? && generations > 0 ==>
              SortedByObjectives(front.value) && forall a, b :: a in front.value && b in front.value ==> !Dominates(a, b)
    ensures front.Some? && populationSize > 0 ==> front.value != []
    ensures CoversAllPairs(allEdges, n) ==> front.Some?
  {
    var ok, population;
    ok, population, initialSccs := InitialPopulation(populationSize, allEdges, n, initialKeeps);
    history, trace := [population], [];
    if !ok {
      return None, initialSccs, history, trace;
    }
    front, history, trace := Evolve(population, populationSize, generations, allEdges, n, draws);
    if front.Some? && generations > 0 {
      assert StepAt(history, draws, populationSize, allEdges, n, trace, generations - 1);
      SteppedFront(history[generations - 1], EdgesOf(history[generations - 1]), draws[generations - 1], allEdges, n,
                   populationSize, trace[generations - 1], history[generations]);
    }
  }
}

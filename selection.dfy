/**
 * Candidate network topologies and the Pareto selection among them.
 *
 * A solution is an edge list with two objectives, both to be minimised:
 * the number of edges and the total shortest travel time over all ordered
 * pairs of nodes. Selection keeps the solutions no other solution dominates
 * and orders them by the first objective, then by the second.
 */
module Selection {
  import opened Walks

  /** A candidate topology; its fields are filled in place by the operators. */
  class Solution {
    var edges: seq<Edge>
    var objective1: int
    var objective2: Dist

    /** A fresh solution holds the given edges and has both objectives at zero. */
    constructor (edges: seq<Edge>)
      ensures this.edges == edges && objective1 == 0 && objective2 == Fin(0)
    {
      this.edges := edges;
      objective1 := 0;
      objective2 := Fin(0);
    }
  }

  /** Pareto dominance: no worse in both objectives and strictly better in one. */
  predicate Dominates(s1: Solution, s2: Solution)
    reads s1, s2
    ensures Dominates(s1, s2) ==> KeyLe(s1, s2) && !SameKey(s1, s2)
  {
    && (s1.objective1 <= s2.objective1 && DistLe(s1.objective2, s2.objective2))
    && (s1.objective1 < s2.objective1 || DistLt(s1.objective2, s2.objective2))
  }

  lemma DominatesIrreflexive(s: Solution)
    ensures !Dominates(s, s)
  {
  }

  lemma DominatesAsymmetric(s1: Solution, s2: Solution)
    ensures !(Dominates(s1, s2) && Dominates(s2, s1))
  {
  }

  lemma DominatesTransitive(s1: Solution, s2: Solution, s3: Solution)
    requires Dominates(s1, s2) && Dominates(s2, s3)
    ensures Dominates(s1, s3)
  {
  }

  /** Nothing in `pop` dominates `s`. */
  predicate Undominated(s: Solution, pop: seq<Solution>)
    reads s, pop
  {
    forall o :: o in pop ==> !Dominates(o, s)
  }

  /** The members of `xs`, in order, that no member of `pop` dominates. */
  function FrontOf(xs: seq<Solution>, pop: seq<Solution>): (r: seq<Solution>)
    reads xs, pop
    ensures forall s :: s in r ==> s in xs && Undominated(s, pop)
    ensures forall s :: s in xs && Undominated(s, pop) ==> s in r
    ensures multiset(r) <= multiset(xs)
  {
    if xs == [] then []
    else
      var rest := FrontOf(xs[..|xs| - 1], pop);
      var last := xs[|xs| - 1];
      assert xs == xs[..|xs| - 1] + [last];
      if Undominated(last, pop) then rest + [last] else rest
  }

  /** Filtering a concatenation filters each part, so the filter keeps the population order. */
  lemma {:induction false} FrontOfAppend(xs: seq<Solution>, ys: seq<Solution>, pop: seq<Solution>)
    ensures FrontOf(xs + ys, pop) == FrontOf(xs, pop) + FrontOf(ys, pop)
    decreases |ys|
  {
    if ys == [] {
      assert xs + ys == xs;
    } else {
      var init, last := ys[..|ys| - 1], ys[|ys| - 1];
      assert (xs + ys)[..|xs + ys| - 1] == xs + init;
      assert (xs + ys)[|xs + ys| - 1] == last;
      FrontOfAppend(xs, init, pop);
    }
  }

  /** A single solution survives the filter exactly when nothing in `pop` dominates it. */
  lemma FrontOfSingle(x: Solution, pop: seq<Solution>)
    ensures FrontOf([x], pop) == if Undominated(x, pop) then [x] else []
  {
    assert [x][..0] == [];
  }

  // ---------------------------------------------------------------------------
  // Ordering by (objective1, objective2)

  /** `a` comes no later than `b` when ordering by the first objective, then the second. */
  predicate KeyLe(a: Solution, b: Solution)
    reads a, b
  {
    a.objective1 < b.objective1 || (a.objective1 == b.objective1 && DistLe(a.objective2, b.objective2))
  }

  predicate SameKey(a: Solution, b: Solution)
    reads a, b
  {
    a.objective1 == b.objective1 && a.objective2 == b.objective2
  }

  predicate SortedByObjectives(s: seq<Solution>)
    reads s
  {
    forall i, j :: 0 <= i < j < |s| ==> KeyLe(s[i], s[j])
  }

  /** Inserts `x` after every element whose key is at most the key of `x`. */
  function Insert(s: seq<Solution>, x: Solution): (r: seq<Solution>)
    reads (set y | y in s), x
    ensures multiset(r) == multiset(s) + multiset{x}
    ensures forall y :: y in r ==> y in s || y == x
  {
    if s == [] then [x]
    else if KeyLe(s[0], x) then
      assert s == [s[0]] + s[1..];
      [s[0]] + Insert(s[1..], x)
    else [x] + s
  }

  /** Insertion keeps the order. */
  lemma {:induction false} InsertSorted(s: seq<Solution>, x: Solution)
    requires SortedByObjectives(s)
    ensures SortedByObjectives(Insert(s, x))
    decreases |s|
  {
    if s != [] && KeyLe(s[0], x) {
      InsertSorted(s[1..], x);
      var r := Insert(s, x);
      assert r == [s[0]] + Insert(s[1..], x);
      forall j | 0 < j < |r|
        ensures KeyLe(r[0], r[j])
      {
        assert r[j] in Insert(s[1..], x);
        if r[j] != x {
          var i :| 0 <= i < |s[1..]| && s[1..][i] == r[j];
          assert s[1..][i] == s[i + 1];
        }
      }
    } else if s != [] {
      var r := Insert(s, x);
      assert r == [x] + s;
      forall j | 0 < j < |r|
        ensures KeyLe(x, r[j])
      {
        assert r[j] == s[j - 1];
        assert KeyLe(s[0], s[j - 1]) || j - 1 == 0;
      }
    }
  }

  /** The stable sort by the two objectives (the program's OrderBy, then ThenBy). */
  function SortByObjectives(xs: seq<Solution>): (r: seq<Solution>)
    reads set y | y in xs
    ensures multiset(r) == multiset(xs)
    ensures forall y :: y in r ==> y in xs
    ensures SortedByObjectives(r)
  {
    if xs == [] then []
    else
      var init := SortByObjectives(xs[..|xs| - 1]);
      assert xs == xs[..|xs| - 1] + [xs[|xs| - 1]];
      InsertSorted(init, xs[|xs| - 1]);
      Insert(init, xs[|xs| - 1])
  }

  /** The elements of `s`, in order, whose objectives equal those of `k`. */
  function KeyFilter(s: seq<Solution>, k: Solution): seq<Solution>
    reads s, k
  {
    if s == [] then []
    else KeyFilter(s[..|s| - 1], k) + (if SameKey(s[|s| - 1], k) then [s[|s| - 1]] else [])
  }

  lemma {:induction false} KeyFilterAppend(s: seq<Solution>, t: seq<Solution>, k: Solution)
    ensures KeyFilter(s + t, k) == KeyFilter(s, k) + KeyFilter(t, k)
    decreases |t|
  {
    if t == [] {
      assert s + t == s;
    } else {
      assert (s + t)[..|s + t| - 1] == s + t[..|t| - 1];
      KeyFilterAppend(s, t[..|t| - 1], k);
    }
  }

  /** No element of `s` has the key of `k`. */
  lemma {:induction false} KeyFilterNone(s: seq<Solution>, k: Solution)
    requires forall y :: y in s ==> !SameKey(y, k)
    ensures KeyFilter(s, k) == []
    decreases |s|
  {
    if s != [] {
      KeyFilterNone(s[..|s| - 1], k);
    }
  }

  lemma KeyFilterSingle(x: Solution, k: Solution)
    ensures KeyFilter([x], k) == if SameKey(x, k) then [x] else []
  {
    assert [x][..0] == [];
  }

  /** Inserting appends `x` to the elements sharing its key: equal keys keep their order. */
  lemma {:induction false} InsertStable(s: seq<Solution>, x: Solution, k: Solution)
    requires SortedByObjectives(s)
    ensures KeyFilter(Insert(s, x), k) == KeyFilter(s, k) + (if SameKey(x, k) then [x] else [])
    decreases |s|, 1
  {
    if s == [] {
      assert Insert(s, x) == [x];
      KeyFilterSingle(x, k);
      assert KeyFilter(s, k) == [];
    } else if KeyLe(s[0], x) {
      InsertStableAfter(s, x, k);
    } else {
      InsertStableBefore(s, x, k);
    }
  }

  /** `x` goes after the head of `s`. */
  lemma {:induction false} InsertStableAfter(s: seq<Solution>, x: Solution, k: Solution)
    requires SortedByObjectives(s) && s != [] && KeyLe(s[0], x)
    ensures KeyFilter(Insert(s, x), k) == KeyFilter(s, k) + (if SameKey(x, k) then [x] else [])
    decreases |s|, 0
  {
    var tail := s[1..];
    assert SortedByObjectives(tail) by {
      forall i, j | 0 <= i < j < |tail|
        ensures KeyLe(tail[i], tail[j])
      {
        assert tail[i] == s[i + 1] && tail[j] == s[j + 1];
      }
    }
    var extra := if SameKey(x, k) then [x] else [];
    calc {
      KeyFilter(Insert(s, x), k);
      KeyFilter([s[0]] + Insert(tail, x), k);
      { KeyFilterAppend([s[0]], Insert(tail, x), k); }
      KeyFilter([s[0]], k) + KeyFilter(Insert(tail, x), k);
      { InsertStable(tail, x, k); }
      KeyFilter([s[0]], k) + (KeyFilter(tail, k) + extra);
      (KeyFilter([s[0]], k) + KeyFilter(tail, k)) + extra;
      { KeyFilterAppend([s[0]], tail, k); }
      KeyFilter([s[0]] + tail, k) + extra;
      { assert s == [s[0]] + tail; }
      KeyFilter(s, k) + extra;
    }
  }

  /** `x` goes in front of `s`, whose every key is then above the key of `x`. */
  lemma {:induction false} InsertStableBefore(s: seq<Solution>, x: Solution, k: Solution)
    requires SortedByObjectives(s) && s != [] && !KeyLe(s[0], x)
    ensures KeyFilter(Insert(s, x), k) == KeyFilter(s, k) + (if SameKey(x, k) then [x] else [])
  {
    assert Insert(s, x) == [x] + s;
    KeyFilterAppend([x], s, k);
    KeyFilterSingle(x, k);
    if SameKey(x, k) {
      forall y | y in s
        ensures !SameKey(y, k)
      {
        var i :| 0 <= i < |s| && s[i] == y;
        if i > 0 {
          assert KeyLe(s[0], s[i]);
        }
      }
      KeyFilterNone(s, k);
    }
  }

  /** The sort is stable: the elements sharing a key appear in their input order. */
  lemma {:induction false} SortStable(xs: seq<Solution>, k: Solution)
    ensures KeyFilter(SortByObjectives(xs), k) == KeyFilter(xs, k)
    decreases |xs|
  {
    if xs != [] {
      var init, last := xs[..|xs| - 1], xs[|xs| - 1];
      SortStable(init, k);
      InsertStable(SortByObjectives(init), last, k);
    }
  }

  /**
   * The survivors of one round: the members of `population` that no member
   * dominates, ordered by the first objective, then the second, with ties
   * in population order.
   */
  function NonDominatedSorting(population: seq<Solution>): (r: seq<Solution>)
    reads population
    ensures forall s :: s in r ==> s in population && Undominated(s, population)
    ensures forall s :: s in population && Undominated(s, population) ==> s in r
    ensures multiset(r) == multiset(FrontOf(population, population))
    ensures SortedByObjectives(r)
  {
    var front := FrontOf(population, population);
    var r := SortByObjectives(front);
    assert forall s :: s in front ==> s in r by {
      forall s | s in front
        ensures s in r
      {
        assert s in multiset(front);
      }
    }
    r
  }

  /** No survivor dominates another. */
  lemma SurvivorsMutuallyUndominated(population: seq<Solution>, a: Solution, b: Solution)
    requires a in NonDominatedSorting(population) && b in NonDominatedSorting(population)
    ensures !Dominates(a, b)
  {
    assert b in population && Undominated(b, population);
  }

  /** A member that no member precedes in the objective order. */
  lemma {:induction false} LeastKeyExists(pop: seq<Solution>) returns (m: Solution)
    requires pop != []
    ensures m in pop && forall o :: o in pop ==> KeyLe(m, o)
    decreases |pop|
  {
    if |pop| == 1 {
      m := pop[0];
    } else {
      var m' := LeastKeyExists(pop[1..]);
      m := if KeyLe(pop[0], m') then pop[0] else m';
      forall o | o in pop
        ensures KeyLe(m, o)
      {
        if o != pop[0] {
          assert o in pop[1..];
        }
      }
    }
  }

  /** A non-empty population keeps at least one survivor. */
  lemma SurvivorsNonEmpty(population: seq<Solution>)
    requires population != []
    ensures NonDominatedSorting(population) != []
  {
    var m := LeastKeyExists(population);
    assert Undominated(m, population);
    assert m in NonDominatedSorting(population);
  }

  /** The first `count` survivors (the program's Take). */
  function Take(s: seq<Solution>, count: nat): (r: seq<Solution>)
    ensures |r| <= count && |r| <= |s|
    ensures |r| == if count <= |s| then count else |s|
    ensures r == s[..|r|]
  {
    if count <= |s| then s[..count] else s
  }

  /**
   * One round of selection, the survivors cut to `count`: at most `count`
   * of them, drawn from the population, ordered, none dominating another,
   * and at least one when there is anything to keep.
   */
  lemma SelectionKeepsFront(population: seq<Solution>, count: nat)
    ensures |Take(NonDominatedSorting(population), count)| <= count
    ensures forall s :: s in Take(NonDominatedSorting(population), count) ==> s in population
    ensures SortedByObjectives(Take(NonDominatedSorting(population), count))
    ensures forall a, b :: a in Take(NonDominatedSorting(population), count) && b in Take(NonDominatedSorting(population), count) ==>
              !Dominates(a, b)
    ensures population != [] && count > 0 ==> Take(NonDominatedSorting(population), count) != []
  {
    var survivors := NonDominatedSorting(population);
    var r := Take(survivors, count);
    forall a, b | a in r && b in r
      ensures !Dominates(a, b)
    {
      SurvivorsMutuallyUndominated(population, a, b);
    }
    if population != [] && count > 0 {
      SurvivorsNonEmpty(population);
    }
  }
}

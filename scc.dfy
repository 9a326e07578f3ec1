/**
 * Kosaraju's two-pass search for strongly connected components
 * (`Graph.FindSCCs`, `Graph.DFS`, `Graph.ReverseDFS`).
 *
 * The first pass runs a depth-first search over the forward adjacency lists
 * and pushes every node when it finishes. The second pass pops that stack and,
 * from every popped node that is still unvisited, runs a depth-first search
 * over the transposed lists; the nodes it collects form one component.
 *
 * The stack is modelled bottom first: a push appends, a pop removes the last
 * element. The `List`/`Stack` objects that the searches fill are threaded
 * through as values; the shared `visited` flags stay an array.
 */
module Scc {
  import opened Walks

  /** `adj[u]` lists exactly the heads of the edges leaving `u`. */
  ghost predicate IsAdjacency(edges: seq<Edge>, adj: seq<seq<int>>) {
    forall u, v :: 0 <= u < |adj| ==> (v in adj[u] <==> HasEdge(edges, u, v))
  }

  /** `tr[u]` lists exactly the tails of the edges entering `u`. */
  ghost predicate IsTranspose(edges: seq<Edge>, tr: seq<seq<int>>) {
    forall u, v :: 0 <= u < |tr| ==> (v in tr[u] <==> HasEdge(edges, v, u))
  }

  ghost predicate NoDuplicates(s: seq<int>) {
    forall i, j :: 0 <= i < j < |s| ==> s[i] != s[j]
  }

  /** Concatenating two repetition-free, disjoint sequences gives a repetition-free one. */
  lemma NoDuplicatesAppend(s: seq<int>, t: seq<int>)
    requires NoDuplicates(s) && NoDuplicates(t)
    requires forall x :: x in t ==> x !in s
    ensures NoDuplicates(s + t)
  {
    forall i, j | 0 <= i < j < |s + t|
      ensures (s + t)[i] != (s + t)[j]
    {
      if i < |s| && |s| <= j {
        assert (s + t)[j] == t[j - |s|];
        assert t[j - |s|] in t;
      }
    }
  }

  /** Node `v` lies in one of the components. */
  ghost predicate Covered(sccs: seq<seq<int>>, v: int) {
    exists c :: 0 <= c < |sccs| && v in sccs[c]
  }

  ghost function Unvisited(vis: seq<bool>): set<int> {
    set i | 0 <= i < |vis| && !vis[i]
  }

  /**
   * The components returned by the search: every node lies in exactly one
   * non-empty component, without repetition, and a component holds exactly
   * the nodes mutually reachable with any of its members.
   */
  ghost predicate IsSccPartition(edges: seq<Edge>, n: int, sccs: seq<seq<int>>) {
    && (forall c, v :: 0 <= c < |sccs| && v in sccs[c] ==> 0 <= v < n)
    && (forall v :: 0 <= v < n ==> Covered(sccs, v))
    && (forall c, d, v :: 0 <= c < |sccs| && 0 <= d < |sccs| && v in sccs[c] && v in sccs[d] ==> c == d)
    && (forall c :: 0 <= c < |sccs| ==> sccs[c] != [] && NoDuplicates(sccs[c]))
    && (forall c, a, b :: 0 <= c < |sccs| && a in sccs[c] && 0 <= b < n ==>
          (b in sccs[c] <==> SameScc(edges, a, b)))
  }

  // ---------------------------------------------------------------------------
  // First pass: finishing order

  /**
   * Colours during the first pass: `gray` holds the nodes whose search is
   * still running, the stack `S` the finished ones; together they are the
   * visited nodes, and the stack has no repetition.
   */
  ghost predicate ColorsOk(vis: seq<bool>, gray: set<int>, S: seq<int>) {
    && (forall k :: 0 <= k < |S| ==> 0 <= S[k] < |vis| && vis[S[k]] && S[k] !in gray)
    && NoDuplicates(S)
    && (forall g :: g in gray ==> 0 <= g < |vis| && vis[g])
    && (forall v :: 0 <= v < |vis| && vis[v] ==> v in gray || v in S)
  }

  /** A node is pushed only once all its successors are visited. */
  ghost predicate FinishedAfterSuccessors(edges: seq<Edge>, vis: seq<bool>, S: seq<int>) {
    forall b, w :: b in S && HasEdge(edges, b, w) ==> 0 <= w < |vis| && vis[w]
  }

  /**
   * `z` reaches the stack entry `S[j]` "legitimately": some entry at or above
   * position `j` lies in the component of `z`, or `z` reaches a node whose
   * search is still running.
   */
  ghost predicate Settled(edges: seq<Edge>, S: seq<int>, gray: set<int>, z: int, j: int) {
    || (exists k :: 0 <= k < |S| && j <= k && SameScc(edges, z, S[k]))
    || (exists g :: g in gray && Reach(edges, z, g))
  }

  /** `z` reaches the stack entry at position `j`. */
  ghost predicate ReachesEntry(edges: seq<Edge>, S: seq<int>, z: int, j: int) {
    0 <= j < |S| && Reach(edges, z, S[j])
  }

  /** The finishing-order property that makes the second pass collect whole components. */
  ghost predicate FinishOrdered(edges: seq<Edge>, S: seq<int>, gray: set<int>) {
    forall j, z :: z in S && ReachesEntry(edges, S, z, j) ==> Settled(edges, S, gray, z, j)
  }

  ghost predicate FirstPassInv(edges: seq<Edge>, vis: seq<bool>, gray: set<int>, S: seq<int>) {
    ColorsOk(vis, gray, S) && FinishedAfterSuccessors(edges, vis, S) && FinishOrdered(edges, S, gray)
  }

  /** A finished node that reaches an unvisited one passes through a running search. */
  lemma {:induction false} FinishedWalkMeetsGray(edges: seq<Edge>, vis: seq<bool>, gray: set<int>, S: seq<int>,
                                                 z: int, x: int, p: seq<Edge>)
    requires ColorsOk(vis, gray, S) && FinishedAfterSuccessors(edges, vis, S)
    requires 0 <= x < |vis| && !vis[x]
    requires z in S && IsWalk(edges, z, x, p)
    ensures exists g :: g in gray && Reach(edges, z, g)
    decreases |p|
  {
    var k :| 0 <= k < |S| && S[k] == z;
    if p == [] {
      assert false;
    } else {
      var m := p[0].to;
      assert HasEdge(edges, z, m);
      if m in gray {
        ReachEdge(edges, z, m);
      } else {
        FinishedWalkMeetsGray(edges, vis, gray, S, m, x, p[1..]);
        var g :| g in gray && Reach(edges, m, g);
        ReachStep(edges, z, m, g);
      }
    }
  }

  lemma FinishedReachesGray(edges: seq<Edge>, vis: seq<bool>, gray: set<int>, S: seq<int>, x: int)
    requires ColorsOk(vis, gray, S) && FinishedAfterSuccessors(edges, vis, S)
    requires 0 <= x < |vis| && !vis[x]
    ensures forall z :: z in S && Reach(edges, z, x) ==> exists g :: g in gray && Reach(edges, z, g)
  {
    forall z | z in S && Reach(edges, z, x)
      ensures exists g :: g in gray && Reach(edges, z, g)
    {
      var p :| IsWalk(edges, z, x, p);
      FinishedWalkMeetsGray(edges, vis, gray, S, z, x, p);
    }
  }

  /** Marking an unvisited node gray keeps the first-pass invariant. */
  lemma MarkGray(edges: seq<Edge>, vis: seq<bool>, gray: set<int>, S: seq<int>, x: int)
    requires FirstPassInv(edges, vis, gray, S)
    requires 0 <= x < |vis| && !vis[x]
    ensures FirstPassInv(edges, vis[x := true], gray + {x}, S)
  {
    var vis' := vis[x := true];
    forall j, z | z in S && ReachesEntry(edges, S, z, j)
      ensures Settled(edges, S, gray + {x}, z, j)
    {
      assert Settled(edges, S, gray, z, j);
    }
  }

  /** `z`, finished before `x` was pushed, reaches `x`: then it is settled at `x`'s position. */
  lemma ReachesPushed(edges: seq<Edge>, gray: set<int>, S0: seq<int>, mid: seq<int>, x: int, z: int)
    requires |S0| <= |mid| && mid[..|S0|] == S0
    requires forall y :: y in S0 && Reach(edges, y, x) ==> exists g :: g in gray && Reach(edges, y, g)
    requires forall y :: y in mid[|S0|..] ==> Reach(edges, x, y)
    requires z in mid && Reach(edges, z, x)
    ensures Settled(edges, mid + [x], gray, z, |mid|)
  {
    var S := mid + [x];
    assert mid == S0 + mid[|S0|..];
    if z in S0 {
      var g :| g in gray && Reach(edges, z, g);
    } else {
      assert z in mid[|S0|..];
      assert S[|mid|] == x;
      assert SameScc(edges, z, S[|mid|]);
    }
  }

  /** Pushing a node whose successors are all visited keeps the first-pass invariant. */
  lemma PushFinished(edges: seq<Edge>, adj: seq<seq<int>>, vis: seq<bool>, gray: set<int>, S0: seq<int>, mid: seq<int>, x: int)
    requires FirstPassInv(edges, vis, gray + {x}, mid)
    requires x !in gray && 0 <= x < |vis| && vis[x]
    requires IsAdjacency(edges, adj) && x < |adj|
    requires forall t :: 0 <= t < |adj[x]| ==> 0 <= adj[x][t] < |vis| && vis[adj[x][t]]
    requires |S0| <= |mid| && mid[..|S0|] == S0
    requires forall y :: y in S0 && Reach(edges, y, x) ==> exists g :: g in gray && Reach(edges, y, g)
    requires forall y :: y in mid[|S0|..] ==> Reach(edges, x, y)
    ensures FirstPassInv(edges, vis, gray, mid + [x])
    ensures forall y :: y in (mid + [x])[|S0|..] ==> Reach(edges, x, y)
  {
    var S := mid + [x];
    forall w | HasEdge(edges, x, w)
      ensures 0 <= w < |vis| && vis[w]
    {
      assert w in adj[x];
    }
    ReachRefl(edges, x);
    assert S[|S0|..] == mid[|S0|..] + [x];
    assert x !in mid by {
      if k :| 0 <= k < |mid| && mid[k] == x {
        assert mid[k] !in gray + {x};
      }
    }
    assert ColorsOk(vis, gray, S);
    forall j, z | z in S && ReachesEntry(edges, S, z, j)
      ensures Settled(edges, S, gray, z, j)
    {
      if z == x {
        ReachRefl(edges, x);
        assert S[|S| - 1] == x;
        assert SameScc(edges, z, S[|S| - 1]);
      } else if j == |S| - 1 {
        ReachesPushed(edges, gray, S0, mid, x, z);
      } else {
        assert S[j] == mid[j];
        assert ReachesEntry(edges, mid, z, j);
        assert Settled(edges, mid, gray + {x}, z, j);
        if k :| 0 <= k < |mid| && j <= k && SameScc(edges, z, mid[k]) {
          assert S[k] == mid[k];
        } else {
          var g :| g in gray + {x} && Reach(edges, z, g);
          if g == x {
            ReachesPushed(edges, gray, S0, mid, x, z);
            if k :| 0 <= k < |S| && |mid| <= k && SameScc(edges, z, S[k]) {
              assert j <= k;
            }
          }
        }
      }
    }
  }

  /** The nodes pushed by the search of a successor `nb` of `x` are reachable from `x`. */
  lemma ReachesChildPushes(edges: seq<Edge>, x: int, nb: int, S0: seq<int>, before: seq<int>, after: seq<int>)
    requires HasEdge(edges, x, nb)
    requires |S0| <= |before| <= |after| && before[..|S0|] == S0 && after[..|before|] == before
    requires forall z :: z in before[|S0|..] ==> Reach(edges, x, z)
    requires forall z :: z in after[|before|..] ==> Reach(edges, nb, z)
    ensures forall z :: z in after[|S0|..] ==> Reach(edges, x, z)
  {
    forall z | z in after[|S0|..]
      ensures Reach(edges, x, z)
    {
      var k :| |S0| <= k < |after| && after[k] == z;
      if k < |before| {
        assert z in before[|S0|..];
      } else {
        assert z in after[|before|..];
        ReachStep(edges, x, nb, z);
      }
    }
  }

  /** Depth-first search over `adj` from `node`, pushing each node when it finishes. */
  method Dfs(node: int, adj: seq<seq<int>>, visited: array<bool>, stack: seq<int>,
             ghost edges: seq<Edge>, ghost gray: set<int>)
    returns (stack': seq<int>)
    requires |adj| == visited.Length
    requires ValidEdges(edges, visited.Length) && IsAdjacency(edges, adj)
    requires 0 <= node < visited.Length && !visited[node]
    requires FirstPassInv(edges, visited[..], gray, stack)
    modifies visited
    ensures FirstPassInv(edges, visited[..], gray, stack')
    ensures |stack| < |stack'| && stack'[..|stack|] == stack && stack'[|stack'| - 1] == node
    ensures forall v :: 0 <= v < visited.Length ==> (visited[v] <==> old(visited[v]) || v in stack'[|stack|..])
    ensures forall z :: z in stack'[|stack|..] ==> Reach(edges, node, z)
    decreases Unvisited(visited[..])
  {
    ghost var entry := visited[..];
    FinishedReachesGray(edges, entry, gray, stack, node);
    visited[node] := true;
    assert visited[..] == entry[node := true];
    MarkGray(edges, entry, gray, stack, node);
    stack' := stack;
    var neighbors := adj[node];
    for i := 0 to |neighbors|
      invariant FirstPassInv(edges, visited[..], gray + {node}, stack')
      invariant |stack| <= |stack'| && stack'[..|stack|] == stack
      invariant visited[node]
      invariant forall v :: 0 <= v < visited.Length ==> (visited[v] <==> entry[v] || v == node || v in stack'[|stack|..])
      invariant forall z :: z in stack'[|stack|..] ==> Reach(edges, node, z)
      invariant forall t :: 0 <= t < i ==> 0 <= neighbors[t] < visited.Length && visited[neighbors[t]]
      invariant Unvisited(visited[..]) <= Unvisited(entry) - {node}
    {
      var nb := neighbors[i];
      assert nb in adj[node];
      assert HasEdge(edges, node, nb);
      if !visited[nb] {
        ghost var before := stack';
        assert node in Unvisited(entry);
        stack' := Dfs(nb, adj, visited, stack', edges, gray + {node});
        ReachesChildPushes(edges, node, nb, stack, before, stack');
      }
    }
    assert node !in gray;
    PushFinished(edges, adj, visited[..], gray, stack, stack', node);
    stack' := stack' + [node];
  }

  // ---------------------------------------------------------------------------
  // Second pass: collecting one component

  /**
   * Depth-first search over the transposed lists from `node`, through nodes
   * not yet visited, appending each node it marks to the component.
   */
  method ReverseDfs(node: int, transpose: seq<seq<int>>, visited: array<bool>, component: seq<int>,
                    ghost edges: seq<Edge>)
    returns (component': seq<int>)
    requires |transpose| == visited.Length
    requires ValidEdges(edges, visited.Length) && IsTranspose(edges, transpose)
    requires 0 <= node < visited.Length && !visited[node]
    modifies visited
    ensures |component| < |component'| && component'[..|component|] == component
    ensures component'[|component|] == node
    ensures NoDuplicates(component'[|component|..])
    ensures forall v :: 0 <= v < visited.Length ==> (visited[v] <==> old(visited[v]) || v in component'[|component|..])
    ensures forall a :: a in component'[|component|..] ==>
              0 <= a < visited.Length && !old(visited[a]) && Reach(edges, a, node)
    ensures forall a, p :: a in component'[|component|..] && HasEdge(edges, p, a) ==>
              0 <= p < visited.Length && visited[p]
    ensures CollectedFrom(edges, old(visited[..]), visited[..], component'[|component|..], node)
    decreases Unvisited(visited[..])
  {
    ghost var entry := visited[..];
    visited[node] := true;
    component' := component + [node];
    ghost var added := [node];
    ReachRefl(edges, node);
    var preds := transpose[node];
    for i := 0 to |preds|
      invariant component' == component + added && |added| >= 1 && added[0] == node
      invariant NoDuplicates(added)
      invariant forall v :: 0 <= v < visited.Length ==> (visited[v] <==> entry[v] || v in added)
      invariant forall a :: a in added ==> 0 <= a < visited.Length && !entry[a] && Reach(edges, a, node)
      invariant forall a, p :: a in added[1..] && HasEdge(edges, p, a) ==> 0 <= p < visited.Length && visited[p]
      invariant forall t :: 0 <= t < i ==> 0 <= preds[t] < visited.Length && visited[preds[t]]
      invariant Unvisited(visited[..]) <= Unvisited(entry) - {node}
    {
      var p := preds[i];
      assert p in transpose[node];
      assert HasEdge(edges, p, node);
      if !visited[p] {
        ghost var before := component';
        assert node in Unvisited(entry);
        component' := ReverseDfs(p, transpose, visited, component', edges);
        ghost var more := component'[|before|..];
        assert component' == before + more;
        forall a | a in more
          ensures Reach(edges, a, node)
        {
          ReachExtend(edges, a, p, node);
        }
        NoDuplicatesAppend(added, more);
        added := added + more;
      }
    }
    forall p | HasEdge(edges, p, node)
      ensures 0 <= p < visited.Length && visited[p]
    {
      assert p in preds;
    }
    assert added == [node] + added[1..];
  }

  /**
   * `added` is what a reverse search from `node` collected, turning the
   * visited marks `visB` into `visA`: it starts at `node`, has no repetition,
   * was unvisited, reaches `node`, and every predecessor of it is now visited.
   */
  ghost predicate CollectedFrom(edges: seq<Edge>, visB: seq<bool>, visA: seq<bool>, added: seq<int>, node: int) {
    && |visA| == |visB| && |added| > 0 && added[0] == node && NoDuplicates(added)
    && (forall v :: 0 <= v < |visA| ==> (visA[v] <==> visB[v] || v in added))
    && (forall a :: a in added ==> 0 <= a < |visB| && !visB[a] && Reach(edges, a, node))
    && (forall a, p :: a in added && HasEdge(edges, p, a) ==> 0 <= p < |visA| && visA[p])
  }

  /** Every stack entry from position `m` upwards is visited. */
  ghost predicate VisitedFrom(order: seq<int>, m: int, vis: seq<bool>) {
    forall k :: m <= k < |order| ==> 0 <= k && 0 <= order[k] < |vis| && vis[order[k]]
  }

  ghost predicate SecondPassInv(edges: seq<Edge>, vis: seq<bool>, sccs: seq<seq<int>>) {
    && (forall c, v :: 0 <= c < |sccs| && v in sccs[c] ==> 0 <= v < |vis|)
    && (forall v :: 0 <= v < |vis| ==> (vis[v] <==> exists c :: 0 <= c < |sccs| && v in sccs[c]))
    && (forall c, d, v :: 0 <= c < |sccs| && 0 <= d < |sccs| && v in sccs[c] && v in sccs[d] ==> c == d)
    && (forall c :: 0 <= c < |sccs| ==> sccs[c] != [] && NoDuplicates(sccs[c]))
    && (forall c, a, b :: 0 <= c < |sccs| && a in sccs[c] && 0 <= b < |vis| ==>
          (b in sccs[c] <==> SameScc(edges, a, b)))
  }

  /**
   * The search from `node` is closed under predecessors outside the visited
   * nodes, so it contains every node of a walk into `node` that stays in the
   * component of `node`.
   */
  lemma {:induction false} ClosedUnderWalks(edges: seq<Edge>, visB: seq<bool>, added: seq<int>, node: int,
                                            w: int, p: seq<Edge>)
    requires node in added
    requires forall a, q :: a in added && HasEdge(edges, q, a) ==> 0 <= q < |visB| && (visB[q] || q in added)
    requires forall x :: 0 <= x < |visB| && SameScc(edges, x, node) ==> !visB[x]
    requires IsWalk(edges, w, node, p) && SameScc(edges, w, node)
    ensures w in added
    decreases |p|
  {
    if p != [] {
      var m := p[0].to;
      assert IsWalk(edges, m, node, p[1..]);
      assert HasEdge(edges, w, m);
      ReachExtend(edges, node, w, m);
      ClosedUnderWalks(edges, visB, added, node, m, p[1..]);
    }
  }

  /** A collected node lies in the component of the root: an earlier root would have taken it. */
  lemma CollectedWithinScc(edges: seq<Edge>, order: seq<int>, m: int, visB: seq<bool>, sccs: seq<seq<int>>, b: int)
    requires FinishOrdered(edges, order, {})
    requires 0 <= m < |order| && b in order
    requires VisitedFrom(order, m + 1, visB)
    requires SecondPassInv(edges, visB, sccs)
    requires 0 <= b < |visB| && !visB[b] && Reach(edges, b, order[m])
    ensures SameScc(edges, order[m], b)
  {
    assert ReachesEntry(edges, order, b, m);
    assert Settled(edges, order, {}, b, m);
    var k :| 0 <= k < |order| && m <= k && SameScc(edges, b, order[k]);
    if k != m {
      var c :| 0 <= c < |sccs| && order[k] in sccs[c];
      assert SameScc(edges, order[k], b);
      assert false;
    }
  }

  /** Every node of the root's component is collected: none of them was visited before. */
  lemma SccWithinCollected(edges: seq<Edge>, visB: seq<bool>, sccs: seq<seq<int>>, added: seq<int>, node: int, b: int)
    requires SecondPassInv(edges, visB, sccs)
    requires 0 <= node < |visB| && !visB[node] && node in added
    requires forall a, q :: a in added && HasEdge(edges, q, a) ==> 0 <= q < |visB| && (visB[q] || q in added)
    requires 0 <= b < |visB| && SameScc(edges, node, b)
    ensures b in added
  {
    forall x | 0 <= x < |visB| && SameScc(edges, x, node)
      ensures !visB[x]
    {
    }
    var p :| IsWalk(edges, b, node, p);
    ClosedUnderWalks(edges, visB, added, node, b, p);
  }

  /** Appending the component of `node` keeps the second-pass invariant. */
  lemma ExtendSecondPass(edges: seq<Edge>, visB: seq<bool>, visA: seq<bool>, sccs: seq<seq<int>>, added: seq<int>, node: int)
    requires SecondPassInv(edges, visB, sccs) && |visA| == |visB|
    requires node in added && NoDuplicates(added)
    requires forall a :: a in added ==> 0 <= a < |visB| && !visB[a]
    requires forall b :: 0 <= b < |visB| ==> (b in added <==> SameScc(edges, node, b))
    requires forall v :: 0 <= v < |visA| ==> (visA[v] <==> visB[v] || v in added)
    ensures SecondPassInv(edges, visA, sccs + [added])
  {
    var sccs' := sccs + [added];
    assert sccs'[|sccs|] == added;
    assert forall c :: 0 <= c < |sccs| ==> sccs'[c] == sccs[c];
    forall c, a, b | 0 <= c < |sccs'| && a in sccs'[c] && 0 <= b < |visA|
      ensures b in sccs'[c] <==> SameScc(edges, a, b)
    {
      if c == |sccs| {
        assert SameScc(edges, node, a);
        if b in added {
          SameSccTrans(edges, a, node, b);
        }
        if SameScc(edges, a, b) {
          SameSccTrans(edges, node, a, b);
        }
      }
    }
    forall v | 0 <= v < |visA|
      ensures visA[v] <==> exists c :: 0 <= c < |sccs'| && v in sccs'[c]
    {
      if visB[v] {
        var c :| 0 <= c < |sccs| && v in sccs[c];
        assert v in sccs'[c];
      }
      if v in added {
        assert v in sccs'[|sccs|];
      }
    }
  }

  /** One step of the second pass: the nodes collected from `order[m]` form its whole component. */
  lemma CollectedIsScc(edges: seq<Edge>, order: seq<int>, m: int,
                       visB: seq<bool>, visA: seq<bool>, sccs: seq<seq<int>>, added: seq<int>)
    requires ValidEdges(edges, |visB|)
    requires FinishOrdered(edges, order, {})
    requires forall v :: 0 <= v < |visB| ==> v in order
    requires 0 <= m < |order| && 0 <= order[m] < |visB| && !visB[order[m]]
    requires VisitedFrom(order, m + 1, visB)
    requires SecondPassInv(edges, visB, sccs)
    requires CollectedFrom(edges, visB, visA, added, order[m])
    ensures SecondPassInv(edges, visA, sccs + [added])
    ensures VisitedFrom(order, m, visA)
  {
    var node := order[m];
    forall b | 0 <= b < |visB|
      ensures b in added <==> SameScc(edges, node, b)
    {
      if b in added {
        CollectedWithinScc(edges, order, m, visB, sccs, b);
      }
      if SameScc(edges, node, b) {
        SccWithinCollected(edges, visB, sccs, added, node, b);
      }
    }
    ExtendSecondPass(edges, visB, visA, sccs, added, node);
  }

  /** Kosaraju's search: the returned lists are exactly the strongly connected components. */
  method FindSccs(n: nat, edges: seq<Edge>) returns (sccs: seq<seq<int>>)
    requires ValidEdges(edges, n)
    ensures IsSccPartition(edges, n, sccs)
  {
    var adj: seq<seq<int>> := seq(n, _ => []);
    var transpose: seq<seq<int>> := seq(n, _ => []);

    for t := 0 to |edges|
      invariant |adj| == |transpose| == n
      invariant IsAdjacency(edges[..t], adj)
      invariant IsTranspose(edges[..t], transpose)
    {
      var edge := edges[t];
      assert edge in edges;
      AdjacencySnoc(edges[..t], adj, edge);
      TransposeSnoc(edges[..t], transpose, edge);
      assert edges[..t + 1] == edges[..t] + [edge];
      adj := adj[edge.from := adj[edge.from] + [edge.to]];
      transpose := transpose[edge.to := transpose[edge.to] + [edge.from]];
    }
    assert edges[..|edges|] == edges;

    var visited := new bool[n](_ => false);
    var stack: seq<int> := [];
    for i := 0 to n
      modifies visited
      invariant FirstPassInv(edges, visited[..], {}, stack)
      invariant forall v :: 0 <= v < i ==> visited[v]
    {
      if !visited[i] {
        stack := Dfs(i, adj, visited, stack, edges, {});
      }
    }
    ghost var order := stack;
    FirstPassDone(edges, visited[..], order);

    for i := 0 to visited.Length
      modifies visited
      invariant forall v :: 0 <= v < i ==> !visited[v]
    {
      visited[i] := false;
    }

    sccs := CollectComponents(stack, transpose, visited, edges);
  }

  /**
   * The second pass of `FindSccs`: pops the finishing-order stack and starts
   * a reverse search from every popped node not yet visited; each search
   * collects one component.
   */
  method CollectComponents(stack: seq<int>, transpose: seq<seq<int>>, visited: array<bool>, ghost edges: seq<Edge>)
    returns (sccs: seq<seq<int>>)
    requires |transpose| == visited.Length
    requires ValidEdges(edges, visited.Length) && IsTranspose(edges, transpose)
    requires forall v :: 0 <= v < visited.Length ==> !visited[v]
    requires forall v :: 0 <= v < visited.Length ==> v in stack
    requires forall k :: 0 <= k < |stack| ==> 0 <= stack[k] < visited.Length
    requires FinishOrdered(edges, stack, {})
    modifies visited
    ensures IsSccPartition(edges, visited.Length, sccs)
  {
    ghost var order := stack;
    var rest := stack;
    sccs := [];
    while |rest| > 0
      modifies visited
      invariant |rest| <= |order| && rest == order[..|rest|]
      invariant SecondPassInv(edges, visited[..], sccs)
      invariant VisitedFrom(order, |rest|, visited[..])
    {
      var node := rest[|rest| - 1];
      rest := rest[..|rest| - 1];
      if !visited[node] {
        ghost var visB := visited[..];
        var component := ReverseDfs(node, transpose, visited, [], edges);
        assert component[0..] == component;
        CollectedIsScc(edges, order, |rest|, visB, visited[..], sccs, component);
        sccs := sccs + [component];
      }
    }
    SecondPassDone(edges, order, visited[..], sccs);
  }

  /** After the first pass every node is on the stack, in finishing order. */
  lemma FirstPassDone(edges: seq<Edge>, vis: seq<bool>, S: seq<int>)
    requires FirstPassInv(edges, vis, {}, S)
    requires forall v :: 0 <= v < |vis| ==> vis[v]
    ensures forall v :: 0 <= v < |vis| ==> v in S
    ensures forall k :: 0 <= k < |S| ==> 0 <= S[k] < |vis|
    ensures FinishOrdered(edges, S, {})
  {
  }

  /** Once the whole stack is popped, the collected lists partition the nodes into components. */
  lemma SecondPassDone(edges: seq<Edge>, order: seq<int>, vis: seq<bool>, sccs: seq<seq<int>>)
    requires SecondPassInv(edges, vis, sccs)
    requires forall v :: 0 <= v < |vis| ==> v in order
    requires VisitedFrom(order, 0, vis)
    ensures IsSccPartition(edges, |vis|, sccs)
  {
    forall v | 0 <= v < |vis|
      ensures Covered(sccs, v)
    {
      assert v in order;
      var k :| 0 <= k < |order| && order[k] == v;
      assert vis[v];
    }
  }

  lemma AdjacencySnoc(edges: seq<Edge>, adj: seq<seq<int>>, e: Edge)
    requires IsAdjacency(edges, adj) && 0 <= e.from < |adj|
    ensures IsAdjacency(edges + [e], adj[e.from := adj[e.from] + [e.to]])
  {
    var edges', adj' := edges + [e], adj[e.from := adj[e.from] + [e.to]];
    forall u, v | 0 <= u < |adj'|
      ensures v in adj'[u] <==> HasEdge(edges', u, v)
    {
      if HasEdge(edges', u, v) {
        var f :| f in edges' && f.from == u && f.to == v;
        if f != e {
          assert f in edges;
        }
      }
      if HasEdge(edges, u, v) {
        var f :| f in edges && f.from == u && f.to == v;
        assert f in edges';
      }
      assert e in edges';
    }
  }

  lemma TransposeSnoc(edges: seq<Edge>, tr: seq<seq<int>>, e: Edge)
    requires IsTranspose(edges, tr) && 0 <= e.to < |tr|
    ensures IsTranspose(edges + [e], tr[e.to := tr[e.to] + [e.from]])
  {
    var edges', tr' := edges + [e], tr[e.to := tr[e.to] + [e.from]];
    forall u, v | 0 <= u < |tr'|
      ensures v in tr'[u] <==> HasEdge(edges', v, u)
    {
      if HasEdge(edges', v, u) {
        var f :| f in edges' && f.from == v && f.to == u;
        if f != e {
          assert f in edges;
        }
      }
      if HasEdge(edges, v, u) {
        var f :| f in edges && f.from == v && f.to == u;
        assert f in edges';
      }
      assert e in edges';
    }
  }

  /** Two nodes share a returned component exactly when they are mutually reachable. */
  lemma {:induction false} SameComponentIffMutuallyReachable(edges: seq<Edge>, n: int, sccs: seq<seq<int>>, u: int, v: int)
    requires IsSccPartition(edges, n, sccs)
    requires 0 <= u < n && 0 <= v < n
    ensures (exists c :: 0 <= c < |sccs| && u in sccs[c] && v in sccs[c]) <==> SameScc(edges, u, v)
  {
    assert Covered(sccs, u);
    var c :| 0 <= c < |sccs| && u in sccs[c];
    if SameScc(edges, u, v) {
      assert v in sccs[c];
    }
  }
}

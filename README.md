# Air traffic network optimisation — a verified Dafny model

The program searches for route networks between `n` airports (nodes
`0 .. n-1`). It picks its edges from a list of candidate flights (`allEdges`,
each with a travel time). The search is a multi-objective genetic algorithm
in the style of NSGA-II and minimises two objectives:

- the number of edges;
- the total shortest travel time over all ordered pairs of airports.

Two source files make up the core, and this project models both.

- `Graph.cs` holds the graph algorithms:
  - Kosaraju's two-pass strongly-connected-components search (`FindSCCs`,
    `DFS`, `ReverseDFS`);
  - single-source Dijkstra over a sorted set of `(distance, node)` pairs with
    remove-then-reinsert decrease-key (`GetShortestPath`).
- `NGSAII.cs` holds the evolutionary operators:
  - the connectivity repair (`EnsureConnectivity`) adds the cheapest candidate
    edge between every ordered pair of distinct components;
  - the fitness function (`EvaluateSolution`);
  - Pareto dominance and the single-front survivor filter
    (`Dominates`, `NonDominatedSorting`);
  - random initial solutions, crossover and mutation;
  - the generation loop of `RunNSGAII`.

## Modules

- `wrappers.dfy` — `Option`.
- `walks.dfy` — the specification vocabulary:
  - `Edge`, walks, reachability, "same strongly connected component",
    strong connectivity;
  - `Dist`, a travel time or infinity, in place of `double.MaxValue`;
  - `Distance`, the least weight of a walk.
- `scc.dfy` — `FindSccs`, `Dfs` and `ReverseDfs` as imperative methods over a
  shared `visited` array. They are proved to return the partition into
  strongly connected components.
- `shortest_path.dfy` — `GetShortestPath` as a loop over a `distances` array
  and a queue of `(distance, node)` pairs. It is proved to return exactly the
  shortest travel times.
- `selection.dfy` — the `Solution` class, `Dominates`, and
  `NonDominatedSorting`: a filter followed by a stable sort on
  (objective 1, objective 2).
- `evolution.dfy` — the operators and the generation loop.

The random draws of the program are explicit parameters:

- a keep-mask of booleans for each `NextDouble() > 0.5` filter;
- a boolean for the mutation test `NextDouble() > 0.8`;
- natural numbers `r` for `Next(count)`, read as `r % count`.

Under these draws every operator's body is deterministic. The contracts pin
each result, the whole run included, up to one thing: the order in which
`FindSccs` lists the components (see "## Left out"). Each operator returns
the components it used as ghost outputs, and given those the result is
fixed.

The operators that repair a list also return, as ghost outputs, the
components of the list before the repair. The contracts use them to say
which bridges the repair appended to each child, and that a repair fails
exactly when some ordered pair of those components has no candidate
bridge.

The run itself returns a ghost record:

- `history`, the populations it went through, the first seeded from the
  initial keep-masks;
- `trace`, one `Generation` per round, holding what that round bred and
  mutated and the components each repair used.

Each population in `history` follows the one before it under that round's
draws. The final population is the last entry. A failed run ends with a
failed seed or a failed round.

An exception in the program becomes `None` in the model:

- `First()` on an empty query in the repair;
- `population[0]` on an empty population.

The null test after `First()` (`NGSAII.cs:43`) can never fail. `First()`
throws before the test is reached, so the model has no branch for it.

## Model

| member | source | states |
|---|---|---|
| Walks.Distance | AirTrafficOptimization/AirTrafficOptimization/Graph.cs:89-117 | the shortest travel time from `s` to `v` is finite exactly when `v` is reachable, and is then the least weight of any walk |
| Walks.SumDist | AirTrafficOptimization/AirTrafficOptimization/NGSAII.cs:57 | the sum of a row of distances is finite exactly when every entry is finite |
| Scc.FindSccs | AirTrafficOptimization/AirTrafficOptimization/Graph.cs:25-66 | the result partitions `0..n-1` into non-empty, repetition-free components; every node lies in exactly one, and a component holds exactly the nodes mutually reachable with any of its members |
| Scc.SameComponentIffMutuallyReachable | AirTrafficOptimization/AirTrafficOptimization/Graph.cs:25-66 | two nodes share a returned component if and only if each reaches the other |
| Scc.Dfs | AirTrafficOptimization/AirTrafficOptimization/Graph.cs:68-77 | marks visited exactly the old visited nodes plus the newly pushed ones; keeps the old stack as a prefix and pushes `node` last; every pushed node is reachable from `node`; keeps the first-pass invariant (each node pushed once, only after its successors are visited, in finishing order) |
| Scc.MarkGray | AirTrafficOptimization/AirTrafficOptimization/Graph.cs:70 | marking a fresh node visited (its search still running) keeps the first-pass invariant |
| Scc.PushFinished | AirTrafficOptimization/AirTrafficOptimization/Graph.cs:71-76 | pushing a node after all its successors are visited keeps the finishing-order invariant |
| Scc.FirstPassDone | AirTrafficOptimization/AirTrafficOptimization/Graph.cs:43-47 | after the first pass every node of `0..n-1` is on the stack, every entry is a node, and the stack is in finishing order |
| Scc.ReverseDfs | AirTrafficOptimization/AirTrafficOptimization/Graph.cs:79-88 | appends `node` first, then only nodes that were unvisited and reach `node` along the edges (reachable in the transpose), without repetition; marks visited exactly the old visited nodes plus these; every predecessor of an added node ends visited |
| Scc.CollectComponents | AirTrafficOptimization/AirTrafficOptimization/Graph.cs:53-63 | popping the finishing-order stack with cleared flags and collecting one component per unvisited node yields the component partition |
| Scc.CollectedIsScc | AirTrafficOptimization/AirTrafficOptimization/Graph.cs:56-62 | the reverse search from the next unvisited node popped collects exactly that node's component |
| Scc.ExtendSecondPass | AirTrafficOptimization/AirTrafficOptimization/Graph.cs:59-61 | adding a collected component keeps the second-pass invariant: components disjoint, each exactly an equivalence class of mutual reachability, and visited exactly their union |
| Scc.SecondPassDone | AirTrafficOptimization/AirTrafficOptimization/Graph.cs:54-63 | once every node is visited, the collected components are the partition |
| ShortestPath.GetShortestPath | AirTrafficOptimization/AirTrafficOptimization/Graph.cs:89-117 | a fresh array of length `n`; `start` at 0; no edge out of a reached node can be relaxed; every entry equals the shortest travel time from `start`, infinite exactly for unreachable nodes |
| ShortestPath.RelaxOutgoing | AirTrafficOptimization/AirTrafficOptimization/Graph.cs:102-113 | relaxing the edges out of the node just taken only ever lowers entries, and every entry it changes becomes the taken distance plus the weight of an edge from that node to it; afterwards no edge out of that node can lower its head; every finite entry stays the weight of some walk, the queue stays in step with the array, and the (unreached count, finite sum, queue) measure decreases |
| ShortestPath.LowerStep | AirTrafficOptimization/AirTrafficOptimization/Graph.cs:107-111 | lowering the head of an edge out of the taken node to the taken distance plus its weight keeps every change a lowering through such an edge, and leaves that edge relaxed |
| ShortestPath.SkipStep | AirTrafficOptimization/AirTrafficOptimization/Graph.cs:102-107 | an edge passed over, because it leaves another node or cannot lower its head, leaves that head relaxed |
| ShortestPath.OutAllRelaxed | AirTrafficOptimization/AirTrafficOptimization/Graph.cs:102-113 | once every edge is passed, no edge out of the taken node can lower its head |
| ShortestPath.RelaxKeepsInv | AirTrafficOptimization/AirTrafficOptimization/Graph.cs:107-111 | lowering a neighbour's entry and swapping its queue pair keeps the invariants and strictly lowers the measure |
| ShortestPath.TakeKeepsInv | AirTrafficOptimization/AirTrafficOptimization/Graph.cs:99-100 | removing the least pair leaves the invariants holding, with that node's edges pending |
| ShortestPath.LeastPairExists | AirTrafficOptimization/AirTrafficOptimization/Graph.cs:99 | a non-empty queue has a least `(distance, node)` pair, which is what the sorted set yields first |
| ShortestPath.RelaxedIsDistance | AirTrafficOptimization/AirTrafficOptimization/Graph.cs:97-116 | walk-weight entries with `start` at 0 and no relaxable edge are exactly the shortest travel times |
| ShortestPath.LowerEntry | AirTrafficOptimization/AirTrafficOptimization/Graph.cs:110 | lowering an entry lowers (unreached count, finite sum) lexicographically, so the loop terminates |
| Selection.Solution.constructor | AirTrafficOptimization/AirTrafficOptimization/NGSAII.cs:16-19 | a new solution holds the given edges, with both objectives at their default of zero |
| Selection.Dominates | AirTrafficOptimization/AirTrafficOptimization/NGSAII.cs:142-146 | a dominating solution comes strictly first in (objective 1, objective 2) order: no later in the order and not equal in both objectives |
| Selection.DominatesIrreflexive | AirTrafficOptimization/AirTrafficOptimization/NGSAII.cs:142-146 | no solution dominates itself |
| Selection.DominatesAsymmetric | AirTrafficOptimization/AirTrafficOptimization/NGSAII.cs:142-146 | dominance never holds in both directions |
| Selection.DominatesTransitive | AirTrafficOptimization/AirTrafficOptimization/NGSAII.cs:142-146 | dominance is transitive |
| Selection.FrontOf | AirTrafficOptimization/AirTrafficOptimization/NGSAII.cs:131-138 | keeps exactly the members that no member of the population dominates, each taken from the input, and never adds copies |
| Selection.FrontOfAppend | AirTrafficOptimization/AirTrafficOptimization/NGSAII.cs:132-137 | filtering a concatenation gives the filtered parts concatenated, so the survivors keep their population order |
| Selection.FrontOfSingle | AirTrafficOptimization/AirTrafficOptimization/NGSAII.cs:134-136 | a single solution survives exactly when no member of the population dominates it |
| Selection.Insert | AirTrafficOptimization/AirTrafficOptimization/NGSAII.cs:139 | insertion adds exactly one copy of the new element |
| Selection.InsertSorted | AirTrafficOptimization/AirTrafficOptimization/NGSAII.cs:139 | insertion into a list sorted by (objective 1, objective 2) keeps it sorted |
| Selection.SortByObjectives | AirTrafficOptimization/AirTrafficOptimization/NGSAII.cs:139 | the result is a permutation of the input, sorted by objective 1, then objective 2 |
| Selection.InsertStable | AirTrafficOptimization/AirTrafficOptimization/NGSAII.cs:139 | inserting places the new element after every element with an equal key |
| Selection.SortStable | AirTrafficOptimization/AirTrafficOptimization/NGSAII.cs:139 | the sort is stable: solutions with equal objectives keep their input order |
| Selection.NonDominatedSorting | AirTrafficOptimization/AirTrafficOptimization/NGSAII.cs:129-140 | the result holds exactly the undominated members of the population, as a permutation of the filtered list, sorted by objective 1, then objective 2 |
| Selection.SurvivorsMutuallyUndominated | AirTrafficOptimization/AirTrafficOptimization/NGSAII.cs:129-140 | no survivor dominates another |
| Selection.SurvivorsNonEmpty | AirTrafficOptimization/AirTrafficOptimization/NGSAII.cs:129-140 | a non-empty population has at least one survivor |
| Selection.LeastKeyExists | AirTrafficOptimization/AirTrafficOptimization/NGSAII.cs:139 | a non-empty population has a member first in (objective 1, objective 2) order |
| Selection.SelectionKeepsFront | AirTrafficOptimization/AirTrafficOptimization/NGSAII.cs:100-101 | the cut survivors number at most `count`, come from the population, are sorted, none dominates another, and there is at least one when the population is non-empty and `count > 0` |
| Evolution.Where | AirTrafficOptimization/AirTrafficOptimization/NGSAII.cs:27 | the result holds exactly the elements whose draw says keep: each kept element has a keep draw at a position that holds it, and every element with a keep draw is kept; it is a sub-multiset of the input, and all of the input when every draw says keep |
| Evolution.WhereIndices | AirTrafficOptimization/AirTrafficOptimization/NGSAII.cs:27 | the result is the input read at exactly the positions whose draw says keep, in increasing order: one copy per kept position, in input order |
| Evolution.Distinct | AirTrafficOptimization/AirTrafficOptimization/NGSAII.cs:113 | the union of the parents' edges holds every edge of either parent, and no edge twice |
| Evolution.DistinctKeepsFirstOrder | AirTrafficOptimization/AirTrafficOptimization/NGSAII.cs:113 | the union lists the edges in the order of their first occurrence |
| Evolution.FirstIndexPrefix | AirTrafficOptimization/AirTrafficOptimization/NGSAII.cs:113 | appending does not move an existing first occurrence |
| Evolution.RemoveFirst | AirTrafficOptimization/AirTrafficOptimization/NGSAII.cs:123 | removing shortens the list by one exactly when the edge is present, leaves it unchanged otherwise, and introduces nothing new |
| Evolution.RemoveFirstMultiset | AirTrafficOptimization/AirTrafficOptimization/NGSAII.cs:123 | removal takes away exactly one copy of the edge |
| Evolution.RemoveFirstCutsFirst | AirTrafficOptimization/AirTrafficOptimization/NGSAII.cs:123 | removal cuts out exactly the first occurrence |
| Evolution.AfterRemoval | AirTrafficOptimization/AirTrafficOptimization/NGSAII.cs:120-124 | the list loses exactly one edge when the flag fires and there is more than one edge, and is unchanged otherwise; it never gains an edge |
| Evolution.CheapestBridge | AirTrafficOptimization/AirTrafficOptimization/NGSAII.cs:42 | `None` exactly when no candidate leads from component i to component j; otherwise a candidate that does |
| Evolution.CheapestBridgeIsLeast | AirTrafficOptimization/AirTrafficOptimization/NGSAII.cs:42 | the chosen bridge weighs no more than any candidate bridge |
| Evolution.CheapestBridgeIsFirst | AirTrafficOptimization/AirTrafficOptimization/NGSAII.cs:42 | among bridges of least weight the chosen one comes first (a stable order by weight, then the first element) |
| Evolution.EnsureConnectivity | AirTrafficOptimization/AirTrafficOptimization/NGSAII.cs:32-46 | fails exactly when some ordered pair of distinct components has no candidate; otherwise keeps the edges as a prefix and appends k·(k−1) cheapest bridges, one per ordered pair, ordered by the first component and then the second (the bridge from `i` to `j` at slot `i·(k−1) + (j if j < i else j−1)`); the result is strongly connected and draws only on `edges` and `allEdges`; it never fails when every pair of distinct nodes has a candidate |
| Evolution.BridgesFrom | AirTrafficOptimization/AirTrafficOptimization/NGSAII.cs:39-45 | from component `i`: fails exactly when some other component has no bridge from it; otherwise returns k−1 edges, the cheapest bridge to each other component, in component order |
| Evolution.BridgesAppended | AirTrafficOptimization/AirTrafficOptimization/NGSAII.cs:38-44 | appending the bridges from component `i`, in component order, after those of the components before it puts every bridge so far at its slot |
| Evolution.BridgedGrows | AirTrafficOptimization/AirTrafficOptimization/NGSAII.cs:44 | a pair bridged by earlier appends stays bridged after more appends |
| Evolution.AllPairsBridged | AirTrafficOptimization/AirTrafficOptimization/NGSAII.cs:38-45 | once every ordered pair has its bridge appended, the list is a repair, valid and strongly connected |
| Evolution.BridgesExist | AirTrafficOptimization/AirTrafficOptimization/NGSAII.cs:42 | with a candidate for every ordered pair of distinct nodes, every ordered pair of distinct components has a bridge |
| Evolution.RepairConnects | AirTrafficOptimization/AirTrafficOptimization/NGSAII.cs:38-45 | a repaired edge list stays within the nodes and is strongly connected |
| Evolution.RepairKeepsEdges | AirTrafficOptimization/AirTrafficOptimization/NGSAII.cs:44 | a repair keeps all original edges and adds only candidates |
| Evolution.RepairReaches | AirTrafficOptimization/AirTrafficOptimization/NGSAII.cs:38-45 | after the repair every node reaches every node, either within a component or across the bridge between two |
| Evolution.ReachOverBridge | AirTrafficOptimization/AirTrafficOptimization/NGSAII.cs:42-44 | a bridge from component i to component j connects every member of i to every member of j |
| Evolution.InComponent | AirTrafficOptimization/AirTrafficOptimization/NGSAII.cs:36 | two members of one returned component are mutually reachable |
| Evolution.RowFinite | AirTrafficOptimization/AirTrafficOptimization/NGSAII.cs:57 | the row sum for a source is finite exactly when that source reaches every node |
| Evolution.TotalUpToFinite | AirTrafficOptimization/AirTrafficOptimization/NGSAII.cs:55-58 | the running total over the first `m` sources is finite exactly when each of them reaches every node |
| Evolution.SourcesReachAllMeans | AirTrafficOptimization/AirTrafficOptimization/NGSAII.cs:55-58 | "each of the first `m` sources reaches all nodes" means what it says, for every such source |
| Evolution.TotalDistanceFinite | AirTrafficOptimization/AirTrafficOptimization/NGSAII.cs:52-60 | the total travel time is finite exactly when the network is strongly connected |
| Evolution.TotalStep | AirTrafficOptimization/AirTrafficOptimization/NGSAII.cs:57 | adding the row sum of source `i` extends the running total over sources `0..i-1` to `0..i` |
| Evolution.EvaluateSolution | AirTrafficOptimization/AirTrafficOptimization/NGSAII.cs:48-61 | leaves the edges unchanged; sets objective 1 to the edge count and objective 2 to the sum, over all ordered pairs, of the shortest travel times |
| Evolution.MemberTotalFinite | AirTrafficOptimization/AirTrafficOptimization/NGSAII.cs:48-61 | a repaired, evaluated solution has a finite total travel time |
| Evolution.CreateRandomSolution | AirTrafficOptimization/AirTrafficOptimization/NGSAII.cs:25-30 | a fresh solution whose edges are exactly the kept candidates followed by one cheapest bridge for each ordered pair of distinct components, in pair order, of the kept candidates; they are drawn from the candidates and strongly connected; there is no solution exactly when some ordered pair of those components has no candidate bridge, so never when every pair of distinct nodes has a candidate |
| Evolution.Crossover | AirTrafficOptimization/AirTrafficOptimization/NGSAII.cs:111-116 | a fresh child whose edges are exactly the kept edges of the parents' union, followed by one cheapest bridge for each ordered pair of distinct components, in pair order, of those kept edges; they are drawn from the candidates and strongly connected; there is no child exactly when some ordered pair of those components has no candidate bridge, so never when every pair of distinct nodes has a candidate |
| Evolution.Mutate | AirTrafficOptimization/AirTrafficOptimization/NGSAII.cs:118-127 | the surviving edges are the old edges after removing the first occurrence of the drawn edge, only when the flag fires and there is more than one edge; the repair fails exactly when some ordered pair of the survivors' components has no candidate bridge, and then leaves the survivors; otherwise the edges are exactly those survivors followed by one cheapest bridge for each ordered pair of their components, in pair order, and strongly connected; objectives untouched; never fails when every pair of distinct nodes has a candidate |
| Evolution.Breed | AirTrafficOptimization/AirTrafficOptimization/NGSAII.cs:87-93 | child `i` is the crossover of the two parents that draw `i` selects: its edges are the kept edges of the union of those parents' edges, followed by one cheapest bridge per ordered pair of their components; one fresh, distinct child per draw, drawn from the candidates; on failure, either the population is empty with children to make, or every child before the failing one is its crossover and the failing child's kept edges have an unbridged pair of components; succeeds when every pair of distinct nodes has a candidate |
| Evolution.BreedChild | AirTrafficOptimization/AirTrafficOptimization/NGSAII.cs:90-92 | the next child is fresh and is the crossover of the two parents its draw selects, so every child so far stays as that crossover says; when there is no child, the kept edges of that draw have components with an ordered pair that no candidate bridges; it exists when every pair of distinct nodes has a candidate |
| Evolution.CrossedNotFailed | AirTrafficOptimization/AirTrafficOptimization/NGSAII.cs:113-114 | a child bred as its crossover says is not a failed repair under the same components, so with `BreedChild` a child is missing exactly when its kept edges have an unbridged pair of components |
| Evolution.AllCrossedExtend | AirTrafficOptimization/AirTrafficOptimization/NGSAII.cs:88-93 | one more child that is the crossover of its drawn parents keeps every child so far as its crossover says |
| Evolution.MutateAndEvaluate | AirTrafficOptimization/AirTrafficOptimization/NGSAII.cs:95-99 | child `i`'s new edges are its old edges after the removal its draw selects, followed by one cheapest bridge per ordered pair of components of what is left; every child ends strongly connected and evaluated; on failure every child before the failing one is mutated as its draw says and the failing child's edges after the removal have an unbridged pair of components; this never fails when every pair of distinct nodes has a candidate |
| Evolution.MutateChild | AirTrafficOptimization/AirTrafficOptimization/NGSAII.cs:97-98 | one child, mutated as its draw selects, repaired and evaluated; when it fails, the edges left after the removal have components with an ordered pair that no candidate bridges; it never fails when every pair of distinct nodes has a candidate |
| Evolution.MutatedNotFailed | AirTrafficOptimization/AirTrafficOptimization/NGSAII.cs:120-126 | a child mutated and repaired as its draw says is not a failed repair under the same components, so with `MutateChild` the mutation fails exactly when the surviving edges have an unbridged pair of components |
| Evolution.AllMutatedExtend | AirTrafficOptimization/AirTrafficOptimization/NGSAII.cs:95-99 | one more child mutated and repaired as its draw says keeps every child so far as its mutation says |
| Evolution.SteppedNotFailed | AirTrafficOptimization/AirTrafficOptimization/NGSAII.cs:87-101 | a round recorded as completed is not recorded as failed, so with `NextGeneration` the round fails exactly when its record shows a failure |
| Evolution.SteppedKeepsFront | AirTrafficOptimization/AirTrafficOptimization/NGSAII.cs:100-101 | the population after a completed round has at most `populationSize` members, all evaluated and strongly connected, sorted and mutually undominated, and is non-empty when the old one was and `populationSize > 0` |
| Evolution.SteppedFront | AirTrafficOptimization/AirTrafficOptimization/NGSAII.cs:100-101 | the population after a completed round is sorted by objectives and no member dominates another |
| Evolution.NextGeneration | AirTrafficOptimization/AirTrafficOptimization/NGSAII.cs:85-102 | the round is recorded in `t`: each offspring is the crossover of the two parents of the old population its draw selects, then mutated and repaired as the same draw says, and evaluated, and the next population is the first `populationSize` survivors of the old population plus its offspring (`Stepped`); at most `populationSize` of them, all evaluated and strongly connected, sorted, none dominating another, and at least one when `populationSize > 0`; on failure `t` shows where (`StepFailed`): a parent drawn from an empty population, or the first child whose kept or surviving edges have an unbridged pair of components |
| Evolution.InitialPopulation | AirTrafficOptimization/AirTrafficOptimization/NGSAII.cs:77-83 | the initial population holds one fresh, evaluated solution per keep-mask, in order, each the repair of the candidates its mask keeps; on failure it holds the solutions made so far and the next mask's kept candidates have an unbridged pair of components; it is complete when every pair of distinct nodes has a candidate |
| Evolution.SeededExtend | AirTrafficOptimization/AirTrafficOptimization/NGSAII.cs:78-83 | a solution made from the next keep-mask extends a seeded prefix of the initial population |
| Evolution.SeededRecord | AirTrafficOptimization/AirTrafficOptimization/NGSAII.cs:80 | recording the components of a failed seed leaves the solutions made so far seeded |
| Evolution.Advance | AirTrafficOptimization/AirTrafficOptimization/NGSAII.cs:87-101 | one more round: on success the run's record gains the next population and the round, and every population still follows the one before it; on failure the record gains the failed round and shows where it failed |
| Evolution.AllStepsExtend | AirTrafficOptimization/AirTrafficOptimization/NGSAII.cs:85-102 | a round that follows the last population extends the run's record by one population, every population still following the one before it |
| Evolution.AllStepsRecord | AirTrafficOptimization/AirTrafficOptimization/NGSAII.cs:85-102 | recording a failed round leaves every earlier round of the record as it was |
| Evolution.Evolve | AirTrafficOptimization/AirTrafficOptimization/NGSAII.cs:85-102 | from the initial population, every population of the record follows the one before it; after all rounds the result is the last population; on failure the last recorded round shows where it failed; never fails when every pair of distinct nodes has a candidate |
| Evolution.RunNsgaII | AirTrafficOptimization/AirTrafficOptimization/NGSAII.cs:75-103 | the first population of `history` is seeded from the keep-masks, each later one follows the one before it under that round's draws, and the final population is the last; a failure is a failed seed or a failed round, shown in the record; the final population has at most `populationSize` members, all evaluated and strongly connected; after at least one generation it is sorted and mutually undominated; non-empty when `populationSize > 0`; it cannot fail when every pair of distinct nodes has a candidate |

## Left out

- `Main`, with its hard-coded 90-edge fixture and the `RunNSGAII(20, 1000)` call, is configuration data. The fixture has a candidate for every ordered pair of distinct nodes, which is the condition under which the model proves the run never fails.
- `DisplaySolution` and the final printing loop of `RunNSGAII` are console output. `RunNsgaII` returns the final population instead.
- `System.Random` is replaced by explicit draws. A keep-mask entry past the end counts as "drop". The draws of one child are grouped in `ChildDraws` and drawn before its mutation; the program interleaves them differently, which changes which random values go where but not what can happen. No probabilistic or convergence claims are made.
- Floating point: weights are natural numbers, not doubles (the fixture's weights become integers after scaling by ten). `double.MaxValue` becomes `Inf`. A row sum that meets `double.MaxValue` is near `double.MaxValue` or `+Infinity` in the program and `Inf` in the model. Every evaluated member is strongly connected, so its total is finite either way.
- The `SortedSet` is modelled as a set of pairs with least-pair extraction, not as a balanced tree.
- FindSccs: its contract fixes the components (each exactly one equivalence class of mutual reachability) but not the order in which the second pass lists them, nor the order of the nodes within each. The repair's bridges are placed by that order. So when a mutation's removal draw lands among the bridges, which edge it removes is pinned only relative to the listed components, and so are the objectives and survivors that follow.
- Recursion depth and stack overflow in `DFS`/`ReverseDFS` are not modelled.
- The unused `parent` array in `EnsureConnectivity` is not modelled.
- The namespace mismatch between the two files is ignored. Both files are treated as one program.
- `adj`/`transpose` are sequence values built by the same loop, not arrays of lists. The `Stack<int>` and the `component` list are threaded through `Dfs`/`ReverseDfs` as values. Each has a single owner in the program, so no aliasing is lost.
- Some loops are split out as methods:
  - the second pass of `FindSCCs` (`Scc.CollectComponents`);
  - the edge loop of `GetShortestPath` (`ShortestPath.RelaxOutgoing`);
  - the inner loop of `EnsureConnectivity` (`Evolution.BridgesFrom`);
  - the initial loop of `RunNSGAII` (`Evolution.InitialPopulation`);
  - the generation loop of `RunNSGAII` (`Evolution.Evolve`, one round per `Evolution.Advance`);
  - the generation body (`Evolution.Breed`, `Evolution.MutateAndEvaluate`, `Evolution.NextGeneration`), with one child at a time in `Evolution.BreedChild` and `Evolution.MutateChild`.
- EnsureConnectivity: it returns the extended list instead of appending to the caller's list in place. Callers store the result.
- Mutate: when the repair throws, the model leaves the edges after the removal. It does not keep the bridges the program appended before the exception.
- Edge identity is value equality. The program compares `Edge` objects by reference (`Union`, `Remove`). The two agree while the candidate list holds no two equal-valued edges, as in the fixture.
- GetShortestPath, FindSccs and EnsureConnectivity require every edge endpoint to be a node (and, for `GetShortestPath`, `start` to be one). Every caller in the program passes edge lists drawn from the candidates, which meet this. What the program does with other lists is not modelled: some throw, but `GetShortestPath` only reads `distances[edge.To]` for edges leaving a node it has reached, so an out-of-range edge elsewhere goes unnoticed.
- CreateRandomSolution, Crossover, Mutate and Breed require the candidate edges to lie within the nodes and the parents' edges to be candidates. Every solution the search builds meets this.
- NextGeneration and RunNsgaII take one draw per child; the draw lists' lengths are preconditions.

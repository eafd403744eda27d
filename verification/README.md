# Attachment-kernel estimation and spanning forests, modelled in Dafny

This project models two parts of igraph's C core.

**The evolver estimator** (`src/evolver.c`). It fits a nonparametric
attachment kernel to a growing citation network: node `t` arrives at time `t`
and cites only earlier nodes. Every node is put into a class: its in-degree
(the `_d` variant), or the cell of its in-degree and age bin (the `_ad`
variant). Age bins have width `n / agebins + 1`, and a cell's flat index is
column-major. Each variant has five parts:

- The **measure pass** keeps a Welford mean and M2 per class. It also keeps
  deferred normalisation factors: checkpoints `ch` that are settled when a
  class empties or at the end of the pass.
- The **structural-sum recurrence** `st`.
- The **expected-citation integrator**, which runs on the clock `cumst` and
  uses checkpoints per class.
- The **likelihood replay**.
- A **driver** of `niter` rounds of measure, normalise and structural sum.
  Only its last round reports deviations, factors, counts, expected
  citations and likelihood terms.

For each pass there is a reference definition in `History`, stated as an
eager sum over the timeline of classes. A method replays the source's
incremental loops over `seq` state and proves that it computes that
reference.

**The spanning forests** (`src/spanning_trees.c`):

- the breadth-first forest of an unweighted graph;
- Prim's method with a heap of edges, prioritised by negated weight;
- the dispatcher between the two.

Each returns edge ids. The result is proved to be a spanning forest:

- it grows edge by edge, each edge bringing in a vertex no earlier edge
  touches;
- it contains no self-loops;
- it has `n` minus the number of components edges;
- it connects the two ends of every edge of the graph.

With weights, Prim's forest is also proved to be a minimum spanning forest:
no spanning forest of the graph has a smaller total weight. Here a spanning
forest is any list of distinct edge ids, in any order, that has `n` minus the
number of components edges and joins the ends of every edge. The proof has
two halves. First, every edge Prim's method emits is a lightest edge leaving
the vertex set of the tree it grows. This follows from the heap: every such
edge waits in it with its negated weight as priority. Second, the cut
property (`Optimal`) shows that any spanning forest can be traded, one edge
at a time, into a forest with that greedy property without getting heavier.
Acyclicity there is counted rather than traced along paths: a spanning
forest has exactly `n` minus the number of components edges, so each of its
edges is a bridge.

Modules:

- `Counting`: class counts and weighted sums.
- `Growing`: the citation graph as out-neighbour lists, and in-degrees over time.
- `Welford`: the running mean and M2, and finalisation.
- `History`: the timeline of classes and the reference definitions of every pass.
- `Trackers`: the deferred normalisation factors and the exposure meter.
- `Clock`: the cumulative clock `cumst`.
- `Degree` and `Age`: the two variants' passes.
- `Fit`: the drivers.
- `Forest`: connectivity, components and the spanning-forest predicate.
- `Optimal`: total weights, the cut property, and why greedy spanning forests are minimum.
- `Unweighted`: the breadth-first forest.
- `Prim`: Prim's method.
- `Spanning`: the dispatcher.

Time indexing of the age variant. The source's `mes_ad` and `error_ad` loops
run over `node = 0 .. n-2` and process node `node + 1`, after placing node 0
by hand. The model processes node `t` at time `t` for every `t`, reading
`st[t-1]`. Node 0 is given no special case: it enters cell (0, 0) and then
ages by the general aging step. `Age.FirstCell` and `Age.FirstSum` prove
that this places it where the source's initialisation does.

The expected-citation pass weights time step `s` by `outdeg(s) / st[s]` and
uses the class sizes after node `s` has cited, exactly as the source does.
With that weighting the expected counts still add up to the number of edges
(`History.ExpectedConservation`).

## Model

| member | source | states |
|---|---|---|
| Degree.HistDTimeline | src/evolver.c:113-115 | in-degree classes: every node present at a time step has a class, and with `maxind` at least the largest in-degree every class is one of `maxind + 1` |
| Degree.MeasureD | src/evolver.c:105-233 | the measure pass returns, per in-degree class, the mean of its samples times notnull/normfact, the padded squared deviation, the normalisation factor and the number of observed citations, all as defined eagerly over the timeline |
| Degree.SampleNodeD | src/evolver.c:161-175 | the estimate loop folds each citation's sample `st[t-1] / ntk[class]`, read off the classes as they stood before node `t` cited, into its class's running statistics |
| Degree.CountNodeD | src/evolver.c:177-196 | the update loop moves each cited node up one class, then adds the new node to class 0; the counters stay the class counts, and the checkpoints keep each class's factor equal to the eager one |
| Degree.CiteOneD | src/evolver.c:179-192 | one citation moves the cited node from class `x` to `x + 1` and leaves every class's factor so far unchanged |
| Degree.StructuralD | src/evolver.c:235-273 | `st[t]` is the sum of the kernel over the in-degree classes of all nodes present after node `t` has cited |
| Degree.StructuralNodeD | src/evolver.c:255-265 | one time step of the recurrence takes the structural sum of time `t` to that of time `t + 1` |
| Degree.WeighOneD | src/evolver.c:260-265 | one citation trades the cited node's kernel weight for that of the next class |
| Degree.ExpectedD | src/evolver.c:275-360 | the expected citations of each in-degree class are its kernel value times its size integrated over the clock `cumst` |
| Degree.ExposeNodeD | src/evolver.c:320-342 | the class changes of one node are settled on the checkpoints at that node's time step, without gaining or losing exposure |
| Degree.CiteExposeD | src/evolver.c:323-337 | the citations of one node keep every class's pending exposure as it was |
| Degree.CiteExposeOneD | src/evolver.c:324-336 | one citation settles the old and new classes before moving the cited node |
| Degree.LikelihoodD | src/evolver.c:362-424 | the likelihood replay yields one (prob, nullprob) pair per citation, in citation order, read off the classes before the citing node cites |
| Degree.NodeTermsD | src/evolver.c:394-404 | the terms of one node's citations |
| Degree.EdgeTermD | src/evolver.c:395-403 | the term of one citation: `kernel[x] * ntk[x] / st[t-1]` and `ntk[x] / t` |
| Degree.RecountNodeD | src/evolver.c:406-415 | the update loop of the replay keeps the counters equal to the class counts of the next time step |
| Degree.RecountOneD | src/evolver.c:407-414 | one citation of the replay moves one member from class `x` to `x + 1` |
| Age.CellBound | src/evolver.c:527-528 | every cell of a `rows x cols` matrix has a flat index below its size |
| Age.CellInjective | src/evolver.c:527-528 | distinct cells of the matrix have distinct flat indices |
| Age.BinWidth | src/evolver.c:516 | the bin width `n / agebins + 1` is at least 1 |
| Age.BinBound | src/evolver.c:516 | every age up to the node count falls in one of the `agebins` reported bins |
| Age.FirstBin | src/evolver.c:555-559 | age 1 is in bin 0 unless the bin width is 1, in which case it is in bin 1 |
| Age.HistADTimeline | src/evolver.c:514-528 | the in-degree and age cells form a timeline whose cells are all cells of the reported `(maxind + 1) x agebins` matrix |
| Age.AgeCellBound | src/evolver.c:569-570 | the cell of every present node is in the reported matrix |
| Age.AgingStep | src/evolver.c:604-616 | step `k` of the aging loop moves exactly the node of age `bw * k`, from bin `k - 1` to bin `k` |
| Age.AgingEnd | src/evolver.c:605 | once `bw * k` exceeds every age, the aging loop has reached the cells of the next time step |
| Age.AgingBound | src/evolver.c:697-702 | the aging loop never reaches beyond the last reported bin |
| Age.CitingBounds | src/evolver.c:584-598 | the cells a citation reads and writes are inside the matrices |
| Age.StructuralAD | src/evolver.c:658-711 | `st[t]` is the sum of the kernel over the cells of all nodes present after node `t` has cited and the nodes have aged |
| Age.FirstSum | src/evolver.c:673-677 | `st[0]` is the kernel at (0, 0), or at (0, 1) when the bin width is 1 |
| Age.StructuralNodeAD | src/evolver.c:683-702 | one time step of the recurrence: new node, citations, then aging |
| Age.CiteWeighAD | src/evolver.c:686-695 | the citations of one node on the structural sum |
| Age.AgeWeighAD | src/evolver.c:697-702 | the aging of one time step trades each aging node's cell weight for the next bin's |
| Age.MeasureAD | src/evolver.c:503-656 | the measure pass returns per cell what the in-degree variant returns per class, over the in-degree and age timeline |
| Age.SampleNodeAD | src/evolver.c:565-580 | the estimate loop folds each citation's sample into the cited node's cell |
| Age.CountNodeAD | src/evolver.c:582-616 | the update loop: citations, the new node, then aging; the counters stay the cell counts, and every factor stays the eager one |
| Age.CiteCountAD | src/evolver.c:584-598 | the citations of one node on the counters and checkpoints |
| Age.AgeCountAD | src/evolver.c:604-616 | the aging of one time step on the counters and checkpoints |
| Age.ExpectedAD | src/evolver.c:713-817 | the expected citations of each cell are its kernel value times its size integrated over the clock |
| Age.ExposeNodeAD | src/evolver.c:760-796 | the cell changes of one node are settled at that node's time step |
| Age.AgeExposeAD | src/evolver.c:784-796 | the aging of one time step on the exposure meter |
| Age.LikelihoodAD | src/evolver.c:819-901 | the likelihood replay yields one (prob, nullprob) pair per citation over the in-degree and age timeline |
| Age.FirstCell | src/evolver.c:844-848 | node 0 alone sits in cell (0, 0), or (0, 1) when the bin width is 1, and nothing has been cited |
| Age.NodeTermsAD | src/evolver.c:860-872 | the terms of one node's citations, read off the cells before it cites |
| Age.EdgeTermAD | src/evolver.c:862-868 | the term of one citation in the age variant |
| Age.AgeRecountAD | src/evolver.c:885-891 | the aging of one time step on the replay's counters |
| Fit.FitD | src/evolver.c:33-103 | the in-degree driver: `st` starts at all ones, and it runs exactly `niter` rounds; only the last reports deviations, factors, counts, the expected citations (when asked for) and the likelihood terms (when asked for) |
| Fit.FitAD | src/evolver.c:430-501 | the same for the in-degree and age driver |
| Fit.RoundD | src/evolver.c:62-72 | one round: measure, normalise the kernel to unit sum, recompute `st`; a kernel summing to zero cannot be normalised |
| Fit.RoundsD | src/evolver.c:58-72 | the first `niter - 1` rounds run from a structural sum of all ones |
| Fit.LastRoundD | src/evolver.c:73-95 | the last round of the in-degree driver |
| Fit.ExpectedOnRequestD | src/evolver.c:84-88 | expected citations are computed only when asked for |
| Fit.TermsOnRequestD | src/evolver.c:90-94 | likelihood terms are computed only when asked for |
| Fit.RoundAD | src/evolver.c:460-470 | one round of the in-degree and age driver |
| Fit.RoundsAD | src/evolver.c:456-470 | the first rounds of the in-degree and age driver |
| Fit.LastRoundAD | src/evolver.c:471-493 | the last round of the in-degree and age driver |
| Fit.ExpectedOnRequestAD | src/evolver.c:482-486 | expected citations of the age variant only when asked for |
| Fit.TermsOnRequestAD | src/evolver.c:488-492 | likelihood terms of the age variant only when asked for |
| Fit.NormaliseSum | src/evolver.c:69 | after normalisation the kernel sums to one |
| Fit.EmptyKernel | src/evolver.c:157-216 | with no nodes every kernel entry is zero, so the kernel cannot be normalised |
| Fit.FitRefFits | src/evolver.c:58-97 | the reference fit keeps every promise of the driver |
| Fit.LastRefRound | src/evolver.c:73-95 | the last round fails exactly when its kernel sums to zero, and otherwise keeps the promises of a last round |
| Fit.LastRefKernel | src/evolver.c:75-82 | the last round's kernel is the measured kernel scaled to unit sum, and its `st` is that kernel's structural sum |
| Fit.LastRefEstimate | src/evolver.c:75-76 | apart from the normalised kernel, the last round reports what the measure pass does |
| Fit.LastRefExpected | src/evolver.c:84-88 | the expected citations are reported exactly when asked for and every `st` is nonzero, and they add up to the number of edges |
| Fit.SettleStuck | src/evolver.c:58-72 | once a round meets a kernel summing to zero, every later round count fails too |
| History.EdgeClassOccupied | src/evolver.c:165-167 | the class of a cited node has between 1 and `t` members, so the division at line 167 never divides by zero |
| History.SamplesWithinNormFact | src/evolver.c:169-204 | the observed citations of a class never exceed its normalisation factor |
| History.ReportEstimates | src/evolver.c:199-216 | finalising the running statistics of each class against its eager factor yields the measure pass's result |
| History.StructuralSumNonnegative | src/evolver.c:249-265 | a nonnegative kernel gives a nonnegative structural sum |
| History.CumStMonotone | src/evolver.c:303-308 | with positive structural sums the cumulative clock never decreases |
| History.StepCitations | src/evolver.c:303-343 | one time step adds exactly that node's citations to the kernel-weighted exposure |
| History.WeightedExposureCounts | src/evolver.c:303-350 | the kernel-weighted exposure up to time `t` is the number of citations made so far |
| History.ExpectedConservation | src/evolver.c:345-350 | the expected citations of all classes add up to the number of edges |
| History.TermsCount | src/evolver.c:395-404 | there is one likelihood term per citation |
| History.UniformInRange | src/evolver.c:400 | the null-model probability `ntk[x] / node` lies in (0, 1] |
| History.FittedMassOne | src/evolver.c:399 | under the structural-sum recurrence the fitted probabilities of all classes at a time step add up to one |
| Welford.FoldStats | src/evolver.c:168-173 | Welford's update yields the sample size, the sample mean and the sum of squared deviations about it |
| Welford.PushKeepsMoments | src/evolver.c:169-172 | one update keeps the running state in moment form |
| Welford.FinaliseStats | src/evolver.c:199-214 | finalisation yields notnull, a factor of at least 1 and at least notnull, the kernel `sum / normfact`, and the squared deviation of the samples padded with zeros to the factor |
| Welford.FinaliseEmpty | src/evolver.c:205-208 | a class never observed gets kernel 0 and squared deviation 0 |
| Welford.SqDevZeros | src/evolver.c:212-213 | padding the sample with `k` zeros adds `k * c * c` to the squared deviation about `c` |
| Counting.CountsTotal | src/evolver.c:183-193 | the class counts add up to the number of present nodes |
| Counting.CountsMove | src/evolver.c:184-188 | moving one key from class `x` to class `y` takes one from `x` and adds one to `y` |
| Counting.WeighByClass | src/evolver.c:249-265 | the kernel summed over the present nodes equals the kernel dotted with the class counts |
| Counting.WeighNonnegative | src/evolver.c:249-265 | a nonnegative kernel summed over any nodes is nonnegative |
| Growing.NewcomerUncited | src/evolver.c:193 | a node has in-degree 0 when it arrives |
| Growing.FlatBound | src/evolver.c:55-56 | no in-degree ever exceeds the final maximum in-degree |
| Growing.CitedBound | src/evolver.c:188 | while a node cites, no in-degree exceeds the maximum, so `ntk[x + 1]` stays in range |
| Trackers.LeaveKeeps | src/evolver.c:184-187 | a member leaving a class that then empties closes its open stretch without changing any class's factor so far |
| Trackers.EnterKeeps | src/evolver.c:188-191 | a member entering an empty class opens a stretch at the current edge count without changing any factor so far |
| Trackers.AdvanceAdds | src/evolver.c:178 | counting a node's citations adds them to the factor of every non-empty class and to no other |
| Trackers.MeterLeaveKeeps | src/evolver.c:328-331 | settling a class before a member leaves it neither adds nor loses exposure |
| Trackers.MeterEnterKeeps | src/evolver.c:333-336 | settling a class before a member enters it neither adds nor loses exposure |
| Trackers.MeterTicks | src/evolver.c:329-330 | as the clock moves one step, every class gains its size times the step's length |
| Clock.CumulativeSt | src/evolver.c:303-308 | `cumst[i]` is the cumulative sum of `outdeg(s) / st[s]` over the steps before `i` |
| Clock.TickTracks | src/evolver.c:316-343 | once the class sizes reach those of the next step, the meter tracks the exposure through the step |
| Clock.Expect | src/evolver.c:345-350 | the completed exposures times the kernel are the expected citations |
| Forest.Across | src/spanning_trees.c:245 | the endpoint across from `v` is an endpoint, and equals `v` exactly for a self-loop |
| Forest.Incident | src/spanning_trees.c:238-239 | the incident edge ids of a vertex are exactly the edges that touch it |
| Forest.LeadShared | src/spanning_trees.c:236-254 | connected vertices share their component's root |
| Forest.GrowsDistinct | src/spanning_trees.c:242-249 | no edge id occurs twice in a growing forest |
| Forest.ForestSize | src/spanning_trees.c:246-249 | a forest without self-loops on `n` vertices has fewer than `n` edges |
| Forest.BetweenSkip | src/spanning_trees.c:230 | a vertex already visited by an earlier tree is skipped without breaking the outer-loop invariant |
| Forest.BetweenPlant | src/spanning_trees.c:234-235 | an unvisited vertex is the root of its component and starts a new tree |
| Forest.EmitAcross | src/spanning_trees.c:246-249 | emitting an edge into an unvisited vertex keeps the forest growing, loop-free and connected to the root |
| Forest.TreeDone | src/spanning_trees.c:236-254 | a tree whose visited set is closed under the edges is the whole component of its root |
| Forest.BetweenDone | src/spanning_trees.c:229-255 | after the outer loop the emitted edges form a spanning forest |
| Unweighted.Bfs | src/spanning_trees.c:202-264 | the breadth-first forest is a spanning forest of the graph |
| Unweighted.GrowTree | src/spanning_trees.c:236-254 | the queue loop visits the whole component of its root |
| Unweighted.Visit | src/spanning_trees.c:237-253 | after all edges of the popped vertex are looked at, their far ends are visited |
| Unweighted.VisitEdge | src/spanning_trees.c:241-252 | an edge not emitted before, whose far end is unvisited, is emitted and its far end visited and queued |
| Unweighted.FrontierRelease | src/spanning_trees.c:240-253 | a vertex all of whose edges lead to visited vertices leaves the frontier |
| Unweighted.QueueStart | src/spanning_trees.c:234-235 | a new root starts a queue holding only itself |
| Prim.PrimForest | src/spanning_trees.c:266-366 | Prim's method returns a spanning forest, and with weights one of least total weight among all spanning forests; without weights it falls back to the breadth-first forest, and a weight vector whose length is not the edge count is refused with EINVAL |
| Prim.PrimTrees | src/spanning_trees.c:304-357 | the outer loop over the vertices gives a spanning forest each of whose edges was a lightest edge leaving its tree when emitted |
| Prim.PrimTree | src/spanning_trees.c:305-356 | an unvisited vertex roots a tree that grows into its whole component, by lightest edges leaving the tree |
| Prim.GrowPrim | src/spanning_trees.c:323-356 | the pop loop completes the tree of the root and emits only lightest edges leaving the tree |
| Prim.PopEdge | src/spanning_trees.c:324-355 | popping the top entry either emits its edge and visits the far end or drops it; each pop visits a vertex or shrinks the heap; the visited part of the component stays the tree's vertex set, and every priority stays the negated weight |
| Prim.PushIncident | src/spanning_trees.c:342-353 | after the edges of a newly visited vertex are pushed, every edge from it to an unvisited vertex waits in the heap, with its negated weight as priority |
| Prim.GreedyEmit | src/spanning_trees.c:327-340 | the emitted top entry crosses the cut of the tree and weighs no more than any edge across it |
| Prim.MarkedStart | src/spanning_trees.c:308 | a new root is the whole vertex set of its tree |
| Prim.MarkedEmit | src/spanning_trees.c:335-338 | emitting an edge adds its far end to the tree's vertex set |
| Prim.CutIsVisited | src/spanning_trees.c:335-338 | the cut of the edge being emitted is the visited part of its component |
| Prim.GreedyExtend | src/spanning_trees.c:338 | appending an edge leaves the cuts, and the greedy choice, of the edges before it alone |
| Prim.PrioritisedRemove | src/spanning_trees.c:331 | deleting the top keeps every priority the negated weight of its edge |
| Optimal.GreedyMinimal | src/spanning_trees.c:38-55 | a spanning forest whose every edge was a lightest edge across its cut weighs no more than any spanning forest, in whatever edge order |
| Optimal.GreedyBelow | src/spanning_trees.c:38-55 | any spanning forest, given as distinct edge ids in any order, weighs at least as much as a greedy one |
| Optimal.SpanningForestlike | src/spanning_trees.c:51-54 | a spanning forest grown edge by edge is one of the order-free spanning forests that minimality is stated against |
| Optimal.ExchangeStep | src/spanning_trees.c:38-55 | the cut property: a spanning forest holding the greedy edges before `res[k]` trades one edge for `res[k]` and keeps the earlier ones without getting heavier |
| Optimal.ExchangeSpans | src/spanning_trees.c:38-55 | trading a bridge for an edge joining its two sides leaves a spanning forest of the same size |
| Optimal.Bridge | src/spanning_trees.c:51-54 | removing any edge of a spanning forest disconnects its endpoints |
| Optimal.FindCrossingBridge | src/spanning_trees.c:51-54 | a spanning forest joining a vertex inside a cut to one outside has an edge across the cut whose removal parts them |
| Optimal.RootsLower | src/spanning_trees.c:51-54 | any edge list on `n` vertices has at least `n` edges and components together |
| Optimal.RootsMerge | src/spanning_trees.c:51-54 | one more edge merges at most two components |
| Optimal.ReachSplit | src/spanning_trees.c:51-54 | what one more edge connects is what was connected or two vertices joined to its two ends |
| Optimal.SameWeight | src/spanning_trees.c:38-55 | two edge lists without repeats, one inside the other and of one length, weigh the same |
| Optimal.WithoutWeight | src/spanning_trees.c:38-55 | dropping an edge takes exactly its weight off the total |
| Prim.PushEntry | src/spanning_trees.c:350-351 | one push appends the entry with the negated weight as priority |
| Prim.NeighbourIsAcross | src/spanning_trees.c:316 | the neighbour computed for an edge of `v` is the far end of the edge |
| Prim.TopBelow | src/spanning_trees.c:327 | the entry taken from the heap has the greatest priority among the entries |
| Prim.Top | src/spanning_trees.c:327 | the heap yields an entry of greatest priority |
| Prim.Remove | src/spanning_trees.c:331 | deleting the top keeps every other entry in order |
| Prim.HeapStart | src/spanning_trees.c:308-321 | a new root starts with an empty heap and its own edges still to push |
| Prim.PopSkip | src/spanning_trees.c:333-337 | popping an entry whose far end is already visited drops it and keeps the invariant |
| Prim.PopEmit | src/spanning_trees.c:335-340 | popping an entry whose far end is unvisited emits its edge and visits that end |
| Prim.HeapDone | src/spanning_trees.c:323-356 | an empty heap means the tree of its root is complete |
| Spanning.MinimumSpanningTree | src/spanning_trees.c:78-85 | the dispatcher takes the breadth-first forest without weights and Prim's method otherwise, with the same success condition and spanning-forest result, of least total weight when weights are given |

## Left out

- Prim.TopBelow: igraph's indexed heap may break ties between equal priorities differently. The model takes the first entry of greatest priority. The minimality proof uses only that the entry's priority is greatest, so it holds for any tie-break; which of several minimum forests is returned may differ.
- Minimality is stated only for weighted calls. Without weights the breadth-first forest is returned, and every spanning forest has the same number of edges.
- The incident-edge query is modelled as the edge ids touching a vertex in increasing id order, each listed once. The igraph query's order, and its listing of a self-loop twice, are not modelled. A self-loop is never emitted either way, because its far end is already visited. The order can change which spanning forest is emitted. Only properties that hold for every order are claimed: the result is a spanning forest, and with weights a minimum one.
- Graph storage is represented by out-neighbour lists (the citation graph) and an edge list (the undirected graph). The neighbour, degree, maximum-degree and edge queries are pure functions of these.
- The square root of the deviation (src/evolver.c:214, 636) and its division by `normfact - 1` are not modelled. The model reports the sum of squared deviations before that step, which is undefined when the factor is 1.
- The logarithms of the likelihood (src/evolver.c:402-403, 870-871) are not modelled. The model returns the list of their arguments, one `(prob, nullprob)` pair per citation. The two log-sums are the sums of the logarithms of these.
- Floating point is replaced by exact reals. A kernel that sums to zero would give an infinite reciprocal at the normalisation step. The model reports this as `Unnormalisable` and stops. A zero structural sum would make the expected-count or likelihood pass divide by zero; the model skips that pass.
- Degree.MeasureD: assumes a well-formed graph in which every node cites only earlier nodes, so node 0 cites nothing. Otherwise `st[node-1]` would read index -1.
- Degree.StructuralD: requires at least one node. The source writes `st[0]` without checking that the graph is nonempty.
- Age.StructuralAD: requires at least one node and `agebins >= 1`. The source writes `st[0]` and divides by `agebins` without checking either.
- Interruption checks, the cleanup stack and allocation failures are not modelled. Neither are the error codes they propagate.
- Vector and matrix resizing is not modelled. Optional output pointers are modelled as flags (`wantExpected`, `wantError`). Deviations, factors and counts are always reported.
- The unused debug and debug-result parameters are not modelled.
- The graph-object wrappers at src/spanning_trees.c:123-199 only extract a subgraph from the edge ids and are not modelled.
- src/scg_headers.h holds declarations only and is not part of this model.

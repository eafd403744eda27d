/** The in-degree variant of the attachment-kernel estimator
    (`igraph_evolver_d` and its passes): the probability that a new edge
    cites a node depends only on the node's current in-degree.  The classes
    are the in-degrees 0 .. maxind. */
module Degree {
  import opened Counting
  import opened Growing
  import opened Welford
  import opened History
  import opened Trackers
  import opened Clock

  /** The in-degree of every node below `t` once the nodes below `t` have cited. */
  function InDegrees(g: Graph, t: nat): (r: seq<nat>)
    requires t <= |g|
    ensures |r| == t
    ensures forall v :: 0 <= v < t ==> r[v] == Count(Flat(g, t), v)
  {
    seq(t, v requires 0 <= v < t => Count(Flat(g, t), v))
  }

  /** The in-degree timeline: at time `t` each present node is classed by its
      in-degree. */
  function HistD(g: Graph): (hist: seq<seq<nat>>)
    ensures |hist| == |g| + 1
    ensures forall t :: 0 <= t <= |g| ==> hist[t] == InDegrees(g, t)
  {
    seq(|g| + 1, t requires 0 <= t <= |g| => InDegrees(g, t))
  }

  /** The in-degree timeline is a timeline, and with `maxind` at least the
      largest in-degree every class is one of the `maxind + 1` classes. */
  lemma HistDTimeline(g: Graph, maxind: nat)
    requires WellFormed(g) && maxind >= MaxInDeg(g)
    ensures Timeline(g, HistD(g))
    ensures Keyed(HistD(g), maxind + 1)
  {
    forall t | 0 <= t <= |g|
      ensures Below(HistD(g)[t], maxind + 1)
    {
      forall v | 0 <= v < t
        ensures HistD(g)[t][v] < maxind + 1
      {
        FlatBound(g, t, v);
      }
    }
  }

  /** The running in-degrees agree with the timeline at time `t`. */
  lemma InDegreesAt(g: Graph, indegree: seq<nat>, t: nat)
    requires t <= |g| == |indegree|
    requires forall v :: 0 <= v < |g| ==> indegree[v] == Count(Flat(g, t), v)
    ensures indegree[..t] == HistD(g)[t]
  {
  }

  // ---------------------------------------------------------------------------
  // Measure pass (igraph_evolver_mes_d)
  // ---------------------------------------------------------------------------

  /** The counters of the measure pass before node `node` is processed: the
      running in-degrees, the class sizes of the timeline and the
      normalisation factors so far. */
  predicate CountState(g: Graph, maxind: nat, node: nat, indegree: seq<nat>, tr: Tracker)
    requires WellFormed(g) && maxind >= MaxInDeg(g)
  {
    var classes := maxind + 1;
    && node <= |g|
    && |indegree| == |g|
    && (forall v :: 0 <= v < |g| ==> indegree[v] == Count(Flat(g, node), v))
    && Sane(tr) && |tr.ntk| == classes && |tr.normfact| == classes
    && tr.edges == |Flat(g, node)|
    && tr.ntk == Counts(HistD(g)[node], classes)
    && (HistDTimeline(g, maxind);
        forall c :: 0 <= c < classes ==> Closed(tr, c) == NormFact(g, HistD(g), node, c))
  }

  /** The running statistics before node `node` is processed. */
  predicate StatsState(g: Graph, st: seq<real>, maxind: nat, node: nat, stats: seq<Running>)
    requires WellFormed(g) && |st| == |g| && maxind >= MaxInDeg(g) && node <= |g|
  {
    && |stats| == maxind + 1
    && (HistDTimeline(g, maxind);
        forall c :: 0 <= c < maxind + 1 ==> stats[c] == Fold(Samples(g, st, HistD(g), node, c)))
  }

  /** The measure pass: for every in-degree class, the mean over the
      possible citations of the structural sum shared out among the class's
      members, with the squared deviation, the normalisation factor and the
      number of observed citations. */
  method MeasureD(g: Graph, st: seq<real>, maxind: nat) returns (e: Estimate)
    requires WellFormed(g) && |st| == |g| && maxind >= MaxInDeg(g)
    ensures Estimates(g, st, HistD(g), maxind + 1, e)
  {
    var classes := maxind + 1;
    HistDTimeline(g, maxind);
    var indegree: seq<nat> := seq(|g|, _ => 0);
    var tr := Empty(classes, classes);
    var stats: seq<Running> := seq(classes, _ => Fresh);
    assert HistD(g)[0] == [];
    forall c | 0 <= c < classes
      ensures Counts(HistD(g)[0], classes)[c] == 0
    {
    }
    var node := 0;
    while node < |g|
      invariant CountState(g, maxind, node, indegree, tr)
      invariant StatsState(g, st, maxind, node, stats)
      decreases |g| - node
    {
      stats := SampleNodeD(g, st, maxind, node, indegree, tr, stats);
      indegree, tr := CountNodeD(g, maxind, node, indegree, tr);
      node := node + 1;
    }
    var nf := Finish(tr);
    e := Report(stats, nf, classes);
    ReportEstimates(g, st, HistD(g), classes, stats, nf);
  }

  /** The estimation loop of one node: every citation of node `node` folds the
      structural sum before the node arrived, divided by the size of the cited
      node's in-degree class, into that class's running statistics. */
  method SampleNodeD(g: Graph, st: seq<real>, maxind: nat, node: nat,
                     indegree: seq<nat>, tr: Tracker, stats: seq<Running>) returns (stats': seq<Running>)
    requires WellFormed(g) && |st| == |g| && maxind >= MaxInDeg(g)
    requires node < |g| && CountState(g, maxind, node, indegree, tr) && StatsState(g, st, maxind, node, stats)
    ensures StatsState(g, st, maxind, node + 1, stats')
  {
    ghost var hist := HistD(g);
    HistDTimeline(g, maxind);
    InDegreesAt(g, indegree, node);
    var neis := g[node];
    stats' := stats;
    forall c | 0 <= c < maxind + 1
      ensures stats'[c] == Fold(Samples(g, st, hist, node, c) + NodeSamples(g, st, hist, node, 0, c))
    {
      SamplesStart(g, st, hist, node, c);
    }
    var i := 0;
    while i < |neis|
      invariant i <= |neis| && |stats'| == maxind + 1
      invariant forall c :: 0 <= c < maxind + 1 ==>
        stats'[c] == Fold(Samples(g, st, hist, node, c) + NodeSamples(g, st, hist, node, i, c))
    {
      var to := neis[i];
      var xidx := indegree[to];
      assert xidx == EdgeClass(g, hist, node, i);
      EdgeClassOccupied(g, hist, node, i);
      var xk := st[node - 1] / (tr.ntk[xidx] as real);
      PushSample(g, st, hist, node, i, stats');
      stats' := stats'[xidx := Push(stats'[xidx], xk)];
      i := i + 1;
    }
    forall c | 0 <= c < maxind + 1
      ensures stats'[c] == Fold(Samples(g, st, hist, node + 1, c))
    {
      SamplesNext(g, st, hist, node, c);
    }
  }

  /** The update loop of one node: each citation moves the cited node up one
      in-degree class, then the node itself joins class 0. */
  method CountNodeD(g: Graph, maxind: nat, node: nat, indegree: seq<nat>, tr: Tracker)
    returns (indegree': seq<nat>, tr': Tracker)
    requires WellFormed(g) && maxind >= MaxInDeg(g) && node < |g|
    requires CountState(g, maxind, node, indegree, tr)
    ensures CountState(g, maxind, node + 1, indegree', tr')
  {
    var classes := maxind + 1;
    ghost var hist := HistD(g);
    HistDTimeline(g, maxind);
    InDegreesAt(g, indegree, node);
    var neis := g[node];
    AdvanceAdds(tr, |neis|);
    tr' := Advance(tr, |neis|);
    indegree' := indegree;
    CitedAll(g, node);
    var i := 0;
    while i < |neis|
      invariant i <= |neis| && |indegree'| == |g|
      invariant forall v :: 0 <= v < |g| ==> indegree'[v] == Count(Cited(g, node, i), v)
      invariant Sane(tr') && |tr'.ntk| == classes && |tr'.normfact| == classes
      invariant tr'.edges == |Flat(g, node + 1)|
      invariant Below(indegree'[..node], classes) && tr'.ntk == Counts(indegree'[..node], classes)
      invariant forall c :: 0 <= c < classes ==> Closed(tr', c) == NormFact(g, hist, node + 1, c)
    {
      indegree', tr' := CiteOneD(g, maxind, node, i, indegree', tr');
      i := i + 1;
    }
    NewcomerUncited(g, node);
    ghost var keys := indegree'[..node];
    ArriveKeeps(tr', keys, 0);
    tr' := Enter(tr', 0);
    assert indegree'[..node + 1] == keys + [0];
    InDegreesAt(g, indegree', node + 1);
  }

  /** The `i`-th citation of node `node` on the tracker: the cited node moves
      one class up and every factor closed so far stays as it was. */
  method CiteOneD(g: Graph, maxind: nat, node: nat, i: nat, indegree: seq<nat>, tr: Tracker)
    returns (indegree': seq<nat>, tr': Tracker)
    requires WellFormed(g) && maxind >= MaxInDeg(g) && node < |g| && i < |g[node]| && |indegree| == |g|
    requires forall v :: 0 <= v < |g| ==> indegree[v] == Count(Cited(g, node, i), v)
    requires Sane(tr) && |tr.ntk| == maxind + 1 && |tr.normfact| == maxind + 1
    requires Below(indegree[..node], maxind + 1) && tr.ntk == Counts(indegree[..node], maxind + 1)
    ensures |indegree'| == |g| && forall v :: 0 <= v < |g| ==> indegree'[v] == Count(Cited(g, node, i + 1), v)
    ensures Sane(tr') && |tr'.ntk| == maxind + 1 && |tr'.normfact| == maxind + 1 && tr'.edges == tr.edges
    ensures Below(indegree'[..node], maxind + 1) && tr'.ntk == Counts(indegree'[..node], maxind + 1)
    ensures forall c :: 0 <= c < maxind + 1 ==> Closed(tr', c) == Closed(tr, c)
  {
    var to := g[node][i];
    ghost var next := CiteStep(g, node, i, indegree);
    var xidx := indegree[to];
    CitedBound(g, node, i, to);
    CitedBound(g, node, i + 1, to);
    CitedCount(g, node, i, to);
    ghost var keys := indegree[..node];
    MoveKeeps(tr, keys, to, xidx + 1);
    tr' := Move(tr, xidx, xidx + 1);
    indegree' := indegree[to := xidx + 1];
    assert indegree'[..node] == keys[to := xidx + 1];
  }

  // ---------------------------------------------------------------------------
  // Structural sum (igraph_evolver_st_d)
  // ---------------------------------------------------------------------------

  /** The structural sum: `st[t]` is the total kernel weight of the nodes
      present once node `t` has arrived and cited, kept up to date by adding
      the newcomer's weight and, for every citation, trading the cited node's
      old class weight for its new one. */
  method StructuralD(g: Graph, kernel: seq<real>) returns (st: seq<real>)
    requires WellFormed(g) && |g| >= 1 && |kernel| > MaxInDeg(g)
    ensures |st| == |g|
    ensures Keyed(HistD(g), |kernel|) && StructuralSum(kernel, HistD(g), st)
  {
    HistDTimeline(g, |kernel| - 1);
    var indegree: seq<nat> := seq(|g|, _ => 0);
    NewcomerUncited(g, 0);
    assert HistD(g)[1] == [] + [0];
    st := [kernel[0]];
    var node := 1;
    while node < |g|
      invariant 1 <= node <= |g| && |st| == node && |indegree| == |g|
      invariant forall v :: 0 <= v < |g| ==> indegree[v] == Count(Flat(g, node), v)
      invariant forall t :: 0 <= t < node ==> st[t] == Weigh(kernel, HistD(g)[t + 1])
      decreases |g| - node
    {
      var cur;
      cur, indegree := StructuralNodeD(g, kernel, node, indegree, st[node - 1]);
      st := st + [cur];
      node := node + 1;
    }
  }

  /** The structural sum after node `node`, from the one before it. */
  method StructuralNodeD(g: Graph, kernel: seq<real>, node: nat, indegree: seq<nat>, prev: real)
    returns (cur: real, indegree': seq<nat>)
    requires WellFormed(g) && 1 <= node < |g| && |kernel| > MaxInDeg(g) && |indegree| == |g|
    requires forall v :: 0 <= v < |g| ==> indegree[v] == Count(Flat(g, node), v)
    requires Keyed(HistD(g), |kernel|) && prev == Weigh(kernel, HistD(g)[node])
    ensures |indegree'| == |g|
    ensures forall v :: 0 <= v < |g| ==> indegree'[v] == Count(Flat(g, node + 1), v)
    ensures cur == Weigh(kernel, HistD(g)[node + 1])
  {
    InDegreesAt(g, indegree, node);
    CitedAll(g, node);
    CitedBelow(g, node, 0, node);
    WeighAppend(kernel, indegree[..node], 0);
    assert indegree[..node + 1] == indegree[..node] + [0];
    cur := prev + kernel[0];
    indegree' := indegree;
    var neis := g[node];
    var i := 0;
    while i < |neis|
      invariant i <= |neis| && |indegree'| == |g|
      invariant forall v :: 0 <= v < |g| ==> indegree'[v] == Count(Cited(g, node, i), v)
      invariant Below(indegree'[..node + 1], |kernel|)
      invariant cur == Weigh(kernel, indegree'[..node + 1])
    {
      cur, indegree' := WeighOneD(g, kernel, node, i, indegree', cur);
      i := i + 1;
    }
    InDegreesAt(g, indegree', node + 1);
  }

  /** The `i`-th citation of node `node` on the structural sum: the cited
      node's weight is traded for the next class's. */
  method WeighOneD(g: Graph, kernel: seq<real>, node: nat, i: nat, indegree: seq<nat>, prev: real)
    returns (cur: real, indegree': seq<nat>)
    requires WellFormed(g) && node < |g| && i < |g[node]| && |kernel| > MaxInDeg(g) && |indegree| == |g|
    requires forall v :: 0 <= v < |g| ==> indegree[v] == Count(Cited(g, node, i), v)
    requires Below(indegree[..node + 1], |kernel|) && prev == Weigh(kernel, indegree[..node + 1])
    ensures |indegree'| == |g|
    ensures forall v :: 0 <= v < |g| ==> indegree'[v] == Count(Cited(g, node, i + 1), v)
    ensures Below(indegree'[..node + 1], |kernel|) && cur == Weigh(kernel, indegree'[..node + 1])
  {
    var to := g[node][i];
    ghost var next := CiteStep(g, node, i, indegree);
    var xidx := indegree[to];
    CitedBound(g, node, i + 1, to);
    CitedCount(g, node, i, to);
    ghost var keys := indegree[..node + 1];
    WeighUpdate(kernel, keys, to, xidx + 1);
    indegree' := indegree[to := xidx + 1];
    assert indegree'[..node + 1] == keys[to := xidx + 1];
    cur := prev + (-kernel[xidx] + kernel[xidx + 1]);
  }

  // ---------------------------------------------------------------------------
  // Expected citations (igraph_evolver_exp_d)
  // ---------------------------------------------------------------------------

  /** The expected number of citations of every in-degree class: the kernel
      times the class's size integrated over the citation clock. */
  method ExpectedD(g: Graph, kernel: seq<real>, st: seq<real>, maxind: nat) returns (expected: seq<real>)
    requires WellFormed(g) && |st| == |g| && NonZero(st) && maxind >= MaxInDeg(g) && |kernel| > maxind
    ensures Timeline(g, HistD(g))
    ensures ExpectedCites(g, st, HistD(g), kernel[..maxind + 1], expected)
  {
    var classes := maxind + 1;
    HistDTimeline(g, maxind);
    ghost var hist := HistD(g);
    var cumst := CumulativeSt(g, st);
    var indegree: seq<nat> := seq(|g|, _ => 0);
    var m := Idle(classes);
    IdleTracks(g, st, hist, cumst, classes);
    assert hist[0] == [];
    var node := 0;
    while node < |g|
      invariant node <= |g| && |indegree| == |g|
      invariant forall v :: 0 <= v < |g| ==> indegree[v] == Count(Flat(g, node), v)
      invariant |m.ntk| == classes && m.ntk == Counts(hist[node], classes)
      invariant Tracks(g, st, hist, cumst, m, node)
      decreases |g| - node
    {
      indegree, m := ExposeNodeD(g, st, maxind, cumst, node, indegree, m);
      TickTracks(g, st, hist, cumst, m, node);
      node := node + 1;
    }
    expected := Expect(g, st, hist, cumst, m, kernel[..classes]);
  }

  /** The class changes of one node, each settled on the meter at the node's
      time step. */
  method ExposeNodeD(g: Graph, st: seq<real>, maxind: nat, cumst: seq<real>, node: nat,
                     indegree: seq<nat>, m: Meter) returns (indegree': seq<nat>, m': Meter)
    requires WellFormed(g) && |st| == |g| && NonZero(st) && maxind >= MaxInDeg(g) && node < |g|
    requires Readings(g, st, cumst) && |indegree| == |g|
    requires forall v :: 0 <= v < |g| ==> indegree[v] == Count(Flat(g, node), v)
    requires |m.ntk| == maxind + 1 && m.ntk == Counts(HistD(g)[node], maxind + 1)
    requires Timeline(g, HistD(g)) && Tracks(g, st, HistD(g), cumst, m, node)
    ensures |indegree'| == |g|
    ensures forall v :: 0 <= v < |g| ==> indegree'[v] == Count(Flat(g, node + 1), v)
    ensures |m'.ntk| == maxind + 1 && m'.ntk == Counts(HistD(g)[node + 1], maxind + 1)
    ensures Tracks(g, st, HistD(g), cumst, m', node)
  {
    HistDTimeline(g, maxind);
    InDegreesAt(g, indegree, node);
    indegree', m' := CiteExposeD(g, maxind, cumst, node, indegree, m);
    NewcomerUncited(g, node);
    ghost var keys := indegree'[..node];
    MeterArriveKeeps(m', cumst, node, keys, 0);
    m' := MeterEnter(m', cumst, node, 0);
    assert indegree'[..node + 1] == keys + [0];
    InDegreesAt(g, indegree', node + 1);
  }

  /** The citations of node `node` on the meter, leaving every class's pending
      exposure as it was. */
  method CiteExposeD(g: Graph, maxind: nat, cumst: seq<real>, node: nat, indegree: seq<nat>, m: Meter)
    returns (indegree': seq<nat>, m': Meter)
    requires WellFormed(g) && maxind >= MaxInDeg(g) && node < |g| && |indegree| == |g|
    requires forall v :: 0 <= v < |g| ==> indegree[v] == Count(Flat(g, node), v)
    requires Steady(m, node) && node < |cumst| && |m.ntk| == maxind + 1
    requires Below(indegree[..node], maxind + 1) && m.ntk == Counts(indegree[..node], maxind + 1)
    ensures |indegree'| == |g| && forall v :: 0 <= v < |g| ==> indegree'[v] == Count(Flat(g, node + 1), v)
    ensures Steady(m', node) && |m'.ntk| == maxind + 1
    ensures Below(indegree'[..node], maxind + 1) && m'.ntk == Counts(indegree'[..node], maxind + 1)
    ensures forall c :: 0 <= c < |m.ntk| ==> Pending(m', cumst, node, c) == Pending(m, cumst, node, c)
  {
    CitedAll(g, node);
    indegree' := indegree;
    m' := m;
    var neis := g[node];
    var i := 0;
    while i < |neis|
      invariant i <= |neis| && |indegree'| == |g|
      invariant forall v :: 0 <= v < |g| ==> indegree'[v] == Count(Cited(g, node, i), v)
      invariant Steady(m', node) && |m'.ntk| == maxind + 1
      invariant Below(indegree'[..node], maxind + 1) && m'.ntk == Counts(indegree'[..node], maxind + 1)
      invariant forall c :: 0 <= c < |m.ntk| ==> Pending(m', cumst, node, c) == Pending(m, cumst, node, c)
    {
      indegree', m' := CiteExposeOneD(g, maxind, cumst, node, i, indegree', m');
      i := i + 1;
    }
  }

  /** The `i`-th citation of node `node` on the meter: the cited node leaves
      its class for the next one up. */
  method CiteExposeOneD(g: Graph, maxind: nat, cumst: seq<real>, node: nat, i: nat, indegree: seq<nat>, m: Meter)
    returns (indegree': seq<nat>, m': Meter)
    requires WellFormed(g) && maxind >= MaxInDeg(g) && node < |g| && i < |g[node]| && |indegree| == |g|
    requires forall v :: 0 <= v < |g| ==> indegree[v] == Count(Cited(g, node, i), v)
    requires Steady(m, node) && node < |cumst| && |m.ntk| == maxind + 1
    requires Below(indegree[..node], maxind + 1) && m.ntk == Counts(indegree[..node], maxind + 1)
    ensures |indegree'| == |g| && forall v :: 0 <= v < |g| ==> indegree'[v] == Count(Cited(g, node, i + 1), v)
    ensures Steady(m', node) && |m'.ntk| == maxind + 1
    ensures Below(indegree'[..node], maxind + 1) && m'.ntk == Counts(indegree'[..node], maxind + 1)
    ensures forall c :: 0 <= c < |m.ntk| ==> Pending(m', cumst, node, c) == Pending(m, cumst, node, c)
  {
    var to := g[node][i];
    ghost var next := CiteStep(g, node, i, indegree);
    var xidx := indegree[to];
    CitedBound(g, node, i + 1, to);
    CitedCount(g, node, i, to);
    ghost var keys := indegree[..node];
    MeterMoveKeeps(m, cumst, node, keys, to, xidx + 1);
    m' := MeterMove(m, cumst, node, xidx, xidx + 1);
    indegree' := indegree[to := xidx + 1];
    assert indegree'[..node] == keys[to := xidx + 1];
  }

  // ---------------------------------------------------------------------------
  // Likelihood (igraph_evolver_error_d)
  // ---------------------------------------------------------------------------

  /** The arguments of the logarithms the likelihood pass sums, one pair per
      citation in citation order: the cited class's kernel times its size over
      the structural sum, and its size over the number of present nodes. */
  method LikelihoodD(g: Graph, kernel: seq<real>, st: seq<real>, maxind: nat) returns (terms: seq<Term>)
    requires WellFormed(g) && |st| == |g| && Divisible(g, st) && maxind >= MaxInDeg(g) && |kernel| > maxind
    ensures Timeline(g, HistD(g)) && Keyed(HistD(g), |kernel|)
    ensures terms == Terms(g, kernel, st, HistD(g), |g|)
  {
    var classes := maxind + 1;
    HistDTimeline(g, maxind);
    HistDTimeline(g, |kernel| - 1);
    var indegree: seq<nat> := seq(|g|, _ => 0);
    var ntk: seq<nat> := seq(classes, _ => 0);
    assert HistD(g)[0] == [];
    assert ntk == Counts(HistD(g)[0], classes);
    terms := [];
    var node := 0;
    while node < |g|
      invariant node <= |g| && |indegree| == |g|
      invariant forall v :: 0 <= v < |g| ==> indegree[v] == Count(Flat(g, node), v)
      invariant ntk == Counts(HistD(g)[node], classes)
      invariant terms == Terms(g, kernel, st, HistD(g), node)
      decreases |g| - node
    {
      var more := NodeTermsD(g, kernel, st, maxind, node, indegree, ntk);
      terms := terms + more;
      indegree, ntk := RecountNodeD(g, maxind, node, indegree, ntk);
      node := node + 1;
    }
  }

  /** The terms of the citations of one node, read off the class sizes before
      the node cites. */
  method NodeTermsD(g: Graph, kernel: seq<real>, st: seq<real>, maxind: nat, node: nat,
                    indegree: seq<nat>, ntk: seq<nat>) returns (more: seq<Term>)
    requires WellFormed(g) && |st| == |g| && Divisible(g, st) && maxind >= MaxInDeg(g) && |kernel| > maxind
    requires node < |g| && |indegree| == |g|
    requires forall v :: 0 <= v < |g| ==> indegree[v] == Count(Flat(g, node), v)
    requires ntk == Counts(HistD(g)[node], maxind + 1)
    ensures Timeline(g, HistD(g)) && Keyed(HistD(g), |kernel|)
    ensures more == NodeTerms(g, kernel, st, HistD(g), node, |g[node]|)
  {
    HistDTimeline(g, maxind);
    HistDTimeline(g, |kernel| - 1);
    InDegreesAt(g, indegree, node);
    var neis := g[node];
    more := [];
    var i := 0;
    while i < |neis|
      invariant i <= |neis| && more == NodeTerms(g, kernel, st, HistD(g), node, i)
    {
      var term := EdgeTermD(g, kernel, st, maxind, node, i, indegree, ntk);
      more := more + [term];
      i := i + 1;
    }
  }

  /** The term of edge `i` of node `node`, read off the counters at the cited
      node's in-degree. */
  method EdgeTermD(g: Graph, kernel: seq<real>, st: seq<real>, maxind: nat, node: nat, i: nat,
                   indegree: seq<nat>, ntk: seq<nat>) returns (term: Term)
    requires WellFormed(g) && |st| == |g| && Divisible(g, st) && maxind >= MaxInDeg(g) && |kernel| > maxind
    requires node < |g| && i < |g[node]| && |indegree| == |g|
    requires forall v :: 0 <= v < |g| ==> indegree[v] == Count(Flat(g, node), v)
    requires ntk == Counts(HistD(g)[node], maxind + 1)
    requires Timeline(g, HistD(g)) && Keyed(HistD(g), |kernel|)
    ensures term == EdgeTerm(g, kernel, st, HistD(g), node, i)
  {
    ghost var hist := HistD(g);
    var to := g[node][i];
    var xidx := indegree[to];
    FlatBound(g, node, to);
    assert hist[node] == InDegrees(g, node);
    assert xidx == EdgeClass(g, hist, node, i);
    var n: nat := ntk[xidx];
    EdgeTermOf(g, kernel, st, hist, node, i, xidx, n);
    term := Term(kernel[xidx] * (n as real) / st[node - 1], (n as real) / (node as real));
  }

  /** The class-size update of one node, without any bookkeeping. */
  method RecountNodeD(g: Graph, maxind: nat, node: nat, indegree: seq<nat>, ntk: seq<nat>)
    returns (indegree': seq<nat>, ntk': seq<nat>)
    requires WellFormed(g) && maxind >= MaxInDeg(g) && node < |g| && |indegree| == |g|
    requires forall v :: 0 <= v < |g| ==> indegree[v] == Count(Flat(g, node), v)
    requires ntk == Counts(HistD(g)[node], maxind + 1)
    ensures |indegree'| == |g|
    ensures forall v :: 0 <= v < |g| ==> indegree'[v] == Count(Flat(g, node + 1), v)
    ensures ntk' == Counts(HistD(g)[node + 1], maxind + 1)
  {
    var classes := maxind + 1;
    HistDTimeline(g, maxind);
    InDegreesAt(g, indegree, node);
    CitedAll(g, node);
    indegree' := indegree;
    ntk' := ntk;
    var neis := g[node];
    var i := 0;
    while i < |neis|
      invariant i <= |neis| && |indegree'| == |g|
      invariant forall v :: 0 <= v < |g| ==> indegree'[v] == Count(Cited(g, node, i), v)
      invariant Below(indegree'[..node], classes) && ntk' == Counts(indegree'[..node], classes)
    {
      indegree', ntk' := RecountOneD(g, maxind, node, i, indegree', ntk');
      i := i + 1;
    }
    NewcomerUncited(g, node);
    ghost var keys := indegree'[..node];
    CountsAppend(keys, 0, classes);
    ntk' := ntk'[0 := ntk'[0] + 1];
    assert indegree'[..node + 1] == keys + [0];
    InDegreesAt(g, indegree', node + 1);
  }

  /** The `i`-th citation of node `node` on the counters. */
  method RecountOneD(g: Graph, maxind: nat, node: nat, i: nat, indegree: seq<nat>, ntk: seq<nat>)
    returns (indegree': seq<nat>, ntk': seq<nat>)
    requires WellFormed(g) && maxind >= MaxInDeg(g) && node < |g| && i < |g[node]| && |indegree| == |g|
    requires forall v :: 0 <= v < |g| ==> indegree[v] == Count(Cited(g, node, i), v)
    requires Below(indegree[..node], maxind + 1) && ntk == Counts(indegree[..node], maxind + 1)
    ensures |indegree'| == |g| && forall v :: 0 <= v < |g| ==> indegree'[v] == Count(Cited(g, node, i + 1), v)
    ensures Below(indegree'[..node], maxind + 1) && ntk' == Counts(indegree'[..node], maxind + 1)
  {
    var to := g[node][i];
    ghost var next := CiteStep(g, node, i, indegree);
    var xidx := indegree[to];
    CitedBound(g, node, i + 1, to);
    CitedCount(g, node, i, to);
    ghost var keys := indegree[..node];
    CountsMove(keys, to, xidx + 1, maxind + 1);
    indegree' := indegree[to := xidx + 1];
    ntk' := ntk[xidx := ntk[xidx] - 1];
    ntk' := ntk'[xidx + 1 := ntk'[xidx + 1] + 1];
    assert indegree'[..node] == keys[to := xidx + 1];
  }
}

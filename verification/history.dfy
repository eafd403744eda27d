/** The estimator's reference quantities, stated once for any classification
    of the nodes.

    A timeline `hist` gives, for every time `t` from 0 to the node count, the
    class of each node present when node `t` arrives (`hist[t][v]` for
    `v < t`).  The in-degree variant classifies by in-degree, the
    in-degree-and-age variant by in-degree and age bin; both passes of the
    source are compared against the definitions below. */
module History {
  import opened Counting
  import opened Growing
  import opened Welford

  /** `hist` has one class list per time step, covering the nodes present then. */
  predicate Timeline(g: Graph, hist: seq<seq<nat>>)
  {
    && WellFormed(g)
    && |hist| == |g| + 1
    && forall t :: 0 <= t < |hist| ==> |hist[t]| == t
  }

  /** Every class on the timeline is below `classes`. */
  predicate Keyed(hist: seq<seq<nat>>, classes: nat)
  {
    forall t :: 0 <= t < |hist| ==> Below(hist[t], classes)
  }

  /** The class, at the time of citing, of the node cited by edge `i` of node `t`. */
  function EdgeClass(g: Graph, hist: seq<seq<nat>>, t: nat, i: nat): nat
    requires Timeline(g, hist) && t < |g| && i < |g[t]|
  {
    hist[t][g[t][i]]
  }

  /** The class of a cited node is never empty at the time of the citation. */
  lemma EdgeClassOccupied(g: Graph, hist: seq<seq<nat>>, t: nat, i: nat)
    requires Timeline(g, hist) && t < |g| && i < |g[t]|
    ensures 1 <= Count(hist[t], EdgeClass(g, hist, t, i)) <= t
  {
    CountPositive(hist[t], g[t][i]);
    CountAtMost(hist[t], EdgeClass(g, hist, t, i));
  }

  // ---------------------------------------------------------------------------
  // Measurement: samples and normalisation factors
  // ---------------------------------------------------------------------------

  /** The kernel sample of edge `i` of node `t`: the structural sum before node
      `t` arrived, shared out among the members of the cited node's class. */
  function Sample(g: Graph, st: seq<real>, hist: seq<seq<nat>>, t: nat, i: nat): real
    requires Timeline(g, hist) && |st| == |g| && t < |g| && i < |g[t]|
  {
    EdgeClassOccupied(g, hist, t, i);
    st[t - 1] / (Count(hist[t], EdgeClass(g, hist, t, i)) as real)
  }

  /** The samples of class `c` among the first `j` edges of node `t`, in order. */
  function NodeSamples(g: Graph, st: seq<real>, hist: seq<seq<nat>>, t: nat, j: nat, c: nat): seq<real>
    requires Timeline(g, hist) && |st| == |g| && t < |g| && j <= |g[t]|
  {
    if j == 0 then []
    else NodeSamples(g, st, hist, t, j - 1, c)
         + (if EdgeClass(g, hist, t, j - 1) == c then [Sample(g, st, hist, t, j - 1)] else [])
  }

  /** The samples of class `c` from every edge of the nodes below `t`, in order. */
  function Samples(g: Graph, st: seq<real>, hist: seq<seq<nat>>, t: nat, c: nat): seq<real>
    requires Timeline(g, hist) && |st| == |g| && t <= |g|
  {
    if t == 0 then []
    else Samples(g, st, hist, t - 1, c) + NodeSamples(g, st, hist, t - 1, |g[t - 1]|, c)
  }

  /** The number of citations made by the nodes below `t` while class `c` had a
      member, i.e. the citations that could have gone to class `c`. */
  function NormFact(g: Graph, hist: seq<seq<nat>>, t: nat, c: nat): nat
    requires Timeline(g, hist) && t <= |g|
  {
    if t == 0 then 0
    else NormFact(g, hist, t - 1, c) + (if Count(hist[t - 1], c) > 0 then |g[t - 1]| else 0)
  }

  /** A node's citations of one class are among its citations, and it has none
      of a class that was empty when it arrived. */
  lemma {:induction false} NodeSamplesBound(g: Graph, st: seq<real>, hist: seq<seq<nat>>, t: nat, j: nat, c: nat)
    requires Timeline(g, hist) && |st| == |g| && t < |g| && j <= |g[t]|
    ensures |NodeSamples(g, st, hist, t, j, c)| <= j
    ensures Count(hist[t], c) == 0 ==> |NodeSamples(g, st, hist, t, j, c)| == 0
    decreases j
  {
    if j > 0 {
      NodeSamplesBound(g, st, hist, t, j - 1, c);
      EdgeClassOccupied(g, hist, t, j - 1);
    }
  }

  /** Observed citations never exceed possible citations: the source's
      `notnull` is at most its `normfact`. */
  lemma {:induction false} SamplesWithinNormFact(g: Graph, st: seq<real>, hist: seq<seq<nat>>, t: nat, c: nat)
    requires Timeline(g, hist) && |st| == |g| && t <= |g|
    ensures |Samples(g, st, hist, t, c)| <= NormFact(g, hist, t, c)
    decreases t
  {
    if t > 0 {
      SamplesWithinNormFact(g, st, hist, t - 1, c);
      NodeSamplesBound(g, st, hist, t - 1, |g[t - 1]|, c);
    }
  }

  /** One more edge of node `t` extends the samples of its class by its own
      sample and leaves every other class's samples alone. */
  lemma SampleStep(g: Graph, st: seq<real>, hist: seq<seq<nat>>, t: nat, i: nat, c: nat)
    requires Timeline(g, hist) && |st| == |g| && t < |g| && i < |g[t]|
    ensures Samples(g, st, hist, t, c) + NodeSamples(g, st, hist, t, i + 1, c)
         == if EdgeClass(g, hist, t, i) == c
            then (Samples(g, st, hist, t, c) + NodeSamples(g, st, hist, t, i, c)) + [Sample(g, st, hist, t, i)]
            else Samples(g, st, hist, t, c) + NodeSamples(g, st, hist, t, i, c)
  {
    var a := Samples(g, st, hist, t, c);
    var b := NodeSamples(g, st, hist, t, i, c);
    if EdgeClass(g, hist, t, i) == c {
      assert a + (b + [Sample(g, st, hist, t, i)]) == (a + b) + [Sample(g, st, hist, t, i)];
    } else {
      assert b + [] == b;
    }
  }

  lemma SamplesNext(g: Graph, st: seq<real>, hist: seq<seq<nat>>, t: nat, c: nat)
    requires Timeline(g, hist) && |st| == |g| && t < |g|
    ensures Samples(g, st, hist, t + 1, c) == Samples(g, st, hist, t, c) + NodeSamples(g, st, hist, t, |g[t]|, c)
  {
  }

  lemma SamplesStart(g: Graph, st: seq<real>, hist: seq<seq<nat>>, t: nat, c: nat)
    requires Timeline(g, hist) && |st| == |g| && t < |g|
    ensures Samples(g, st, hist, t, c) + NodeSamples(g, st, hist, t, 0, c) == Samples(g, st, hist, t, c)
  {
    assert Samples(g, st, hist, t, c) + [] == Samples(g, st, hist, t, c);
  }

  /** Folding the sample of edge `i` of node `t` into its class's running state
      keeps every class's state the fold of its samples so far. */
  lemma PushSample(g: Graph, st: seq<real>, hist: seq<seq<nat>>, t: nat, i: nat, stats: seq<Running>)
    requires Timeline(g, hist) && |st| == |g| && t < |g| && i < |g[t]| && EdgeClass(g, hist, t, i) < |stats|
    requires forall c :: 0 <= c < |stats| ==>
      stats[c] == Fold(Samples(g, st, hist, t, c) + NodeSamples(g, st, hist, t, i, c))
    ensures var x := EdgeClass(g, hist, t, i);
      var next := stats[x := Push(stats[x], Sample(g, st, hist, t, i))];
      forall c :: 0 <= c < |stats| ==>
        next[c] == Fold(Samples(g, st, hist, t, c) + NodeSamples(g, st, hist, t, i + 1, c))
  {
    var x := EdgeClass(g, hist, t, i);
    forall c | 0 <= c < |stats|
      ensures Samples(g, st, hist, t, c) + NodeSamples(g, st, hist, t, i + 1, c)
           == if x == c
              then (Samples(g, st, hist, t, c) + NodeSamples(g, st, hist, t, i, c)) + [Sample(g, st, hist, t, i)]
              else Samples(g, st, hist, t, c) + NodeSamples(g, st, hist, t, i, c)
    {
      SampleStep(g, st, hist, t, i, c);
    }
    FoldAppend(Samples(g, st, hist, t, x) + NodeSamples(g, st, hist, t, i, x), Sample(g, st, hist, t, i));
  }

  /** The per-class result of a measure pass. */
  datatype Estimate = Estimate(kernel: seq<real>, sqdev: seq<real>, normfact: seq<nat>, notnull: seq<nat>)

  /** Class `c` of `e` holds the statistics of the samples `s` against the
      normalisation factor `nf`: the kernel is the sample sum over the factor
      (an empty factor counting as 1 with kernel 0), and `sqdev` is the squared
      deviation of the samples, padded with a zero for every possible
      citation that did not happen, about that kernel value. */
  predicate ClassEstimate(e: Estimate, c: nat, s: seq<real>, nf: nat)
    requires c < |e.kernel| == |e.sqdev| == |e.normfact| == |e.notnull|
  {
    var f := Factor(nf);
    && |s| <= f
    && e.notnull[c] == |s|
    && e.normfact[c] == f
    && e.kernel[c] == Sum(s) / (f as real)
    && e.sqdev[c] == SqDev(s + Zeros(f - |s|), e.kernel[c])
  }

  /** `e` is the measure pass's result for every class below `classes`. */
  predicate Estimates(g: Graph, st: seq<real>, hist: seq<seq<nat>>, classes: nat, e: Estimate)
  {
    && Timeline(g, hist) && |st| == |g|
    && |e.kernel| == |e.sqdev| == |e.normfact| == |e.notnull| == classes
    && forall c :: 0 <= c < classes ==>
         ClassEstimate(e, c, Samples(g, st, hist, |g|, c), NormFact(g, hist, |g|, c))
  }

  /** The end-of-pass report: every class finalised from its running state and
      its closed normalisation factor. */
  function Report(stats: seq<Running>, nf: seq<nat>, classes: nat): (e: Estimate)
    requires classes <= |stats| && classes <= |nf|
    ensures |e.kernel| == |e.sqdev| == |e.normfact| == |e.notnull| == classes
    ensures forall c :: 0 <= c < classes ==>
      && e.kernel[c] == Finalise(stats[c], nf[c]).kernel
      && e.sqdev[c] == Finalise(stats[c], nf[c]).sqdev
      && e.normfact[c] == Finalise(stats[c], nf[c]).normfact
      && e.notnull[c] == Finalise(stats[c], nf[c]).notnull
  {
    Estimate(seq(classes, c requires 0 <= c < classes => Finalise(stats[c], nf[c]).kernel),
             seq(classes, c requires 0 <= c < classes => Finalise(stats[c], nf[c]).sqdev),
             seq(classes, c requires 0 <= c < classes => Finalise(stats[c], nf[c]).normfact),
             seq(classes, c requires 0 <= c < classes => Finalise(stats[c], nf[c]).notnull))
  }

  /** Finalising the running state of each class's samples against its
      normalisation factor yields the measure pass's result. */
  lemma ReportEstimates(g: Graph, st: seq<real>, hist: seq<seq<nat>>, classes: nat, stats: seq<Running>, nf: seq<nat>)
    requires Timeline(g, hist) && |st| == |g| && classes <= |stats| && classes <= |nf|
    requires forall c :: 0 <= c < classes ==> stats[c] == Fold(Samples(g, st, hist, |g|, c))
    requires forall c :: 0 <= c < classes ==> nf[c] == NormFact(g, hist, |g|, c)
    ensures Estimates(g, st, hist, classes, Report(stats, nf, classes))
  {
    var e := Report(stats, nf, classes);
    forall c | 0 <= c < classes
      ensures ClassEstimate(e, c, Samples(g, st, hist, |g|, c), NormFact(g, hist, |g|, c))
    {
      SamplesWithinNormFact(g, st, hist, |g|, c);
      FinaliseStats(Samples(g, st, hist, |g|, c), NormFact(g, hist, |g|, c));
    }
  }

  // ---------------------------------------------------------------------------
  // Structural sum
  // ---------------------------------------------------------------------------

  /** `st[t]` is the total kernel weight of the nodes present after node `t`
      has arrived and made its citations. */
  predicate StructuralSum(kernel: seq<real>, hist: seq<seq<nat>>, st: seq<real>)
    requires Keyed(hist, |kernel|) && |hist| == |st| + 1
  {
    forall t :: 0 <= t < |st| ==> st[t] == Weigh(kernel, hist[t + 1])
  }

  /** A nonnegative kernel gives a nonnegative structural sum. */
  lemma StructuralSumNonnegative(kernel: seq<real>, hist: seq<seq<nat>>, st: seq<real>, t: nat)
    requires Keyed(hist, |kernel|) && |hist| == |st| + 1 && StructuralSum(kernel, hist, st)
    requires forall c :: 0 <= c < |kernel| ==> kernel[c] >= 0.0
    requires t < |st|
    ensures st[t] >= 0.0
  {
    WeighNonnegative(kernel, hist[t + 1]);
  }

  // ---------------------------------------------------------------------------
  // Expected citations
  // ---------------------------------------------------------------------------

  predicate NonZero(st: seq<real>)
  {
    forall i :: 0 <= i < |st| ==> st[i] != 0.0
  }

  /** Citations of node `s` per unit of structural sum: the length of time
      step `s` on the clock the expected counts are measured with. */
  function Rate(g: Graph, st: seq<real>, s: nat): real
    requires |st| == |g| && NonZero(st) && s < |g|
  {
    (|g[s]| as real) / st[s]
  }

  /** The cumulative sum of the rates of the time steps before `i`. */
  function CumSt(g: Graph, st: seq<real>, i: nat): real
    requires |st| == |g| && NonZero(st) && i <= |g|
  {
    if i == 0 then 0.0 else CumSt(g, st, i - 1) + Rate(g, st, i - 1)
  }

  /** With a positive structural sum the cumulative sum never decreases. */
  lemma {:induction false} CumStMonotone(g: Graph, st: seq<real>, i: nat, j: nat)
    requires |st| == |g| && NonZero(st) && i <= j <= |g|
    requires forall s :: 0 <= s < |st| ==> st[s] > 0.0
    ensures CumSt(g, st, i) <= CumSt(g, st, j)
    decreases j
  {
    if i < j {
      CumStMonotone(g, st, i, j - 1);
      assert Rate(g, st, j - 1) >= 0.0;
    }
  }

  /** The exposure of class `c` up to time `t`: the class size after each node's
      citations, weighted by that node's citations per unit structural sum. */
  function Exposure(g: Graph, st: seq<real>, hist: seq<seq<nat>>, t: nat, c: nat): real
    requires Timeline(g, hist) && |st| == |g| && NonZero(st) && t <= |g|
  {
    if t == 0 then 0.0
    else Exposure(g, st, hist, t - 1, c)
         + (Count(hist[t], c) as real) * Rate(g, st, t - 1)
  }

  /** `expected` is the kernel times the exposure, class by class. */
  predicate ExpectedCites(g: Graph, st: seq<real>, hist: seq<seq<nat>>, kernel: seq<real>, expected: seq<real>)
    requires Timeline(g, hist) && |st| == |g| && NonZero(st)
  {
    && |expected| == |kernel|
    && forall c :: 0 <= c < |kernel| ==> expected[c] == kernel[c] * Exposure(g, st, hist, |g|, c)
  }

  /** The kernel-weighted exposure of every class up to time `t`. */
  function WeightedExposure(g: Graph, st: seq<real>, hist: seq<seq<nat>>, kernel: seq<real>, t: nat): (r: seq<real>)
    requires Timeline(g, hist) && |st| == |g| && NonZero(st) && t <= |g|
    ensures |r| == |kernel|
    ensures forall c :: 0 <= c < |kernel| ==> r[c] == kernel[c] * Exposure(g, st, hist, t, c)
  {
    seq(|kernel|, c requires 0 <= c < |kernel| => kernel[c] * Exposure(g, st, hist, t, c))
  }

  lemma StepAlgebra(e0: real, d: real, k: real, n: real)
    ensures k * (e0 + n * d) == k * e0 + d * (k * n)
  {
  }

  /** One more time step adds, class by class, the step's rate times the
      kernel-weighted class size. */
  lemma PointwiseStep(g: Graph, st: seq<real>, hist: seq<seq<nat>>, kernel: seq<real>, t: nat,
                      before: seq<real>, after: seq<real>, z: seq<real>, d: real)
    requires Timeline(g, hist) && |st| == |g| && NonZero(st) && 0 < t <= |g|
    requires before == WeightedExposure(g, st, hist, kernel, t - 1)
    requires after == WeightedExposure(g, st, hist, kernel, t)
    requires z == Products(kernel, Counts(hist[t], |kernel|)) && d == Rate(g, st, t - 1)
    ensures |before| == |after| == |z| == |kernel|
    ensures forall c :: 0 <= c < |after| ==> after[c] == before[c] + d * z[c]
  {
    forall c | 0 <= c < |after|
      ensures after[c] == before[c] + d * z[c]
    {
      var e0 := Exposure(g, st, hist, t - 1, c);
      var n := Count(hist[t], c) as real;
      assert Exposure(g, st, hist, t, c) == e0 + n * d;
      assert z[c] == kernel[c] * n;
      StepAlgebra(e0, d, kernel[c], n);
    }
  }

  /** A pointwise shift by `d` times a sequence summing to `s` raises the sum
      by `a` when `d` is `a` shared out over `s`. */
  lemma SumStep(before: seq<real>, after: seq<real>, z: seq<real>, d: real, a: real, s: real)
    requires |before| == |after| == |z| && s != 0.0 && Sum(z) == s && d == a / s
    requires forall c :: 0 <= c < |after| ==> after[c] == before[c] + d * z[c]
    ensures Sum(after) == Sum(before) + a
  {
    assert Sum(after) == Sum(before) + d * Sum(z) by {
      SumShift(before, after, z, d);
    }
    QuotientAlgebra(Sum(before), Sum(after), d, a, Sum(z), s);
  }

  lemma QuotientAlgebra(w0: real, w1: real, d: real, a: real, s: real, s': real)
    requires s' != 0.0 && s == s' && w1 == w0 + d * s && d == a / s'
    ensures w1 == w0 + a
  {
  }

  /** Under the structural-sum recurrence one time step adds exactly the
      citations of its node to the kernel-weighted exposure. */
  lemma StepCitations(g: Graph, st: seq<real>, hist: seq<seq<nat>>, kernel: seq<real>, t: nat)
    requires Timeline(g, hist) && Keyed(hist, |kernel|) && |st| == |g| && NonZero(st) && 0 < t <= |g|
    requires StructuralSum(kernel, hist, st)
    ensures Sum(WeightedExposure(g, st, hist, kernel, t))
         == Sum(WeightedExposure(g, st, hist, kernel, t - 1)) + (|g[t - 1]| as real)
  {
    var z := Products(kernel, Counts(hist[t], |kernel|));
    assert Sum(z) == st[t - 1] by {
      DotIsSum(kernel, Counts(hist[t], |kernel|));
      WeighByClass(kernel, hist[t]);
    }
    var before := WeightedExposure(g, st, hist, kernel, t - 1);
    var after := WeightedExposure(g, st, hist, kernel, t);
    var d := Rate(g, st, t - 1);
    PointwiseStep(g, st, hist, kernel, t, before, after, z, d);
    SumStep(before, after, z, d, |g[t - 1]| as real, st[t - 1]);
  }

  /** Under the structural-sum recurrence, the kernel-weighted exposure of all
      classes up to time `t` is the number of citations made so far. */
  lemma {:induction false} WeightedExposureCounts(g: Graph, st: seq<real>, hist: seq<seq<nat>>, kernel: seq<real>, t: nat)
    requires Timeline(g, hist) && Keyed(hist, |kernel|) && |st| == |g| && NonZero(st) && t <= |g|
    requires StructuralSum(kernel, hist, st)
    ensures Sum(WeightedExposure(g, st, hist, kernel, t)) == |Flat(g, t)| as real
    decreases t
  {
    if t == 0 {
      ZeroSumReal(WeightedExposure(g, st, hist, kernel, 0));
    } else {
      WeightedExposureCounts(g, st, hist, kernel, t - 1);
      StepCitations(g, st, hist, kernel, t);
    }
  }

  lemma {:induction false} ZeroSumReal(xs: seq<real>)
    requires forall i :: 0 <= i < |xs| ==> xs[i] == 0.0
    ensures Sum(xs) == 0.0
    decreases |xs|
  {
    if |xs| > 0 {
      ZeroSumReal(xs[..|xs| - 1]);
    }
  }

  /** Conservation of citations: when the structural sum is the one the kernel
      implies, the expected citation counts of all classes add up to the
      number of edges of the network. */
  lemma ExpectedConservation(g: Graph, st: seq<real>, hist: seq<seq<nat>>, kernel: seq<real>, expected: seq<real>)
    requires Timeline(g, hist) && Keyed(hist, |kernel|) && |st| == |g| && NonZero(st)
    requires StructuralSum(kernel, hist, st)
    requires ExpectedCites(g, st, hist, kernel, expected)
    ensures Sum(expected) == EdgeCount(g) as real
  {
    assert expected == WeightedExposure(g, st, hist, kernel, |g|);
    WeightedExposureCounts(g, st, hist, kernel, |g|);
  }

  // ---------------------------------------------------------------------------
  // Likelihood
  // ---------------------------------------------------------------------------

  /** The arguments of the two logarithms one citation adds: its probability
      under the fitted kernel and under uniform attachment. */
  datatype Term = Term(fitted: real, uniform: real)

  /** The structural sum read by every citing node is nonzero. */
  predicate Divisible(g: Graph, st: seq<real>)
    requires |st| == |g|
  {
    forall t :: 1 <= t < |g| && |g[t]| > 0 ==> st[t - 1] != 0.0
  }

  function EdgeTerm(g: Graph, kernel: seq<real>, st: seq<real>, hist: seq<seq<nat>>, t: nat, i: nat): Term
    requires Timeline(g, hist) && Keyed(hist, |kernel|) && |st| == |g| && Divisible(g, st)
    requires t < |g| && i < |g[t]|
  {
    EdgeClassOccupied(g, hist, t, i);
    var c := EdgeClass(g, hist, t, i);
    var n := Count(hist[t], c) as real;
    Term(kernel[c] * n / st[t - 1], n / (t as real))
  }

  /** The term of an edge whose cited class `c` has `n` members. */
  lemma EdgeTermOf(g: Graph, kernel: seq<real>, st: seq<real>, hist: seq<seq<nat>>, t: nat, i: nat, c: nat, n: nat)
    requires Timeline(g, hist) && Keyed(hist, |kernel|) && |st| == |g| && Divisible(g, st)
    requires t < |g| && i < |g[t]| && c == EdgeClass(g, hist, t, i) && n == Count(hist[t], c)
    ensures 1 <= t && c < |kernel| && st[t - 1] != 0.0
    ensures EdgeTerm(g, kernel, st, hist, t, i) == Term(kernel[c] * (n as real) / st[t - 1], (n as real) / (t as real))
  {
    EdgeClassOccupied(g, hist, t, i);
  }

  /** The terms of the first `j` edges of node `t`, in order. */
  function NodeTerms(g: Graph, kernel: seq<real>, st: seq<real>, hist: seq<seq<nat>>, t: nat, j: nat): seq<Term>
    requires Timeline(g, hist) && Keyed(hist, |kernel|) && |st| == |g| && Divisible(g, st)
    requires t < |g| && j <= |g[t]|
  {
    if j == 0 then [] else NodeTerms(g, kernel, st, hist, t, j - 1) + [EdgeTerm(g, kernel, st, hist, t, j - 1)]
  }

  /** The terms of every edge of the nodes below `t`, in citation order. */
  function Terms(g: Graph, kernel: seq<real>, st: seq<real>, hist: seq<seq<nat>>, t: nat): seq<Term>
    requires Timeline(g, hist) && Keyed(hist, |kernel|) && |st| == |g| && Divisible(g, st) && t <= |g|
  {
    if t == 0 then [] else Terms(g, kernel, st, hist, t - 1) + NodeTerms(g, kernel, st, hist, t - 1, |g[t - 1]|)
  }

  /** There is one term per citation. */
  lemma {:induction false} TermsCount(g: Graph, kernel: seq<real>, st: seq<real>, hist: seq<seq<nat>>, t: nat)
    requires Timeline(g, hist) && Keyed(hist, |kernel|) && |st| == |g| && Divisible(g, st) && t <= |g|
    ensures |Terms(g, kernel, st, hist, t)| == |Flat(g, t)|
    decreases t
  {
    if t > 0 {
      TermsCount(g, kernel, st, hist, t - 1);
      NodeTermsCount(g, kernel, st, hist, t - 1, |g[t - 1]|);
    }
  }

  lemma {:induction false} NodeTermsCount(g: Graph, kernel: seq<real>, st: seq<real>, hist: seq<seq<nat>>, t: nat, j: nat)
    requires Timeline(g, hist) && Keyed(hist, |kernel|) && |st| == |g| && Divisible(g, st)
    requires t < |g| && j <= |g[t]|
    ensures |NodeTerms(g, kernel, st, hist, t, j)| == j
    decreases j
  {
    if j > 0 {
      NodeTermsCount(g, kernel, st, hist, t, j - 1);
    }
  }

  lemma UniformQuotient(n: real, t: real)
    requires 1.0 <= n <= t
    ensures 0.0 < n / t <= 1.0
  {
  }

  /** The null-model probability of a citation is a proper probability: the
      cited class holds at least one and at most all of the present nodes. */
  lemma UniformInRange(g: Graph, kernel: seq<real>, st: seq<real>, hist: seq<seq<nat>>, t: nat, i: nat)
    requires Timeline(g, hist) && Keyed(hist, |kernel|) && |st| == |g| && Divisible(g, st)
    requires t < |g| && i < |g[t]|
    ensures 0.0 < EdgeTerm(g, kernel, st, hist, t, i).uniform <= 1.0
  {
    EdgeClassOccupied(g, hist, t, i);
    UniformQuotient(Count(hist[t], EdgeClass(g, hist, t, i)) as real, t as real);
  }

  /** The fitted probability of class `c` at time `t`, given its size. */
  function ClassProbability(kernel: seq<real>, counts: seq<nat>, s: real, c: nat): real
    requires c < |counts| <= |kernel| && s != 0.0
  {
    kernel[c] * (counts[c] as real) / s
  }

  /** Sum of the fitted probabilities of the classes below `classes`. */
  function ProbabilityMass(kernel: seq<real>, counts: seq<nat>, s: real, classes: nat): real
    requires classes <= |counts| <= |kernel| && s != 0.0
  {
    if classes == 0 then 0.0
    else ProbabilityMass(kernel, counts, s, classes - 1) + ClassProbability(kernel, counts, s, classes - 1)
  }

  lemma {:induction false} ProbabilityMassDot(kernel: seq<real>, counts: seq<nat>, s: real, classes: nat)
    requires classes <= |counts| <= |kernel| && s != 0.0
    ensures ProbabilityMass(kernel, counts, s, classes) == Dot(kernel, counts[..classes]) / s
    decreases classes
  {
    if classes > 0 {
      ProbabilityMassDot(kernel, counts, s, classes - 1);
      assert counts[..classes][..classes - 1] == counts[..classes - 1];
    }
  }

  lemma SelfQuotient(a: real, s: real)
    requires s != 0.0 && a == s
    ensures a / s == 1.0
  {
  }

  /** When the structural sum read by node `t` is the one the kernel implies,
      the fitted probabilities of all classes at that time add up to one, so
      every fitted term is a share of a proper distribution. */
  lemma FittedMassOne(kernel: seq<real>, hist: seq<seq<nat>>, st: seq<real>, t: nat)
    requires Keyed(hist, |kernel|) && |hist| == |st| + 1 && StructuralSum(kernel, hist, st)
    requires 1 <= t < |hist| && st[t - 1] != 0.0
    ensures ProbabilityMass(kernel, Counts(hist[t], |kernel|), st[t - 1], |kernel|) == 1.0
  {
    var counts := Counts(hist[t], |kernel|);
    ProbabilityMassDot(kernel, counts, st[t - 1], |kernel|);
    assert counts[..|kernel|] == counts;
    WeighByClass(kernel, hist[t]);
    assert st[t - 1] == Weigh(kernel, hist[t]);
    SelfQuotient(Dot(kernel, counts), st[t - 1]);
  }

  /** A fitted term is its class's fitted probability. */
  lemma FittedIsClassProbability(g: Graph, kernel: seq<real>, st: seq<real>, hist: seq<seq<nat>>, t: nat, i: nat)
    requires Timeline(g, hist) && Keyed(hist, |kernel|) && |st| == |g| && Divisible(g, st)
    requires t < |g| && i < |g[t]|
    ensures EdgeClass(g, hist, t, i) < |kernel|
    ensures EdgeTerm(g, kernel, st, hist, t, i).fitted
         == ClassProbability(kernel, Counts(hist[t], |kernel|), st[t - 1], EdgeClass(g, hist, t, i))
  {
  }
}

/** The fitting driver: starting from a structural sum of 1 for every node,
    alternate the measure pass, normalisation of the kernel to unit sum and
    the structural-sum pass for the requested number of rounds; the last
    round also computes the expected citation counts and the likelihood
    terms on request.

    The rounds are specified once, for any timeline, by the reference
    functions `Round` and `Settle`; `FitD` and `FitAD` are the two drivers. */
module Fit {
  import opened Counting
  import opened Growing
  import opened Welford
  import opened History
  import opened Degree
  import opened Age

  datatype Option<T> = None | Some(value: T)

  // ---------------------------------------------------------------------------
  // Reference definition of the rounds
  // ---------------------------------------------------------------------------

  /** The kernel the measure pass reports for each class below `classes`. */
  function MeanKernel(g: Graph, st: seq<real>, hist: seq<seq<nat>>, classes: nat): (k: seq<real>)
    requires Timeline(g, hist) && |st| == |g|
    ensures |k| == classes
  {
    seq(classes, c requires 0 <= c < classes =>
      Sum(Samples(g, st, hist, |g|, c)) / (Factor(NormFact(g, hist, |g|, c)) as real))
  }

  /** Each entry of `k` multiplied by the reciprocal of the sum of `k`. */
  function Normalise(k: seq<real>): (r: seq<real>)
    requires Sum(k) != 0.0
    ensures |r| == |k|
  {
    seq(|k|, c requires 0 <= c < |k| => k[c] * (1.0 / Sum(k)))
  }

  /** The structural sum after every time step, for the kernel `kernel`. */
  function Structural(kernel: seq<real>, hist: seq<seq<nat>>): (st: seq<real>)
    requires |hist| >= 1 && Keyed(hist, |kernel|)
    ensures |st| == |hist| - 1
  {
    seq(|hist| - 1, t requires 0 <= t < |hist| - 1 => Weigh(kernel, hist[t + 1]))
  }

  /** One round on the structural sum `st`: the structural sum of the
      normalised measured kernel, or nothing when the measured kernel sums to
      zero and cannot be normalised. */
  function Round(g: Graph, hist: seq<seq<nat>>, classes: nat, st: seq<real>): Option<seq<real>>
    requires Timeline(g, hist) && Keyed(hist, classes) && |st| == |g|
  {
    var k := MeanKernel(g, st, hist, classes);
    if Sum(k) == 0.0 then None else Some(Structural(Normalise(k), hist))
  }

  /** The structural sum after `rounds` rounds from `st`. */
  function Settle(g: Graph, hist: seq<seq<nat>>, classes: nat, st: seq<real>, rounds: nat): (r: Option<seq<real>>)
    requires Timeline(g, hist) && Keyed(hist, classes) && |st| == |g|
    ensures r.Some? ==> |r.value| == |g|
    decreases rounds
  {
    if rounds == 0 then Some(st)
    else match Settle(g, hist, classes, st, rounds - 1)
      case None => None
      case Some(s) => Round(g, hist, classes, s)
  }

  /** The starting structural sum: 1 for every node. */
  function Ones(n: nat): (r: seq<real>)
    ensures |r| == n && forall t :: 0 <= t < n ==> r[t] == 1.0
  {
    seq(n, _ => 1.0)
  }

  // ---------------------------------------------------------------------------
  // The passes against the reference
  // ---------------------------------------------------------------------------

  /** The measure pass's kernel is the reference kernel. */
  lemma EstimatedKernel(g: Graph, st: seq<real>, hist: seq<seq<nat>>, classes: nat, e: Estimate)
    requires Estimates(g, st, hist, classes, e)
    ensures e.kernel == MeanKernel(g, st, hist, classes)
  {
    var k := MeanKernel(g, st, hist, classes);
    forall c | 0 <= c < classes
      ensures e.kernel[c] == k[c]
    {
      assert ClassEstimate(e, c, Samples(g, st, hist, |g|, c), NormFact(g, hist, |g|, c));
    }
  }

  /** A structural sum of the right length is the reference structural sum. */
  lemma StructuralIs(kernel: seq<real>, hist: seq<seq<nat>>, st: seq<real>)
    requires Keyed(hist, |kernel|) && |hist| == |st| + 1 && StructuralSum(kernel, hist, st)
    ensures st == Structural(kernel, hist)
  {
  }

  /** With no nodes there are no samples, so the kernel sums to zero. */
  lemma EmptyKernel(g: Graph, st: seq<real>, hist: seq<seq<nat>>, classes: nat)
    requires Timeline(g, hist) && |st| == |g| && |g| == 0
    ensures Sum(MeanKernel(g, st, hist, classes)) == 0.0
  {
    var k := MeanKernel(g, st, hist, classes);
    forall c | 0 <= c < classes
      ensures k[c] == 0.0
    {
      assert Samples(g, st, hist, 0, c) == [];
    }
    ZeroSumReal(k);
  }

  lemma ScaleAlgebra(s: real, x: real, a: real)
    ensures s * a + x * a == (s + x) * a
  {
  }

  /** Scaling every entry scales the sum. */
  lemma {:induction false} SumScaled(k: seq<real>, r: seq<real>, a: real)
    requires |r| == |k| && forall c :: 0 <= c < |k| ==> r[c] == k[c] * a
    ensures Sum(r) == Sum(k) * a
    decreases |k|
  {
    if |k| > 0 {
      var n := |k| - 1;
      SumScaled(k[..n], r[..n], a);
      ScaleAlgebra(Sum(k[..n]), k[n], a);
    }
  }

  lemma ReciprocalAlgebra(s: real)
    requires s != 0.0
    ensures s * (1.0 / s) == 1.0
  {
  }

  /** A normalised kernel sums to one. */
  lemma NormaliseSum(k: seq<real>)
    requires Sum(k) != 0.0
    ensures Sum(Normalise(k)) == 1.0
  {
    SumScaled(k, Normalise(k), 1.0 / Sum(k));
    ReciprocalAlgebra(Sum(k));
  }

  /** The squared deviation class `c` reports about `mean`: its samples
      padded with a zero for every possible citation that did not happen. */
  function PaddedDev(g: Graph, st: seq<real>, hist: seq<seq<nat>>, c: nat, mean: real): real
    requires Timeline(g, hist) && |st| == |g|
  {
    var s := Samples(g, st, hist, |g|, c);
    SamplesWithinNormFact(g, st, hist, |g|, c);
    SqDev(s + Zeros(Factor(NormFact(g, hist, |g|, c)) - |s|), mean)
  }

  /** Everything the measure pass reports, class by class. */
  function Measured(g: Graph, st: seq<real>, hist: seq<seq<nat>>, classes: nat): (e: Estimate)
    requires Timeline(g, hist) && |st| == |g|
  {
    var k := MeanKernel(g, st, hist, classes);
    Estimate(k,
             seq(classes, c requires 0 <= c < classes => PaddedDev(g, st, hist, c, k[c])),
             seq(classes, c requires 0 <= c < classes => Factor(NormFact(g, hist, |g|, c))),
             seq(classes, c requires 0 <= c < classes => |Samples(g, st, hist, |g|, c)|))
  }

  /** The measure pass's report is the reference report. */
  lemma EstimatesMeasured(g: Graph, st: seq<real>, hist: seq<seq<nat>>, classes: nat, e: Estimate)
    requires Estimates(g, st, hist, classes, e)
    ensures e == Measured(g, st, hist, classes)
  {
    var m := Measured(g, st, hist, classes);
    EstimatedKernel(g, st, hist, classes, e);
    forall c | 0 <= c < classes
      ensures e.sqdev[c] == m.sqdev[c] && e.normfact[c] == m.normfact[c] && e.notnull[c] == m.notnull[c]
    {
      assert ClassEstimate(e, c, Samples(g, st, hist, |g|, c), NormFact(g, hist, |g|, c));
    }
  }

  /** The expected counts the expected-count pass reports are the kernel-weighted exposures. */
  lemma ExpectedIsExposure(g: Graph, st: seq<real>, hist: seq<seq<nat>>, kernel: seq<real>, expected: seq<real>)
    requires Timeline(g, hist) && |st| == |g| && NonZero(st) && ExpectedCites(g, st, hist, kernel, expected)
    ensures expected == WeightedExposure(g, st, hist, kernel, |g|)
  {
  }

  // ---------------------------------------------------------------------------
  // Reference definition of the fit
  // ---------------------------------------------------------------------------

  /** The results of the last round: the measured estimate with its kernel
      normalised, the structural sum of that kernel, and the expected counts
      and likelihood terms when they were asked for and every structural sum
      they divide by is nonzero. */
  datatype Fitting = Fitting(estimate: Estimate, st: seq<real>, expected: Option<seq<real>>, terms: Option<seq<Term>>)

  /** With no rounds the outputs are left as they were; a kernel summing to
      zero cannot be normalised (the reciprocal of its sum is not finite). */
  datatype Outcome = Untouched | Unnormalisable | Fitted(fit: Fitting)

  /** The last round on the structural sum `prev`. */
  function LastRef(g: Graph, hist: seq<seq<nat>>, classes: nat, prev: seq<real>, wantExpected: bool, wantError: bool): Outcome
    requires Timeline(g, hist) && Keyed(hist, classes) && |prev| == |g|
  {
    var raw := Measured(g, prev, hist, classes);
    if Sum(raw.kernel) == 0.0 then Unnormalisable
    else
      var k := Normalise(raw.kernel);
      var st := Structural(k, hist);
      Fitted(Fitting(raw.(kernel := k), st,
                     if wantExpected && NonZero(st) then Some(WeightedExposure(g, st, hist, k, |g|)) else None,
                     if wantError && Divisible(g, st) then Some(Terms(g, k, st, hist, |g|)) else None))
  }

  /** A fit of `rounds` rounds from a structural sum of all ones. */
  function FitRef(g: Graph, hist: seq<seq<nat>>, classes: nat, rounds: nat, wantExpected: bool, wantError: bool): Outcome
    requires Timeline(g, hist) && Keyed(hist, classes)
  {
    if rounds == 0 then Untouched
    else match Settle(g, hist, classes, Ones(|g|), rounds - 1)
      case None => Unnormalisable
      case Some(prev) => LastRef(g, hist, classes, prev, wantExpected, wantError)
  }

  /** The reference fit after its first `rounds - 1` rounds gave `r`. */
  lemma FitRefAfter(g: Graph, hist: seq<seq<nat>>, classes: nat, rounds: nat, wantExpected: bool, wantError: bool,
                    r: Option<seq<real>>)
    requires Timeline(g, hist) && Keyed(hist, classes) && rounds >= 1
    requires r == Settle(g, hist, classes, Ones(|g|), rounds - 1)
    ensures r.None? ==> FitRef(g, hist, classes, rounds, wantExpected, wantError) == Unnormalisable
    ensures r.Some? ==> |r.value| == |g|
    ensures r.Some? ==> FitRef(g, hist, classes, rounds, wantExpected, wantError) == LastRef(g, hist, classes, r.value, wantExpected, wantError)
  {
  }

  /** What the last round of a fit promises, `prev` being the structural sum
      it measured on. */
  predicate LastRound(g: Graph, hist: seq<seq<nat>>, classes: nat, prev: seq<real>, wantExpected: bool, wantError: bool,
                      fit: Fitting)
    requires Timeline(g, hist) && Keyed(hist, classes) && |prev| == |g|
  {
    var raw := MeanKernel(g, prev, hist, classes);
    && Sum(raw) != 0.0
    && Estimates(g, prev, hist, classes, fit.estimate.(kernel := raw))
    && fit.estimate.kernel == Normalise(raw)
    && Sum(fit.estimate.kernel) == 1.0
    && Round(g, hist, classes, prev) == Some(fit.st)
    && StructuralSum(fit.estimate.kernel, hist, fit.st)
    && (fit.expected.Some? <==> wantExpected && NonZero(fit.st))
    && (fit.expected.Some? ==>
          && NonZero(fit.st)
          && ExpectedCites(g, fit.st, hist, fit.estimate.kernel, fit.expected.value)
          && Sum(fit.expected.value) == EdgeCount(g) as real)
    && (fit.terms.Some? <==> wantError && Divisible(g, fit.st))
    && (fit.terms.Some? ==> Divisible(g, fit.st) && fit.terms.value == Terms(g, fit.estimate.kernel, fit.st, hist, |g|))
  }

  /** What a fit of `rounds` rounds promises. */
  predicate Fits(g: Graph, hist: seq<seq<nat>>, classes: nat, rounds: nat, wantExpected: bool, wantError: bool, o: Outcome)
    requires Timeline(g, hist) && Keyed(hist, classes)
  {
    && (o.Untouched? <==> rounds == 0)
    && (o.Unnormalisable? <==> rounds >= 1 && Settle(g, hist, classes, Ones(|g|), rounds) == None)
    && (o.Fitted? ==>
          && Settle(g, hist, classes, Ones(|g|), rounds - 1).Some?
          && Settle(g, hist, classes, Ones(|g|), rounds) == Some(o.fit.st)
          && LastRound(g, hist, classes, Settle(g, hist, classes, Ones(|g|), rounds - 1).value,
                       wantExpected, wantError, o.fit))
  }

  /** The last round measures on `prev`, normalises the kernel to unit sum and
      takes its structural sum; the expected counts add up to the number of
      edges. */
  lemma LastRefRound(g: Graph, hist: seq<seq<nat>>, classes: nat, prev: seq<real>, wantExpected: bool, wantError: bool)
    requires Timeline(g, hist) && Keyed(hist, classes) && |prev| == |g|
    ensures var o := LastRef(g, hist, classes, prev, wantExpected, wantError);
      && !o.Untouched?
      && (o.Unnormalisable? <==> Round(g, hist, classes, prev) == None)
      && (o.Fitted? ==> LastRound(g, hist, classes, prev, wantExpected, wantError, o.fit))
  {
    var o := LastRef(g, hist, classes, prev, wantExpected, wantError);
    if o.Fitted? {
      LastRefKernel(g, hist, classes, prev, wantExpected, wantError, o.fit);
      LastRefEstimate(g, hist, classes, prev, wantExpected, wantError, o.fit);
      LastRefExpected(g, hist, classes, prev, wantExpected, wantError, o.fit);
      LastRefTerms(g, hist, classes, prev, wantExpected, wantError, o.fit);
    }
  }

  /** The kernel of the last round is the measured kernel normalised to unit
      sum, and its structural sum is the round's result. */
  lemma LastRefKernel(g: Graph, hist: seq<seq<nat>>, classes: nat, prev: seq<real>, wantExpected: bool, wantError: bool,
                      fit: Fitting)
    requires Timeline(g, hist) && Keyed(hist, classes) && |prev| == |g|
    requires LastRef(g, hist, classes, prev, wantExpected, wantError) == Fitted(fit)
    ensures Sum(MeanKernel(g, prev, hist, classes)) != 0.0
    ensures fit.estimate.kernel == Normalise(MeanKernel(g, prev, hist, classes))
    ensures Sum(fit.estimate.kernel) == 1.0
    ensures Round(g, hist, classes, prev) == Some(fit.st)
    ensures StructuralSum(fit.estimate.kernel, hist, fit.st)
  {
    NormaliseSum(MeanKernel(g, prev, hist, classes));
  }

  /** Apart from the normalised kernel, the last round reports what the
      measure pass does. */
  lemma LastRefEstimate(g: Graph, hist: seq<seq<nat>>, classes: nat, prev: seq<real>, wantExpected: bool, wantError: bool,
                        fit: Fitting)
    requires Timeline(g, hist) && Keyed(hist, classes) && |prev| == |g|
    requires LastRef(g, hist, classes, prev, wantExpected, wantError) == Fitted(fit)
    ensures Estimates(g, prev, hist, classes, fit.estimate.(kernel := MeanKernel(g, prev, hist, classes)))
  {
    var raw := Measured(g, prev, hist, classes);
    ReportMeasured(g, prev, hist, classes);
    assert fit.estimate.(kernel := raw.kernel) == raw;
  }

  /** The last round reports expected counts exactly when asked for and every
      structural sum is nonzero; they add up to the number of edges. */
  lemma LastRefExpected(g: Graph, hist: seq<seq<nat>>, classes: nat, prev: seq<real>, wantExpected: bool, wantError: bool,
                        fit: Fitting)
    requires Timeline(g, hist) && Keyed(hist, classes) && |prev| == |g|
    requires LastRef(g, hist, classes, prev, wantExpected, wantError) == Fitted(fit)
    ensures |fit.st| == |g| && |fit.estimate.kernel| == classes
    ensures fit.expected.Some? <==> wantExpected && NonZero(fit.st)
    ensures fit.expected.Some? ==>
      && NonZero(fit.st)
      && ExpectedCites(g, fit.st, hist, fit.estimate.kernel, fit.expected.value)
      && Sum(fit.expected.value) == EdgeCount(g) as real
  {
    if fit.expected.Some? {
      WeightedExposureCounts(g, fit.st, hist, fit.estimate.kernel, |g|);
    }
  }

  /** The last round reports likelihood terms exactly when asked for and
      every structural sum they divide by is nonzero. */
  lemma LastRefTerms(g: Graph, hist: seq<seq<nat>>, classes: nat, prev: seq<real>, wantExpected: bool, wantError: bool,
                     fit: Fitting)
    requires Timeline(g, hist) && Keyed(hist, classes) && |prev| == |g|
    requires LastRef(g, hist, classes, prev, wantExpected, wantError) == Fitted(fit)
    ensures |fit.st| == |g| && |fit.estimate.kernel| == classes
    ensures fit.terms.Some? <==> wantError && Divisible(g, fit.st)
    ensures fit.terms.Some? ==> Divisible(g, fit.st) && fit.terms.value == Terms(g, fit.estimate.kernel, fit.st, hist, |g|)
  {
  }

  /** The reference report satisfies the measure pass's contract. */
  lemma ReportMeasured(g: Graph, st: seq<real>, hist: seq<seq<nat>>, classes: nat)
    requires Timeline(g, hist) && |st| == |g|
    ensures Estimates(g, st, hist, classes, Measured(g, st, hist, classes))
  {
    var e := Measured(g, st, hist, classes);
    forall c | 0 <= c < classes
      ensures ClassEstimate(e, c, Samples(g, st, hist, |g|, c), NormFact(g, hist, |g|, c))
    {
      SamplesWithinNormFact(g, st, hist, |g|, c);
    }
  }

  /** The reference fit keeps every promise of the driver. */
  lemma FitRefFits(g: Graph, hist: seq<seq<nat>>, classes: nat, rounds: nat, wantExpected: bool, wantError: bool)
    requires Timeline(g, hist) && Keyed(hist, classes)
    ensures Fits(g, hist, classes, rounds, wantExpected, wantError, FitRef(g, hist, classes, rounds, wantExpected, wantError))
  {
    if rounds >= 1 {
      if Settle(g, hist, classes, Ones(|g|), rounds - 1).None? {
        FitRefStuck(g, hist, classes, rounds, wantExpected, wantError);
      } else {
        FitRefLast(g, hist, classes, rounds, wantExpected, wantError);
      }
    }
  }

  /** A fit whose earlier rounds failed cannot be normalised. */
  lemma FitRefStuck(g: Graph, hist: seq<seq<nat>>, classes: nat, rounds: nat, wantExpected: bool, wantError: bool)
    requires Timeline(g, hist) && Keyed(hist, classes) && rounds >= 1
    requires Settle(g, hist, classes, Ones(|g|), rounds - 1).None?
    ensures Fits(g, hist, classes, rounds, wantExpected, wantError, FitRef(g, hist, classes, rounds, wantExpected, wantError))
  {
    assert FitRef(g, hist, classes, rounds, wantExpected, wantError) == Unnormalisable;
    SettleNone(g, hist, classes, Ones(|g|), rounds);
  }

  /** A fit whose earlier rounds succeeded is its last round. */
  lemma FitRefLast(g: Graph, hist: seq<seq<nat>>, classes: nat, rounds: nat, wantExpected: bool, wantError: bool)
    requires Timeline(g, hist) && Keyed(hist, classes) && rounds >= 1
    requires Settle(g, hist, classes, Ones(|g|), rounds - 1).Some?
    ensures Fits(g, hist, classes, rounds, wantExpected, wantError, FitRef(g, hist, classes, rounds, wantExpected, wantError))
  {
    var prev := Settle(g, hist, classes, Ones(|g|), rounds - 1).value;
    assert FitRef(g, hist, classes, rounds, wantExpected, wantError) == LastRef(g, hist, classes, prev, wantExpected, wantError);
    SettleNext(g, hist, classes, Ones(|g|), rounds, prev);
    LastRefRound(g, hist, classes, prev, wantExpected, wantError);
  }

  /** Once a round fails, every later round count fails too. */
  lemma SettleStuck(g: Graph, hist: seq<seq<nat>>, classes: nat, st: seq<real>, r: nat, s: nat)
    requires Timeline(g, hist) && Keyed(hist, classes) && |st| == |g| && r <= s
    requires Settle(g, hist, classes, st, r) == None
    ensures Settle(g, hist, classes, st, s) == None
  {
    var k := r;
    while k < s
      invariant r <= k <= s && Settle(g, hist, classes, st, k) == None
    {
      SettleNone(g, hist, classes, st, k + 1);
      k := k + 1;
    }
  }

  /** A failed round count fails one round later too. */
  lemma SettleNone(g: Graph, hist: seq<seq<nat>>, classes: nat, st: seq<real>, next: nat)
    requires Timeline(g, hist) && Keyed(hist, classes) && |st| == |g| && next >= 1
    requires Settle(g, hist, classes, st, next - 1) == None
    ensures Settle(g, hist, classes, st, next) == None
  {
  }

  /** One more round continues from where the rounds so far left off. */
  lemma SettleNext(g: Graph, hist: seq<seq<nat>>, classes: nat, st: seq<real>, next: nat, s: seq<real>)
    requires Timeline(g, hist) && Keyed(hist, classes) && |st| == |g| && next >= 1
    requires Settle(g, hist, classes, st, next - 1) == Some(s)
    ensures |s| == |g| && Settle(g, hist, classes, st, next) == Round(g, hist, classes, s)
  {
  }

  // ---------------------------------------------------------------------------
  // The in-degree driver
  // ---------------------------------------------------------------------------

  /** One round of the in-degree fit: measure, normalise, structural sum. */
  method RoundD(g: Graph, st: seq<real>, maxind: nat) returns (raw: Estimate, kernel: seq<real>, st': seq<real>)
    requires WellFormed(g) && |st| == |g| && maxind == MaxInDeg(g)
    ensures Timeline(g, HistD(g)) && Keyed(HistD(g), maxind + 1)
    ensures raw == Measured(g, st, HistD(g), maxind + 1)
    ensures |st'| == |g| && |kernel| == maxind + 1
    ensures Sum(raw.kernel) != 0.0 ==>
      && kernel == Normalise(raw.kernel)
      && st' == Structural(kernel, HistD(g))
      && Round(g, HistD(g), maxind + 1, st) == Some(st')
    ensures Sum(raw.kernel) == 0.0 ==> Round(g, HistD(g), maxind + 1, st) == None
  {
    HistDTimeline(g, maxind);
    raw := MeasureD(g, st, maxind);
    EstimatesMeasured(g, st, HistD(g), maxind + 1, raw);
    var sum := Sum(raw.kernel);
    if sum == 0.0 {
      kernel, st' := raw.kernel, st;
      return;
    }
    if |g| == 0 {
      EmptyKernel(g, st, HistD(g), maxind + 1);
    }
    kernel := seq(|raw.kernel|, c requires 0 <= c < |raw.kernel| => raw.kernel[c] * (1.0 / sum));
    st' := StructuralD(g, kernel);
    StructuralIs(kernel, HistD(g), st');
  }

  /** The first `rounds` rounds of the in-degree fit, from all ones. */
  method RoundsD(g: Graph, maxind: nat, rounds: nat) returns (r: Option<seq<real>>)
    requires WellFormed(g) && maxind == MaxInDeg(g)
    ensures Timeline(g, HistD(g)) && Keyed(HistD(g), maxind + 1)
    ensures r == Settle(g, HistD(g), maxind + 1, Ones(|g|), rounds)
  {
    ghost var hist := HistD(g);
    HistDTimeline(g, maxind);
    var st := Ones(|g|);
    ghost var start := st;
    var i := 0;
    while i < rounds
      invariant i <= rounds && |st| == |g|
      invariant Settle(g, hist, maxind + 1, start, i) == Some(st)
    {
      var raw, kernel, st' := RoundD(g, st, maxind);
      SettleNext(g, hist, maxind + 1, start, i + 1, st);
      if Sum(raw.kernel) == 0.0 {
        SettleStuck(g, hist, maxind + 1, start, i + 1, rounds);
        return None;
      }
      st := st';
      i := i + 1;
    }
    r := Some(st);
  }

  /** The last round of the in-degree fit on the structural sum `prev`. */
  method LastRoundD(g: Graph, prev: seq<real>, maxind: nat, wantExpected: bool, wantError: bool) returns (o: Outcome)
    requires WellFormed(g) && |prev| == |g| && maxind == MaxInDeg(g)
    ensures Timeline(g, HistD(g)) && Keyed(HistD(g), maxind + 1)
    ensures o == LastRef(g, HistD(g), maxind + 1, prev, wantExpected, wantError)
  {
    var raw, kernel, st := RoundD(g, prev, maxind);
    if Sum(raw.kernel) == 0.0 {
      return Unnormalisable;
    }
    var expected := ExpectedOnRequestD(g, kernel, st, maxind, wantExpected);
    var terms := TermsOnRequestD(g, kernel, st, maxind, wantError);
    o := Fitted(Fitting(raw.(kernel := kernel), st, expected, terms));
  }

  /** The expected counts of the in-degree variant, when asked for and every
      structural sum is nonzero. */
  method ExpectedOnRequestD(g: Graph, kernel: seq<real>, st: seq<real>, maxind: nat, wanted: bool)
    returns (r: Option<seq<real>>)
    requires WellFormed(g) && |st| == |g| && maxind == MaxInDeg(g) && |kernel| == maxind + 1
    ensures Timeline(g, HistD(g))
    ensures r == if wanted && NonZero(st) then Some(WeightedExposure(g, st, HistD(g), kernel, |g|)) else None
  {
    HistDTimeline(g, maxind);
    r := None;
    if wanted && NonZero(st) {
      var ex := ExpectedD(g, kernel, st, maxind);
      assert kernel[..maxind + 1] == kernel;
      ExpectedIsExposure(g, st, HistD(g), kernel, ex);
      r := Some(ex);
    }
  }

  /** The likelihood terms of the in-degree variant, when asked for and every
      structural sum they divide by is nonzero. */
  method TermsOnRequestD(g: Graph, kernel: seq<real>, st: seq<real>, maxind: nat, wanted: bool)
    returns (r: Option<seq<Term>>)
    requires WellFormed(g) && |st| == |g| && maxind == MaxInDeg(g) && |kernel| == maxind + 1
    ensures Timeline(g, HistD(g)) && Keyed(HistD(g), |kernel|)
    ensures r == if wanted && Divisible(g, st) then Some(Terms(g, kernel, st, HistD(g), |g|)) else None
  {
    HistDTimeline(g, maxind);
    r := None;
    if wanted && Divisible(g, st) {
      var ts := LikelihoodD(g, kernel, st, maxind);
      r := Some(ts);
    }
  }

  /** The in-degree fit driver: `niter` rounds, the last one also computing
      the expected counts (when `wantExpected`) and the likelihood terms (when
      `wantError`). */
  method FitD(g: Graph, niter: nat, wantExpected: bool, wantError: bool) returns (o: Outcome)
    requires WellFormed(g)
    ensures Timeline(g, HistD(g)) && Keyed(HistD(g), MaxInDeg(g) + 1)
    ensures o == FitRef(g, HistD(g), MaxInDeg(g) + 1, niter, wantExpected, wantError)
  {
    var maxind := MaxInDeg(g);
    HistDTimeline(g, maxind);
    if niter == 0 {
      return Untouched;
    }
    var st := RoundsD(g, maxind, niter - 1);
    if st.None? {
      return Unnormalisable;
    }
    o := LastRoundD(g, st.value, maxind, wantExpected, wantError);
  }

  // ---------------------------------------------------------------------------
  // The in-degree and age driver
  // ---------------------------------------------------------------------------

  /** The timeline of the age variant: in-degree and age bin, `agebins` bins. */
  function AgeTimeline(g: Graph, maxind: nat, agebins: nat): seq<seq<nat>>
    requires agebins >= 1
  {
    HistAD(g, maxind + 1, BinWidth(|g|, agebins))
  }

  /** One round of the in-degree and age fit: measure, normalise, structural sum. */
  method RoundAD(g: Graph, st: seq<real>, maxind: nat, agebins: nat) returns (raw: Estimate, kernel: seq<real>, st': seq<real>)
    requires WellFormed(g) && |st| == |g| && maxind == MaxInDeg(g) && agebins >= 1
    ensures Timeline(g, AgeTimeline(g, maxind, agebins)) && Keyed(AgeTimeline(g, maxind, agebins), Grid(maxind + 1, agebins))
    ensures raw == Measured(g, st, AgeTimeline(g, maxind, agebins), Grid(maxind + 1, agebins))
    ensures |st'| == |g| && |kernel| == Grid(maxind + 1, agebins)
    ensures Sum(raw.kernel) != 0.0 ==>
      && kernel == Normalise(raw.kernel)
      && st' == Structural(kernel, AgeTimeline(g, maxind, agebins))
      && Round(g, AgeTimeline(g, maxind, agebins), Grid(maxind + 1, agebins), st) == Some(st')
    ensures Sum(raw.kernel) == 0.0 ==> Round(g, AgeTimeline(g, maxind, agebins), Grid(maxind + 1, agebins), st) == None
  {
    ghost var hist := AgeTimeline(g, maxind, agebins);
    HistADTimeline(g, maxind, agebins);
    raw := MeasureAD(g, st, maxind, agebins);
    EstimatesMeasured(g, st, hist, Grid(maxind + 1, agebins), raw);
    var sum := Sum(raw.kernel);
    if sum == 0.0 {
      kernel, st' := raw.kernel, st;
      return;
    }
    if |g| == 0 {
      EmptyKernel(g, st, hist, Grid(maxind + 1, agebins));
    }
    kernel := seq(|raw.kernel|, c requires 0 <= c < |raw.kernel| => raw.kernel[c] * (1.0 / sum));
    st' := StructuralAD(g, kernel, maxind + 1, agebins);
    StructuralIs(kernel, hist, st');
  }

  /** The first `rounds` rounds of the in-degree and age fit, from all ones. */
  method RoundsAD(g: Graph, maxind: nat, agebins: nat, rounds: nat) returns (r: Option<seq<real>>)
    requires WellFormed(g) && maxind == MaxInDeg(g) && agebins >= 1
    ensures Timeline(g, AgeTimeline(g, maxind, agebins)) && Keyed(AgeTimeline(g, maxind, agebins), Grid(maxind + 1, agebins))
    ensures r == Settle(g, AgeTimeline(g, maxind, agebins), Grid(maxind + 1, agebins), Ones(|g|), rounds)
  {
    ghost var hist := AgeTimeline(g, maxind, agebins);
    ghost var classes := Grid(maxind + 1, agebins);
    HistADTimeline(g, maxind, agebins);
    var st := Ones(|g|);
    ghost var start := st;
    var i := 0;
    while i < rounds
      invariant i <= rounds && |st| == |g|
      invariant Settle(g, hist, classes, start, i) == Some(st)
    {
      var raw, kernel, st' := RoundAD(g, st, maxind, agebins);
      SettleNext(g, hist, classes, start, i + 1, st);
      if Sum(raw.kernel) == 0.0 {
        SettleStuck(g, hist, classes, start, i + 1, rounds);
        return None;
      }
      st := st';
      i := i + 1;
    }
    r := Some(st);
  }

  /** The last round of the in-degree and age fit on the structural sum `prev`. */
  method LastRoundAD(g: Graph, prev: seq<real>, maxind: nat, agebins: nat, wantExpected: bool, wantError: bool)
    returns (o: Outcome)
    requires WellFormed(g) && |prev| == |g| && maxind == MaxInDeg(g) && agebins >= 1
    ensures Timeline(g, AgeTimeline(g, maxind, agebins)) && Keyed(AgeTimeline(g, maxind, agebins), Grid(maxind + 1, agebins))
    ensures o == LastRef(g, AgeTimeline(g, maxind, agebins), Grid(maxind + 1, agebins), prev, wantExpected, wantError)
  {
    var raw, kernel, st := RoundAD(g, prev, maxind, agebins);
    if Sum(raw.kernel) == 0.0 {
      return Unnormalisable;
    }
    var expected := ExpectedOnRequestAD(g, kernel, st, maxind, agebins, wantExpected);
    var terms := TermsOnRequestAD(g, kernel, st, maxind, agebins, wantError);
    o := Fitted(Fitting(raw.(kernel := kernel), st, expected, terms));
  }

  /** The expected counts of the age variant, when asked for and every
      structural sum is nonzero. */
  method ExpectedOnRequestAD(g: Graph, kernel: seq<real>, st: seq<real>, maxind: nat, agebins: nat, wanted: bool)
    returns (r: Option<seq<real>>)
    requires WellFormed(g) && |st| == |g| && maxind == MaxInDeg(g) && agebins >= 1
    requires |kernel| == Grid(maxind + 1, agebins)
    ensures Timeline(g, AgeTimeline(g, maxind, agebins))
    ensures r == if wanted && NonZero(st) then Some(WeightedExposure(g, st, AgeTimeline(g, maxind, agebins), kernel, |g|)) else None
  {
    HistADTimeline(g, maxind, agebins);
    r := None;
    if wanted && NonZero(st) {
      var ex := ExpectedAD(g, kernel, st, maxind, agebins);
      ExpectedIsExposure(g, st, AgeTimeline(g, maxind, agebins), kernel, ex);
      r := Some(ex);
    }
  }

  /** The likelihood terms of the age variant, when asked for and every
      structural sum they divide by is nonzero. */
  method TermsOnRequestAD(g: Graph, kernel: seq<real>, st: seq<real>, maxind: nat, agebins: nat, wanted: bool)
    returns (r: Option<seq<Term>>)
    requires WellFormed(g) && |st| == |g| && maxind == MaxInDeg(g) && agebins >= 1
    requires |kernel| == Grid(maxind + 1, agebins)
    ensures Timeline(g, AgeTimeline(g, maxind, agebins)) && Keyed(AgeTimeline(g, maxind, agebins), |kernel|)
    ensures r == if wanted && Divisible(g, st) then Some(Terms(g, kernel, st, AgeTimeline(g, maxind, agebins), |g|)) else None
  {
    HistADTimeline(g, maxind, agebins);
    r := None;
    if wanted && Divisible(g, st) {
      var ts := LikelihoodAD(g, kernel, st, maxind, agebins);
      r := Some(ts);
    }
  }

  /** The in-degree and age fit driver: `niter` rounds over `agebins` age
      bins, the last one also computing the expected counts (when
      `wantExpected`) and the likelihood terms (when `wantError`). */
  method FitAD(g: Graph, niter: nat, agebins: nat, wantExpected: bool, wantError: bool) returns (o: Outcome)
    requires WellFormed(g) && agebins >= 1
    ensures Timeline(g, AgeTimeline(g, MaxInDeg(g), agebins))
    ensures Keyed(AgeTimeline(g, MaxInDeg(g), agebins), Grid(MaxInDeg(g) + 1, agebins))
    ensures o == FitRef(g, AgeTimeline(g, MaxInDeg(g), agebins), Grid(MaxInDeg(g) + 1, agebins), niter, wantExpected, wantError)
  {
    var maxind := MaxInDeg(g);
    HistADTimeline(g, maxind, agebins);
    if niter == 0 {
      return Untouched;
    }
    o := FitRoundsAD(g, maxind, niter, agebins, wantExpected, wantError);
  }

  /** The in-degree and age fit of at least one round. */
  method FitRoundsAD(g: Graph, maxind: nat, niter: nat, agebins: nat, wantExpected: bool, wantError: bool) returns (o: Outcome)
    requires WellFormed(g) && maxind == MaxInDeg(g) && agebins >= 1 && niter >= 1
    ensures Timeline(g, AgeTimeline(g, maxind, agebins)) && Keyed(AgeTimeline(g, maxind, agebins), Grid(maxind + 1, agebins))
    ensures o == FitRef(g, AgeTimeline(g, maxind, agebins), Grid(maxind + 1, agebins), niter, wantExpected, wantError)
  {
    ghost var hist := AgeTimeline(g, maxind, agebins);
    ghost var classes := Grid(maxind + 1, agebins);
    var st := RoundsAD(g, maxind, agebins, niter - 1);
    if st.None? {
      assert FitRef(g, hist, classes, niter, wantExpected, wantError) == Unnormalisable by {
        FitRefAfter(g, hist, classes, niter, wantExpected, wantError, st);
      }
      return Unnormalisable;
    }
    o := FitLastAD(g, maxind, niter, agebins, st.value, wantExpected, wantError);
  }

  /** The in-degree and age fit whose first `niter - 1` rounds gave `prev`. */
  method FitLastAD(g: Graph, maxind: nat, niter: nat, agebins: nat, prev: seq<real>, wantExpected: bool, wantError: bool)
    returns (o: Outcome)
    requires WellFormed(g) && maxind == MaxInDeg(g) && agebins >= 1 && niter >= 1
    requires Timeline(g, AgeTimeline(g, maxind, agebins)) && Keyed(AgeTimeline(g, maxind, agebins), Grid(maxind + 1, agebins))
    requires Settle(g, AgeTimeline(g, maxind, agebins), Grid(maxind + 1, agebins), Ones(|g|), niter - 1) == Some(prev)
    ensures o == FitRef(g, AgeTimeline(g, maxind, agebins), Grid(maxind + 1, agebins), niter, wantExpected, wantError)
  {
    ghost var hist := AgeTimeline(g, maxind, agebins);
    ghost var classes := Grid(maxind + 1, agebins);
    FitRefAfter(g, hist, classes, niter, wantExpected, wantError, Some(prev));
    o := LastRoundAD(g, prev, maxind, agebins, wantExpected, wantError);
  }
}

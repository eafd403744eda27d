/** Per-class running statistics of the kernel estimator: the online mean and
    sum of squared deviations folded in one sample at a time (Welford's
    update), and the end-of-pass rescaling by the normalisation factor. */
module Welford {
  import opened Counting

  /** The running state of one class: `count` is the source's `notnull`,
      `mean` its raw `kernel` entry and `m2` its raw `sd` entry. */
  datatype Running = Running(count: nat, mean: real, m2: real)

  const Fresh := Running(0, 0.0, 0.0)

  /** Folds one sample into the running state, as each observed citation does. */
  function Push(r: Running, x: real): Running
  {
    var n := r.count + 1;
    var mean := r.mean + (x - r.mean) / (n as real);
    Running(n, mean, r.m2 + (x - r.mean) * (x - mean))
  }

  /** The running state after the samples `s`, in order. */
  function Fold(s: seq<real>): Running
  {
    if |s| == 0 then Fresh else Push(Fold(s[..|s| - 1]), s[|s| - 1])
  }

  lemma FoldAppend(s: seq<real>, x: real)
    ensures Fold(s + [x]) == Push(Fold(s), x)
  {
    assert (s + [x])[..|s|] == s;
  }

  function Mean(s: seq<real>): real
  {
    if |s| == 0 then 0.0 else Sum(s) / (|s| as real)
  }

  /** Sum of squared deviations of `s` about `c`. */
  function SqDev(s: seq<real>, c: real): real
  {
    if |s| == 0 then 0.0 else SqDev(s[..|s| - 1], c) + (s[|s| - 1] - c) * (s[|s| - 1] - c)
  }

  function SumSq(s: seq<real>): real
  {
    if |s| == 0 then 0.0 else SumSq(s[..|s| - 1]) + s[|s| - 1] * s[|s| - 1]
  }

  function Zeros(k: nat): (z: seq<real>)
    ensures |z| == k
  {
    seq(k, _ => 0.0)
  }

  lemma {:induction false} SqDevExpand(s: seq<real>, c: real)
    ensures SqDev(s, c) == SumSq(s) - 2.0 * c * Sum(s) + (|s| as real) * c * c
    decreases |s|
  {
    if |s| > 0 {
      var s' := s[..|s| - 1];
      var x := s[|s| - 1];
      SqDevExpand(s', c);
      assert (x - c) * (x - c) == x * x - 2.0 * c * x + c * c;
      assert (|s| as real) * c * c == (|s'| as real) * c * c + c * c;
    }
  }

  lemma MeanTimesCount(s: seq<real>)
    ensures Mean(s) * (|s| as real) == Sum(s)
  {
  }

  lemma SumAppend(s: seq<real>, x: real)
    ensures Sum(s + [x]) == Sum(s) + x
    ensures SumSq(s + [x]) == SumSq(s) + x * x
    ensures SqDev(s + [x], 0.0) == SqDev(s, 0.0) + x * x
  {
    assert (s + [x])[..|s|] == s;
  }

  /** The squared deviation about the mean, in moment form. */
  lemma SqDevAtMean(s: seq<real>)
    ensures SqDev(s, Mean(s)) == SumSq(s) - (|s| as real) * Mean(s) * Mean(s)
  {
    var m := Mean(s);
    SqDevExpand(s, m);
    MeanTimesCount(s);
    assert 2.0 * m * Sum(s) == 2.0 * ((|s| as real) * m * m);
  }

  lemma QuotientUnique(a: real, b: real, c: real)
    requires b > 0.0 && a * b == c
    ensures a == c / b
  {
  }

  /** One Welford step as real algebra: `n` samples with sum `sum`, sum of
      squares `q`, mean `m` and second moment `q - n m^2`. */
  lemma PushAlgebra(n: real, sum: real, q: real, m: real, x: real)
    requires n >= 0.0 && m * n == sum
    ensures var m' := m + (x - m) / (n + 1.0);
      && m' * (n + 1.0) == sum + x
      && (q - n * m * m) + (x - m) * (x - m') == (q + x * x) - (n + 1.0) * m' * m'
  {
    var m' := m + (x - m) / (n + 1.0);
    assert m' * (n + 1.0) == m * (n + 1.0) + (x - m);
    assert (n + 1.0) * m' == n * m + x;
    PushM2Algebra(n, m, m', x);
  }

  /** The algebra of one Welford step on the second moment. */
  lemma PushM2Algebra(n: real, m: real, m': real, x: real)
    requires (n + 1.0) * m' == n * m + x
    ensures (x - m) * (x - m') == x * x + n * m * m - (n + 1.0) * m' * m'
  {
    assert (n + 1.0) * m' * m' == (n * m + x) * m';
    assert m * (n * m + x - (n + 1.0) * m') == 0.0;
  }

  /** One Welford step keeps the state in moment form: the mean times the
      count is the sum, and the second moment is the sum of squares less the
      count times the squared mean. */
  lemma PushMoments(r: Running, sum: real, q: real, x: real)
    requires r.mean * (r.count as real) == sum
    requires r.m2 == q - (r.count as real) * r.mean * r.mean
    ensures Push(r, x).count == r.count + 1
    ensures Push(r, x).mean * ((r.count + 1) as real) == sum + x
    ensures Push(r, x).m2 == (q + x * x) - ((r.count + 1) as real) * Push(r, x).mean * Push(r, x).mean
  {
    var n := r.count as real;
    assert ((r.count + 1) as real) == n + 1.0;
    PushAlgebra(n, sum, q, r.mean, x);
  }

  /** `r` is the running state of the samples `s`, in moment form. */
  predicate Moments(r: Running, s: seq<real>)
  {
    && r.count == |s|
    && r.mean * (|s| as real) == Sum(s)
    && r.m2 == SumSq(s) - (|s| as real) * r.mean * r.mean
  }

  lemma PushKeepsMoments(r: Running, s: seq<real>, x: real)
    requires Moments(r, s)
    ensures Moments(Push(r, x), s + [x])
  {
    SumAppend(s, x);
    PushMoments(r, Sum(s), SumSq(s), x);
    assert (|s + [x]| as real) == ((r.count + 1) as real);
  }

  lemma {:induction false} FoldMoments(s: seq<real>)
    ensures Moments(Fold(s), s)
    decreases |s|
  {
    if |s| > 0 {
      var s' := s[..|s| - 1];
      var x := s[|s| - 1];
      assert s == s' + [x];
      FoldMoments(s');
      PushKeepsMoments(Fold(s'), s', x);
    }
  }

  /** Welford's update computes the sample size, the sample mean and the sum of
      squared deviations about it. */
  lemma FoldStats(s: seq<real>)
    ensures Fold(s) == Running(|s|, Mean(s), SqDev(s, Mean(s)))
  {
    FoldMoments(s);
    if |s| > 0 {
      QuotientUnique(Fold(s).mean, |s| as real, Sum(s));
    }
    SqDevAtMean(s);
  }

  /** The finished statistics of one class. */
  datatype Final = Final(kernel: real, sqdev: real, normfact: nat, notnull: nat)

  /** The normalisation factor a class reports: an empty factor counts as 1. */
  function Factor(nf: nat): (f: nat)
    ensures f >= 1 && f >= nf
  {
    if nf == 0 then 1 else nf
  }

  /** End-of-pass finalisation of one class, given its running state and its
      fully closed normalisation factor `nf`: an empty factor becomes kernel 0
      with factor 1, and the mean is rescaled by `notnull / normfact`.
      `sqdev` is the source's `sd` entry before the division by `normfact - 1`
      and the square root. */
  function Finalise(r: Running, nf: nat): Final
  {
    if nf == 0 then Rescaled(0.0, r.m2, r.count, 1) else Rescaled(r.mean, r.m2, r.count, nf)
  }

  /** The rescaling shared by both branches of `Finalise`. */
  function Rescaled(mean: real, m2: real, count: nat, norm: nat): Final
    requires norm > 0
  {
    var cnt := count as real;
    Final(mean * (cnt / (norm as real)),
          m2 + mean * mean * cnt * (1.0 - cnt / (norm as real)),
          norm, count)
  }

  lemma {:induction false} SqDevZeros(s: seq<real>, k: nat, c: real)
    ensures SqDev(s + Zeros(k), c) == SqDev(s, c) + (k as real) * c * c
    decreases k
  {
    if k == 0 {
      assert s + Zeros(0) == s;
    } else {
      assert (s + Zeros(k))[..|s| + k - 1] == s + Zeros(k - 1);
      SqDevZeros(s, k - 1, c);
    }
  }

  /** The algebra of finalising a non-empty class: `q` is the sum of squares,
      `sum` the sum, `n` the sample size, `m` the mean and `f` the factor. */
  lemma FinaliseAlgebra(q: real, sum: real, n: real, m: real, f: real)
    requires n > 0.0 && f >= n && m * n == sum
    ensures var c := m * (n / f);
      && c == sum / f
      && (q - n * m * m) + m * m * n * (1.0 - n / f)
         == q - 2.0 * c * sum + n * c * c + (f - n) * c * c
  {
    var c := m * (n / f);
    assert c * f == m * n;
    assert c == sum / f;
    assert n * c * c + (f - n) * c * c == f * c * c;
    assert f * c * c == sum * c;
    assert m * m * n * (1.0 - n / f) == m * m * n - (m * n) * (m * (n / f));
    assert (m * n) * (m * (n / f)) == sum * c;
    assert n * m * m == m * m * n;
  }

  /** Finalising a non-empty class, as real algebra on its moments. */
  lemma FinaliseMoments(r: Running, nf: nat, sum: real, q: real, n: nat)
    requires 0 < r.count <= nf && r.count == n
    requires r.mean * (r.count as real) == sum
    requires r.m2 == q - (r.count as real) * r.mean * r.mean
    ensures Finalise(r, nf).kernel == sum / (nf as real)
    ensures Finalise(r, nf).sqdev
         == q - 2.0 * Finalise(r, nf).kernel * sum
            + (n as real) * Finalise(r, nf).kernel * Finalise(r, nf).kernel
            + ((nf - n) as real) * Finalise(r, nf).kernel * Finalise(r, nf).kernel
  {
    var cnt := r.count as real;
    var F := nf as real;
    assert ((nf - r.count) as real) == F - cnt;
    FinaliseAlgebra(q, sum, cnt, r.mean, F);
    assert r.m2 == q - cnt * r.mean * r.mean;
  }

  /** The squared deviation about `c` of `s` padded with zeros up to length
      `nf`, in moment form. */
  function PaddedMoment(s: seq<real>, nf: nat, c: real): real
    requires |s| <= nf
  {
    SumSq(s) - 2.0 * c * Sum(s) + (|s| as real) * c * c + ((nf - |s|) as real) * c * c
  }

  lemma PaddedSqDev(s: seq<real>, nf: nat, c: real)
    requires |s| <= nf
    ensures SqDev(s + Zeros(nf - |s|), c) == PaddedMoment(s, nf, c)
  {
    var k: nat := nf - |s|;
    var cc := c * c;
    SqDevZeros(s, k, c);
    SqDevExpand(s, c);
    assert (k as real) * c * c == (k as real) * cc;
    assert (|s| as real) * c * c == (|s| as real) * cc;
  }

  lemma FinaliseSqDev(r: Running, s: seq<real>, nf: nat)
    requires Moments(r, s) && 0 < |s| <= nf
    ensures Finalise(r, nf).kernel == Sum(s) / (nf as real)
    ensures Finalise(r, nf).sqdev == PaddedMoment(s, nf, Finalise(r, nf).kernel)
  {
    FinaliseMoments(r, nf, Sum(s), SumSq(s), |s|);
  }

  lemma FinaliseNonEmpty(r: Running, s: seq<real>, nf: nat)
    requires Moments(r, s) && 0 < |s| <= nf
    ensures Finalise(r, nf).kernel == Sum(s) / (nf as real)
    ensures Finalise(r, nf).sqdev == SqDev(s + Zeros(nf - |s|), Finalise(r, nf).kernel)
  {
    FinaliseSqDev(r, s, nf);
    PaddedSqDev(s, nf, Finalise(r, nf).kernel);
  }

  lemma FinaliseEmpty(nf: nat)
    ensures Finalise(Fresh, nf).kernel == 0.0
    ensures Finalise(Fresh, nf).sqdev == 0.0
  {
  }

  lemma {:induction false} SqDevZero(k: nat)
    ensures SqDev(Zeros(k), 0.0) == 0.0
    decreases k
  {
    if k > 0 {
      assert Zeros(k)[..k - 1] == Zeros(k - 1);
      SqDevZero(k - 1);
    }
  }

  /** Finalisation turns the running state of the samples `s` into their sum
      over the normalisation factor, and the second moment into the squared
      deviation about that kernel value of `s` padded with one zero for every
      unit of the factor that saw no citation. */
  lemma FinaliseStats(s: seq<real>, nf: nat)
    requires |s| <= nf || |s| == 0
    ensures var f := Finalise(Fold(s), nf);
      && f.notnull == |s|
      && f.normfact == Factor(nf)
      && f.normfact >= f.notnull
      && f.kernel == Sum(s) / (f.normfact as real)
      && f.sqdev == SqDev(s + Zeros(f.normfact - f.notnull), f.kernel)
  {
    if |s| == 0 {
      FinaliseStatsEmpty(s, nf);
    } else {
      FoldMoments(s);
      FinaliseNonEmpty(Fold(s), s, nf);
      assert Finalise(Fold(s), nf).normfact == nf;
    }
  }

  lemma FinaliseStatsEmpty(s: seq<real>, nf: nat)
    requires |s| == 0
    ensures var f := Finalise(Fold(s), nf);
      && f.kernel == Sum(s) / (f.normfact as real)
      && f.sqdev == SqDev(s + Zeros(f.normfact - f.notnull), f.kernel)
  {
    assert Fold(s) == Fresh;
    FinaliseEmpty(nf);
    var k := Finalise(Fold(s), nf).normfact;
    assert s + Zeros(k) == Zeros(k);
    SqDevZero(k);
  }
}

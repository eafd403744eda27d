/** The citation clock of the expected-citations passes: time step `s` lasts
    the citations of node `s` divided by the structural sum at `s`, and a
    class's exposure is its size integrated over that clock. */
module Clock {
  import opened Counting
  import opened Growing
  import opened History
  import opened Trackers

  /** The clock readings at every step boundary, accumulated step by step. */
  method CumulativeSt(g: Graph, st: seq<real>) returns (cumst: seq<real>)
    requires |st| == |g| && NonZero(st)
    ensures |cumst| == |g| + 1
    ensures forall i :: 0 <= i <= |g| ==> cumst[i] == CumSt(g, st, i)
  {
    cumst := [0.0];
    var i := 0;
    while i < |g|
      invariant i <= |g| && |cumst| == i + 1
      invariant forall j :: 0 <= j <= i ==> cumst[j] == CumSt(g, st, j)
    {
      cumst := cumst + [cumst[i] + (|g[i]| as real) / st[i]];
      i := i + 1;
    }
  }

  /** The clock readings `cumst` are the cumulative sums of the rates. */
  predicate Readings(g: Graph, st: seq<real>, cumst: seq<real>)
    requires |st| == |g| && NonZero(st)
  {
    |cumst| == |g| + 1 && forall i :: 0 <= i <= |g| ==> cumst[i] == CumSt(g, st, i)
  }

  /** The meter tracks the exposure of every class up to `now`. */
  predicate Tracks(g: Graph, st: seq<real>, hist: seq<seq<nat>>, cumst: seq<real>, m: Meter, now: nat)
    requires Timeline(g, hist) && |st| == |g| && NonZero(st) && Readings(g, st, cumst) && now <= |g|
  {
    Steady(m, now) && forall c :: 0 <= c < |m.ntk| ==> Pending(m, cumst, now, c) == Exposure(g, st, hist, now, c)
  }

  /** Before the first step nothing has been exposed. */
  lemma IdleTracks(g: Graph, st: seq<real>, hist: seq<seq<nat>>, cumst: seq<real>, size: nat)
    requires Timeline(g, hist) && |st| == |g| && NonZero(st) && Readings(g, st, cumst)
    ensures Tracks(g, st, hist, cumst, Idle(size), 0)
  {
    forall c | 0 <= c < size
      ensures Pending(Idle(size), cumst, 0, c) == 0.0
    {
      NoSpan(cumst, 0);
    }
  }

  /** Once the class sizes have reached those of time `now + 1`, letting
      the clock run through step `now` keeps the meter on the exposure. */
  lemma {:induction false} TickTracks(g: Graph, st: seq<real>, hist: seq<seq<nat>>, cumst: seq<real>, m: Meter, now: nat)
    requires Timeline(g, hist) && |st| == |g| && NonZero(st) && Readings(g, st, cumst) && now < |g|
    requires Tracks(g, st, hist, cumst, m, now) && m.ntk == Counts(hist[now + 1], |m.ntk|)
    ensures Tracks(g, st, hist, cumst, m, now + 1)
  {
    var next := now + 1;
    forall c | 0 <= c < |m.ntk|
      ensures Pending(m, cumst, next, c) == Exposure(g, st, hist, next, c)
    {
      MeterTicks(m, cumst, now, c);
      assert Span(cumst, now, now + 1) == Rate(g, st, now);
    }
  }

  /** The expected citations of the first `|kernel|` classes: each class's
      settled exposure times its kernel value. */
  method Expect(g: Graph, st: seq<real>, ghost hist: seq<seq<nat>>, cumst: seq<real>, m: Meter, kernel: seq<real>)
    returns (expected: seq<real>)
    requires Timeline(g, hist) && |st| == |g| && NonZero(st) && Readings(g, st, cumst)
    requires Tracks(g, st, hist, cumst, m, |g|) && |kernel| <= |m.ntk|
    ensures ExpectedCites(g, st, hist, kernel, expected)
  {
    var settled := Settled(m, cumst, |g|);
    expected := [];
    var i := 0;
    while i < |kernel|
      invariant i <= |kernel| && |expected| == i
      invariant forall c :: 0 <= c < i ==> expected[c] == kernel[c] * Exposure(g, st, hist, |g|, c)
    {
      expected := expected + [settled[i] * kernel[i]];
      i := i + 1;
    }
  }
}

/** The per-class bookkeeping the estimator passes share.

    A measure pass keeps, for every class, its current size `ntk`, the edge
    count `ch` at which it last became non-empty, and the closed part of its
    normalisation factor; an expected-citations pass keeps the class size,
    the time step `ch` of its last change and the exposure settled so far.
    Classes are flat indices; the matrices of the age variant are laid out
    column by column. */
module Trackers {
  import opened Counting

  // ---------------------------------------------------------------------------
  // Normalisation factor
  // ---------------------------------------------------------------------------

  /** `edges` counts the citations made by the nodes seen so far.  The class
      arrays `ntk` and `ch` may be longer than `normfact` (the age variant
      keeps one more age column of counters than it reports). */
  datatype Tracker = Tracker(ntk: seq<nat>, ch: seq<nat>, normfact: seq<nat>, edges: nat)

  predicate Sane(tr: Tracker)
  {
    && |tr.ntk| == |tr.ch| && |tr.normfact| <= |tr.ntk|
    && forall c :: 0 <= c < |tr.ch| ==> tr.ch[c] <= tr.edges
  }

  /** All classes empty, nothing counted. */
  function Empty(size: nat, reported: nat): (tr: Tracker)
    requires reported <= size
    ensures Sane(tr)
  {
    Tracker(seq(size, _ => 0), seq(size, _ => 0), seq(reported, _ => 0), 0)
  }

  /** The citations since class `c` last became non-empty, if it is non-empty. */
  function Open(tr: Tracker, c: nat): nat
    requires Sane(tr) && c < |tr.ntk|
  {
    if tr.ntk[c] > 0 then tr.edges - tr.ch[c] else 0
  }

  /** The normalisation factor of class `c` as if every open stretch ended now. */
  function Closed(tr: Tracker, c: nat): nat
    requires Sane(tr) && c < |tr.normfact|
  {
    tr.normfact[c] + Open(tr, c)
  }

  /** A member leaves class `c`; if the class empties, its open stretch closes. */
  function Leave(tr: Tracker, c: nat): (r: Tracker)
    requires Sane(tr) && c < |tr.normfact| && tr.ntk[c] > 0
    ensures Sane(r)
  {
    var n := tr.ntk[c] - 1;
    Tracker(tr.ntk[c := n], tr.ch,
            if n == 0 then tr.normfact[c := tr.normfact[c] + (tr.edges - tr.ch[c])] else tr.normfact,
            tr.edges)
  }

  /** A member enters class `c`; if the class was empty, a stretch opens now. */
  function Enter(tr: Tracker, c: nat): (r: Tracker)
    requires Sane(tr) && c < |tr.ntk|
    ensures Sane(r)
  {
    var n := tr.ntk[c] + 1;
    Tracker(tr.ntk[c := n], if n == 1 then tr.ch[c := tr.edges] else tr.ch, tr.normfact, tr.edges)
  }

  /** The next node's `k` citations are counted. */
  function Advance(tr: Tracker, k: nat): (r: Tracker)
    requires Sane(tr)
    ensures Sane(r)
  {
    Tracker(tr.ntk, tr.ch, tr.normfact, tr.edges + k)
  }

  /** The end-of-pass factors: every stretch still open is closed. */
  function Finish(tr: Tracker): (nf: seq<nat>)
    requires Sane(tr)
    ensures |nf| == |tr.normfact|
    ensures forall c :: 0 <= c < |nf| ==> nf[c] == Closed(tr, c)
  {
    seq(|tr.normfact|, c requires 0 <= c < |tr.normfact| =>
      if tr.ntk[c] != 0 then tr.normfact[c] + (tr.edges - tr.ch[c]) else tr.normfact[c])
  }

  /** Leaving only changes the size of the class left, and no class's
      factor-so-far: the closed part takes over exactly what stops being open. */
  lemma LeaveKeeps(tr: Tracker, c: nat)
    requires Sane(tr) && c < |tr.normfact| && tr.ntk[c] > 0
    ensures Leave(tr, c).ntk == tr.ntk[c := tr.ntk[c] - 1]
    ensures Leave(tr, c).edges == tr.edges
    ensures forall d :: 0 <= d < |tr.normfact| ==> Closed(Leave(tr, c), d) == Closed(tr, d)
  {
  }

  /** Entering only changes the size of the class entered, and no class's
      factor-so-far: a stretch that opens now has no citations yet. */
  lemma EnterKeeps(tr: Tracker, c: nat)
    requires Sane(tr) && c < |tr.ntk|
    ensures Enter(tr, c).ntk == tr.ntk[c := tr.ntk[c] + 1]
    ensures Enter(tr, c).edges == tr.edges
    ensures |Enter(tr, c).normfact| == |tr.normfact|
    ensures forall d :: 0 <= d < |tr.normfact| ==> Closed(Enter(tr, c), d) == Closed(tr, d)
  {
  }

  /** Counting `k` more citations adds them to the factor of every class that
      is non-empty, and to no other. */
  lemma AdvanceAdds(tr: Tracker, k: nat)
    requires Sane(tr)
    ensures Advance(tr, k).ntk == tr.ntk
    ensures forall d :: 0 <= d < |tr.normfact| ==>
      Closed(Advance(tr, k), d) == Closed(tr, d) + (if tr.ntk[d] > 0 then k else 0)
  {
  }

  /** A member moves from class `x` to class `y` (both reported classes for the
      leave, any counter class for the enter). */
  function Move(tr: Tracker, x: nat, y: nat): (r: Tracker)
    requires Sane(tr) && x < |tr.normfact| && y < |tr.ntk| && tr.ntk[x] > 0
    ensures Sane(r)
  {
    Enter(Leave(tr, x), y)
  }

  /** A move keeps the counters equal to the class counts of the keys, with the
      moved key updated, and keeps every factor-so-far. */
  lemma MoveKeeps(tr: Tracker, keys: seq<nat>, v: nat, y: nat)
    requires Sane(tr) && Below(keys, |tr.ntk|) && tr.ntk == Counts(keys, |tr.ntk|)
    requires v < |keys| && keys[v] < |tr.normfact| && y < |tr.ntk|
    ensures tr.ntk[keys[v]] > 0
    ensures Move(tr, keys[v], y).ntk == Counts(keys[v := y], |tr.ntk|)
    ensures Below(keys[v := y], |tr.ntk|)
    ensures Move(tr, keys[v], y).edges == tr.edges
    ensures |Move(tr, keys[v], y).normfact| == |tr.normfact|
    ensures forall d :: 0 <= d < |tr.normfact| ==> Closed(Move(tr, keys[v], y), d) == Closed(tr, d)
  {
    CountsMove(keys, v, y, |tr.ntk|);
    LeaveKeeps(tr, keys[v]);
    EnterKeeps(Leave(tr, keys[v]), y);
  }

  /** A new member arrives in class `y`, its key appended to the keys. */
  lemma ArriveKeeps(tr: Tracker, keys: seq<nat>, y: nat)
    requires Sane(tr) && Below(keys, |tr.ntk|) && tr.ntk == Counts(keys, |tr.ntk|) && y < |tr.ntk|
    ensures Enter(tr, y).ntk == Counts(keys + [y], |tr.ntk|)
    ensures Below(keys + [y], |tr.ntk|)
    ensures Enter(tr, y).edges == tr.edges
    ensures |Enter(tr, y).normfact| == |tr.normfact|
    ensures forall d :: 0 <= d < |tr.normfact| ==> Closed(Enter(tr, y), d) == Closed(tr, d)
  {
    CountsAppend(keys, y, |tr.ntk|);
    EnterKeeps(tr, y);
  }

  // ---------------------------------------------------------------------------
  // Exposure
  // ---------------------------------------------------------------------------

  /** `ch[c]` is the time step of class `c`'s last change and `acc[c]` the
      exposure settled up to it. */
  datatype Meter = Meter(ntk: seq<nat>, ch: seq<nat>, acc: seq<real>)

  /** The meter's classes agree in size and no change lies after `now`. */
  predicate Steady(m: Meter, now: nat)
  {
    && |m.ntk| == |m.ch| == |m.acc|
    && forall c :: 0 <= c < |m.ch| ==> m.ch[c] <= now
  }

  function Idle(size: nat): (m: Meter)
    ensures Steady(m, 0)
  {
    Meter(seq(size, _ => 0), seq(size, _ => 0), seq(size, _ => 0.0))
  }

  /** The growth of the cumulative clock from step `a` to step `b`. */
  function Span(cumst: seq<real>, a: nat, b: nat): real
    requires a < |cumst| && b < |cumst|
  {
    cumst[b] - cumst[a]
  }

  /** The exposure of class `c` up to `now`, settled or not. */
  function Pending(m: Meter, cumst: seq<real>, now: nat, c: nat): real
    requires Steady(m, now) && now < |cumst| && c < |m.ntk|
  {
    m.acc[c] + (m.ntk[c] as real) * Span(cumst, m.ch[c], now)
  }

  /** Takes one member out of class `c` at `now`, first settling the class's
      exposure since its last change at its size before the change. */
  function MeterLeave(m: Meter, cumst: seq<real>, now: nat, c: nat): (r: Meter)
    requires Steady(m, now) && now < |cumst| && c < |m.ntk| && m.ntk[c] > 0
    ensures Steady(r, now)
  {
    Meter(m.ntk[c := m.ntk[c] - 1], m.ch[c := now],
          m.acc[c := m.acc[c] + (m.ntk[c] as real) * Span(cumst, m.ch[c], now)])
  }

  /** Puts one member into class `c` at `now`, settling it the same way. */
  function MeterEnter(m: Meter, cumst: seq<real>, now: nat, c: nat): (r: Meter)
    requires Steady(m, now) && now < |cumst| && c < |m.ntk|
    ensures Steady(r, now)
  {
    Meter(m.ntk[c := m.ntk[c] + 1], m.ch[c := now],
          m.acc[c := m.acc[c] + (m.ntk[c] as real) * Span(cumst, m.ch[c], now)])
  }

  /** The end-of-pass exposure: every class settled at `now`. */
  function Settled(m: Meter, cumst: seq<real>, now: nat): (e: seq<real>)
    requires Steady(m, now) && now < |cumst|
    ensures |e| == |m.acc|
    ensures forall c :: 0 <= c < |e| ==> e[c] == Pending(m, cumst, now, c)
  {
    seq(|m.acc|, c requires 0 <= c < |m.acc| => m.acc[c] + (m.ntk[c] as real) * Span(cumst, m.ch[c], now))
  }

  lemma NoSpan(cumst: seq<real>, a: nat)
    requires a < |cumst|
    ensures Span(cumst, a, a) == 0.0
  {
  }

  /** A change at `now` neither adds nor loses exposure: the departing
      member's share up to `now` is settled into the class's account. */
  lemma MeterLeaveKeeps(m: Meter, cumst: seq<real>, now: nat, c: nat)
    requires Steady(m, now) && now < |cumst| && c < |m.ntk| && m.ntk[c] > 0
    ensures MeterLeave(m, cumst, now, c).ntk == m.ntk[c := m.ntk[c] - 1]
    ensures forall d :: 0 <= d < |m.ntk| ==>
      Pending(MeterLeave(m, cumst, now, c), cumst, now, d) == Pending(m, cumst, now, d)
  {
    NoSpan(cumst, now);
  }

  lemma MeterEnterKeeps(m: Meter, cumst: seq<real>, now: nat, c: nat)
    requires Steady(m, now) && now < |cumst| && c < |m.ntk|
    ensures MeterEnter(m, cumst, now, c).ntk == m.ntk[c := m.ntk[c] + 1]
    ensures forall d :: 0 <= d < |m.ntk| ==>
      Pending(MeterEnter(m, cumst, now, c), cumst, now, d) == Pending(m, cumst, now, d)
  {
    NoSpan(cumst, now);
  }

  lemma SpanAlgebra(acc: real, n: real, s1: real, s2: real, s: real)
    requires s == s1 + s2
    ensures acc + n * s == (acc + n * s1) + n * s2
  {
  }

  /** As the clock moves on one step, every class gains its size times the
      step's length. */
  lemma MeterTicks(m: Meter, cumst: seq<real>, now: nat, c: nat)
    requires Steady(m, now) && now + 1 < |cumst| && c < |m.ntk|
    ensures Steady(m, now + 1)
    ensures Pending(m, cumst, now + 1, c)
         == Pending(m, cumst, now, c) + (m.ntk[c] as real) * Span(cumst, now, now + 1)
  {
    SpanAlgebra(m.acc[c], m.ntk[c] as real, Span(cumst, m.ch[c], now), Span(cumst, now, now + 1),
                Span(cumst, m.ch[c], now + 1));
  }

  /** A move of key `v` to class `y` at `now`, as the pass performs it. */
  function MeterMove(m: Meter, cumst: seq<real>, now: nat, x: nat, y: nat): (r: Meter)
    requires Steady(m, now) && now < |cumst| && x < |m.ntk| && y < |m.ntk| && m.ntk[x] > 0
    ensures Steady(r, now)
  {
    MeterEnter(MeterLeave(m, cumst, now, x), cumst, now, y)
  }

  lemma MeterMoveKeeps(m: Meter, cumst: seq<real>, now: nat, keys: seq<nat>, v: nat, y: nat)
    requires Steady(m, now) && now < |cumst| && Below(keys, |m.ntk|) && m.ntk == Counts(keys, |m.ntk|)
    requires v < |keys| && y < |m.ntk|
    ensures m.ntk[keys[v]] > 0
    ensures MeterMove(m, cumst, now, keys[v], y).ntk == Counts(keys[v := y], |m.ntk|)
    ensures Below(keys[v := y], |m.ntk|)
    ensures forall d :: 0 <= d < |m.ntk| ==>
      Pending(MeterMove(m, cumst, now, keys[v], y), cumst, now, d) == Pending(m, cumst, now, d)
  {
    CountsMove(keys, v, y, |m.ntk|);
    MeterLeaveKeeps(m, cumst, now, keys[v]);
    MeterEnterKeeps(MeterLeave(m, cumst, now, keys[v]), cumst, now, y);
  }

  lemma MeterArriveKeeps(m: Meter, cumst: seq<real>, now: nat, keys: seq<nat>, y: nat)
    requires Steady(m, now) && now < |cumst| && Below(keys, |m.ntk|) && m.ntk == Counts(keys, |m.ntk|)
    requires y < |m.ntk|
    ensures MeterEnter(m, cumst, now, y).ntk == Counts(keys + [y], |m.ntk|)
    ensures Below(keys + [y], |m.ntk|)
    ensures forall d :: 0 <= d < |m.ntk| ==>
      Pending(MeterEnter(m, cumst, now, y), cumst, now, d) == Pending(m, cumst, now, d)
  {
    CountsAppend(keys, y, |m.ntk|);
    MeterEnterKeeps(m, cumst, now, y);
  }
}

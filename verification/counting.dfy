/** Occurrence counts and sums over sequences.

    A "key sequence" lists, for every node present in the network, the class it
    currently belongs to.  The per-class counters of the estimator (`ntk`,
    `ntkl`) are occurrence counts of such a sequence, and the structural sum is
    a kernel-weighted sum over it. */
module Counting {

  /** Number of positions of `s` that hold `c`. */
  function Count(s: seq<nat>, c: nat): nat
  {
    if |s| == 0 then 0 else Count(s[..|s| - 1], c) + (if s[|s| - 1] == c then 1 else 0)
  }

  /** The occurrence count of every class below `classes`. */
  function Counts(s: seq<nat>, classes: nat): (r: seq<nat>)
    ensures |r| == classes
    ensures forall c :: 0 <= c < classes ==> r[c] == Count(s, c)
  {
    seq(classes, c requires 0 <= c < classes => Count(s, c))
  }

  /** Every entry of `s` is a class below `classes`. */
  predicate Below(s: seq<nat>, classes: nat)
  {
    forall i :: 0 <= i < |s| ==> s[i] < classes
  }

  function SumNat(xs: seq<nat>): nat
  {
    if |xs| == 0 then 0 else SumNat(xs[..|xs| - 1]) + xs[|xs| - 1]
  }

  function Sum(xs: seq<real>): real
  {
    if |xs| == 0 then 0.0 else Sum(xs[..|xs| - 1]) + xs[|xs| - 1]
  }

  /** Sum of `w[k]` over the keys `k` of `keys`. */
  function Weigh(w: seq<real>, keys: seq<nat>): real
    requires Below(keys, |w|)
  {
    if |keys| == 0 then 0.0 else Weigh(w, keys[..|keys| - 1]) + w[keys[|keys| - 1]]
  }

  /** Sum of `w[c] * counts[c]` over the classes `c`. */
  function Dot(w: seq<real>, counts: seq<nat>): real
    requires |counts| <= |w|
  {
    if |counts| == 0 then 0.0
    else Dot(w, counts[..|counts| - 1]) + w[|counts| - 1] * (counts[|counts| - 1] as real)
  }

  lemma CountAppend(s: seq<nat>, x: nat, c: nat)
    ensures Count(s + [x], c) == Count(s, c) + (if x == c then 1 else 0)
  {
    assert (s + [x])[..|s|] == s;
  }

  lemma {:induction false} CountConcat(a: seq<nat>, b: seq<nat>, c: nat)
    ensures Count(a + b, c) == Count(a, c) + Count(b, c)
    decreases |b|
  {
    if |b| == 0 {
      assert a + b == a;
    } else {
      var b' := b[..|b| - 1];
      var x := b[|b| - 1];
      assert a + b == (a + b') + [x];
      assert b == b' + [x];
      CountConcat(a, b', c);
      CountAppend(a + b', x, c);
      CountAppend(b', x, c);
    }
  }

  /** Moving one position to another class takes one from the old class and
      gives one to the new class; every other class keeps its count. */
  lemma {:induction false} CountUpdate(s: seq<nat>, i: nat, x: nat, c: nat)
    requires i < |s|
    ensures Count(s[i := x], c) + (if s[i] == c then 1 else 0)
         == Count(s, c) + (if x == c then 1 else 0)
    decreases |s|
  {
    var last := |s| - 1;
    if i == last {
      assert s[i := x] == s[..last] + [x];
      assert s == s[..last] + [s[last]];
      CountAppend(s[..last], x, c);
      CountAppend(s[..last], s[last], c);
    } else {
      assert s[i := x][..last] == s[..last][i := x];
      CountUpdate(s[..last], i, x, c);
    }
  }

  lemma {:induction false} CountPositive(s: seq<nat>, i: nat)
    requires i < |s|
    ensures Count(s, s[i]) >= 1
    decreases |s|
  {
    if i < |s| - 1 {
      CountPositive(s[..|s| - 1], i);
    }
  }

  lemma {:induction false} CountAtMost(s: seq<nat>, c: nat)
    ensures Count(s, c) <= |s|
    decreases |s|
  {
    if |s| > 0 {
      CountAtMost(s[..|s| - 1], c);
    }
  }

  lemma {:induction false} CountAbsent(s: seq<nat>, c: nat)
    requires forall i :: 0 <= i < |s| ==> s[i] != c
    ensures Count(s, c) == 0
    decreases |s|
  {
    if |s| > 0 {
      CountAbsent(s[..|s| - 1], c);
    }
  }

  lemma CountsAppend(s: seq<nat>, x: nat, classes: nat)
    requires x < classes
    ensures Counts(s + [x], classes) == Counts(s, classes)[x := Count(s, x) + 1]
  {
    forall c | 0 <= c < classes {
      CountAppend(s, x, c);
    }
  }

  lemma SumNatAppend(xs: seq<nat>, y: nat)
    ensures SumNat(xs + [y]) == SumNat(xs) + y
  {
    assert (xs + [y])[..|xs|] == xs;
  }

  /** Raising one entry by one raises the total by one. */
  lemma {:induction false} SumNatBump(xs: seq<nat>, i: nat)
    requires i < |xs|
    ensures SumNat(xs[i := xs[i] + 1]) == SumNat(xs) + 1
    decreases |xs|
  {
    var last := |xs| - 1;
    if i == last {
      assert xs[i := xs[i] + 1][..last] == xs[..last];
    } else {
      assert xs[i := xs[i] + 1][..last] == xs[..last][i := xs[i] + 1];
      SumNatBump(xs[..last], i);
    }
  }

  /** Count conservation: when every key is a known class, the class counts
      add up to the number of keyed positions. */
  lemma {:induction false} CountsTotal(s: seq<nat>, classes: nat)
    requires Below(s, classes)
    ensures SumNat(Counts(s, classes)) == |s|
    decreases |s|
  {
    if |s| == 0 {
      forall c | 0 <= c < classes {
        CountAbsent(s, c);
      }
      ZeroSum(Counts(s, classes));
    } else {
      var s' := s[..|s| - 1];
      var x := s[|s| - 1];
      assert s == s' + [x];
      CountsTotal(s', classes);
      CountsAppend(s', x, classes);
      SumNatBump(Counts(s', classes), x);
    }
  }

  lemma {:induction false} ZeroSum(xs: seq<nat>)
    requires forall i :: 0 <= i < |xs| ==> xs[i] == 0
    ensures SumNat(xs) == 0
    decreases |xs|
  {
    if |xs| > 0 {
      ZeroSum(xs[..|xs| - 1]);
    }
  }

  lemma WeighAppend(w: seq<real>, keys: seq<nat>, x: nat)
    requires Below(keys, |w|) && x < |w|
    ensures Below(keys + [x], |w|)
    ensures Weigh(w, keys + [x]) == Weigh(w, keys) + w[x]
  {
    assert (keys + [x])[..|keys|] == keys;
  }

  /** Moving one key changes the weighted sum by the difference of the two weights. */
  lemma {:induction false} WeighUpdate(w: seq<real>, keys: seq<nat>, i: nat, x: nat)
    requires Below(keys, |w|) && i < |keys| && x < |w|
    ensures Below(keys[i := x], |w|)
    ensures Weigh(w, keys[i := x]) == Weigh(w, keys) - w[keys[i]] + w[x]
    decreases |keys|
  {
    var last := |keys| - 1;
    if i == last {
      assert keys[i := x][..last] == keys[..last];
    } else {
      assert keys[i := x][..last] == keys[..last][i := x];
      WeighUpdate(w, keys[..last], i, x);
    }
  }

  lemma {:induction false} WeighNonnegative(w: seq<real>, keys: seq<nat>)
    requires Below(keys, |w|)
    requires forall c :: 0 <= c < |w| ==> w[c] >= 0.0
    ensures Weigh(w, keys) >= 0.0
    decreases |keys|
  {
    if |keys| > 0 {
      WeighNonnegative(w, keys[..|keys| - 1]);
    }
  }

  /** Raising one count by one raises the weighted total by that class's weight. */
  lemma {:induction false} DotBump(w: seq<real>, counts: seq<nat>, x: nat)
    requires |counts| <= |w| && x < |counts|
    ensures Dot(w, counts[x := counts[x] + 1]) == Dot(w, counts) + w[x]
    decreases |counts|
  {
    var last := |counts| - 1;
    if x == last {
      assert counts[x := counts[x] + 1][..last] == counts[..last];
    } else {
      assert counts[x := counts[x] + 1][..last] == counts[..last][x := counts[x] + 1];
      DotBump(w, counts[..last], x);
    }
  }

  lemma {:induction false} DotZero(w: seq<real>, counts: seq<nat>)
    requires |counts| <= |w|
    requires forall c :: 0 <= c < |counts| ==> counts[c] == 0
    ensures Dot(w, counts) == 0.0
    decreases |counts|
  {
    if |counts| > 0 {
      DotZero(w, counts[..|counts| - 1]);
    }
  }

  /** The weighted sum over nodes equals the class-by-class sum of weight times
      class size. */
  lemma {:induction false} WeighByClass(w: seq<real>, keys: seq<nat>)
    requires Below(keys, |w|)
    ensures Dot(w, Counts(keys, |w|)) == Weigh(w, keys)
    decreases |keys|
  {
    if |keys| == 0 {
      forall c | 0 <= c < |w| {
        CountAbsent(keys, c);
      }
      DotZero(w, Counts(keys, |w|));
    } else {
      var k' := keys[..|keys| - 1];
      var x := keys[|keys| - 1];
      assert keys == k' + [x];
      WeighByClass(w, k');
      CountsAppend(k', x, |w|);
      DotBump(w, Counts(k', |w|), x);
      WeighAppend(w, k', x);
    }
  }

  /** The class-by-class products `w[c] * counts[c]`. */
  function Products(w: seq<real>, counts: seq<nat>): (r: seq<real>)
    requires |counts| <= |w|
    ensures |r| == |counts|
    ensures forall c :: 0 <= c < |counts| ==> r[c] == w[c] * (counts[c] as real)
  {
    seq(|counts|, c requires 0 <= c < |counts| => w[c] * (counts[c] as real))
  }

  lemma {:induction false} DotIsSum(w: seq<real>, counts: seq<nat>)
    requires |counts| <= |w|
    ensures Dot(w, counts) == Sum(Products(w, counts))
    decreases |counts|
  {
    if |counts| > 0 {
      var c' := counts[..|counts| - 1];
      DotIsSum(w, c');
      forall i | 0 <= i < |c'|
        ensures Products(w, counts)[i] == Products(w, c')[i]
      {
        assert c'[i] == counts[i];
      }
      assert Products(w, counts)[..|counts| - 1] == Products(w, c');
    }
  }

  lemma ShiftAlgebra(sx: real, sz: real, x: real, z: real, d: real)
    ensures (sx + d * sz) + (x + d * z) == (sx + x) + d * (sz + z)
  {
  }

  /** Adding `d` times `z` entry by entry adds `d` times the sum of `z`. */
  lemma {:induction false} SumShift(x: seq<real>, y: seq<real>, z: seq<real>, d: real)
    requires |x| == |y| == |z|
    requires forall i :: 0 <= i < |y| ==> y[i] == x[i] + d * z[i]
    ensures Sum(y) == Sum(x) + d * Sum(z)
    decreases |y|
  {
    if |y| > 0 {
      var n := |y| - 1;
      SumShift(x[..n], y[..n], z[..n], d);
      ShiftAlgebra(Sum(x[..n]), Sum(z[..n]), x[n], z[n], d);
    }
  }

  /** Moving position `v` from its class to class `y` takes one from the old
      class's count and then gives one to `y`'s. */
  lemma CountsMove(keys: seq<nat>, v: nat, y: nat, classes: nat)
    requires Below(keys, classes) && v < |keys| && y < classes
    ensures Below(keys[v := y], classes)
    ensures Count(keys, keys[v]) >= 1
    ensures var x := keys[v];
      var left := Counts(keys, classes)[x := Count(keys, x) - 1];
      Counts(keys[v := y], classes) == left[y := left[y] + 1]
  {
    var x := keys[v];
    CountPositive(keys, v);
    var left := Counts(keys, classes)[x := Count(keys, x) - 1];
    var moved := keys[v := y];
    var after := left[y := left[y] + 1];
    forall c | 0 <= c < classes
      ensures Count(moved, c) == after[c]
    {
      CountUpdate(keys, v, y, c);
    }
  }
}

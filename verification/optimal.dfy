/** Why a forest grown greedily across cuts is a minimum spanning forest.

    A cut of the graph is a vertex set; an edge crosses it when exactly one
    of its endpoints lies inside. A forest is greedy when each of its edges,
    at the moment it is added, crosses the vertex set of the tree it grows
    and weighs no more than any other edge crossing that set. The exchange
    argument of the cut property then turns any spanning forest, one edge
    at a time and never getting heavier, into the greedy one. Connectivity
    is the closed-set reachability of the Forest module, and acyclicity is
    counted: a forest has exactly one edge fewer than vertices per
    component. */
module Optimal {
  import opened Forest

  // ---------------------------------------------------------------------------
  // Edge-id lists
  // ---------------------------------------------------------------------------

  predicate Distinct(ids: seq<nat>)
  {
    forall j, k :: 0 <= j < k < |ids| ==> ids[j] != ids[k]
  }

  /** `ids` with every occurrence of `y` dropped. */
  function Without(ids: seq<nat>, y: nat): (r: seq<nat>)
    ensures forall k :: 0 <= k < |r| ==> r[k] in ids && r[k] != y
    ensures forall x :: x in ids && x != y ==> x in r
    decreases |ids|
  {
    if |ids| == 0 then []
    else
      var m := |ids| - 1;
      Without(ids[..m], y) + (if ids[m] == y then [] else [ids[m]])
  }

  /** Dropping a member of a list without repeats shortens it by one and
      keeps it free of repeats. */
  lemma {:induction false} WithoutOne(ids: seq<nat>, y: nat)
    requires Distinct(ids)
    ensures Distinct(Without(ids, y))
    ensures |Without(ids, y)| == if y in ids then |ids| - 1 else |ids|
    decreases |ids|
  {
    if |ids| > 0 {
      var m := |ids| - 1;
      var prev := ids[..m];
      assert Distinct(prev);
      WithoutOne(prev, y);
      assert ids[m] !in prev;
      assert ids[m] !in Without(prev, y);
      assert y in ids <==> y in prev || ids[m] == y;
      if ids[m] == y {
        assert y !in prev;
      }
    }
  }

  /** The total weight of the edges `ids`. */
  function Weight(weights: seq<real>, ids: seq<nat>): real
    requires forall k :: 0 <= k < |ids| ==> ids[k] < |weights|
    decreases |ids|
  {
    if |ids| == 0 then 0.0
    else Weight(weights, ids[..|ids| - 1]) + weights[ids[|ids| - 1]]
  }

  lemma WeightAppend(weights: seq<real>, ids: seq<nat>, x: nat)
    requires forall k :: 0 <= k < |ids| ==> ids[k] < |weights|
    requires x < |weights|
    ensures Weight(weights, ids + [x]) == Weight(weights, ids) + weights[x]
  {
    assert (ids + [x])[..|ids|] == ids;
  }

  /** Dropping a member of a list without repeats takes exactly its weight off. */
  lemma {:induction false} WithoutWeight(weights: seq<real>, ids: seq<nat>, y: nat)
    requires forall k :: 0 <= k < |ids| ==> ids[k] < |weights|
    requires Distinct(ids) && y in ids
    ensures Weight(weights, Without(ids, y)) + weights[y] == Weight(weights, ids)
    decreases |ids|
  {
    var m := |ids| - 1;
    var prev := ids[..m];
    assert ids == prev + [ids[m]];
    assert Distinct(prev);
    var r := Without(prev, y);
    assert Weight(weights, ids) == Weight(weights, prev) + weights[ids[m]];
    if ids[m] == y {
      assert y !in prev;
      WithoutAbsent(prev, y);
      assert Without(ids, y) == r;
    } else {
      assert y in prev;
      WithoutWeight(weights, prev, y);
      assert Without(ids, y) == r + [ids[m]];
      WeightAppend(weights, r, ids[m]);
    }
  }

  lemma {:induction false} WithoutAbsent(ids: seq<nat>, y: nat)
    requires y !in ids
    ensures Without(ids, y) == ids
    decreases |ids|
  {
    if |ids| > 0 {
      var m := |ids| - 1;
      WithoutAbsent(ids[..m], y);
      assert ids[..m] + [ids[m]] == ids;
    }
  }

  /** Two lists without repeats, one inside the other and of one length,
      weigh the same. */
  lemma {:induction false} SameWeight(weights: seq<real>, a: seq<nat>, b: seq<nat>)
    requires forall k :: 0 <= k < |a| ==> a[k] < |weights|
    requires forall k :: 0 <= k < |b| ==> b[k] < |weights|
    requires Distinct(a) && Distinct(b) && |a| == |b|
    requires forall k :: 0 <= k < |a| ==> a[k] in b
    ensures Weight(weights, a) == Weight(weights, b)
    decreases |a|
  {
    if |a| > 0 {
      var m := |a| - 1;
      var prev := a[..m];
      var y := a[m];
      var rest := Without(b, y);
      WithoutOne(b, y);
      WithoutWeight(weights, b, y);
      assert Distinct(prev);
      forall k | 0 <= k < m
        ensures prev[k] in rest
      {
        assert prev[k] == a[k] && a[k] != y;
      }
      SameWeight(weights, prev, rest);
    }
  }

  // ---------------------------------------------------------------------------
  // Connectivity over edge lists
  // ---------------------------------------------------------------------------

  lemma PickedAppend(edges: Edges, ids: seq<nat>, y: nat)
    requires EdgeIds(edges, ids) && y < |edges|
    ensures EdgeIds(edges, ids + [y])
    ensures Picked(edges, ids + [y]) == Picked(edges, ids) + [edges[y]]
  {
  }

  lemma PickedValid(n: nat, edges: Edges, ids: seq<nat>)
    requires Valid(n, edges) && EdgeIds(edges, ids)
    ensures Valid(n, Picked(edges, ids))
  {
  }

  /** Reachability carries over to a second edge list that joins the
      endpoints of every edge of the first. */
  lemma ReachTransfer(n: nat, first: Edges, second: Edges, u: nat, v: nat)
    requires Valid(n, first) && Valid(n, second) && Reach(first, u, v)
    requires forall e :: 0 <= e < |first| ==> Reach(second, first[e].from, first[e].to)
    ensures Reach(second, u, v)
  {
    forall s: set<nat> | Closed(second, s) && u in s
      ensures v in s
    {
      assert Closed(first, s) by {
        forall e | 0 <= e < |first|
          ensures first[e].from in s <==> first[e].to in s
        {
          ReachSym(n, second, first[e].from, first[e].to);
        }
      }
    }
  }

  /** More edge ids connect more. */
  lemma ReachSubIds(edges: Edges, small: seq<nat>, large: seq<nat>, u: nat, v: nat)
    requires EdgeIds(edges, small) && EdgeIds(edges, large)
    requires forall k :: 0 <= k < |small| ==> small[k] in large
    requires Reach(Picked(edges, small), u, v)
    ensures Reach(Picked(edges, large), u, v)
  {
    var ps, pl := Picked(edges, small), Picked(edges, large);
    forall s: set<nat> | Closed(pl, s) && u in s
      ensures v in s
    {
      assert Closed(ps, s) by {
        forall k | 0 <= k < |ps|
          ensures ps[k].from in s <==> ps[k].to in s
        {
          var i :| 0 <= i < |large| && large[i] == small[k];
          assert pl[i] == ps[k];
        }
      }
    }
  }

  /** Picked edges connect no more than the whole graph. */
  lemma ReachPicked(edges: Edges, ids: seq<nat>, u: nat, v: nat)
    requires EdgeIds(edges, ids) && Reach(Picked(edges, ids), u, v)
    ensures Reach(edges, u, v)
  {
    var p := Picked(edges, ids);
    forall s: set<nat> | Closed(edges, s) && u in s
      ensures v in s
    {
      assert Closed(p, s) by {
        forall k | 0 <= k < |p|
          ensures p[k].from in s <==> p[k].to in s
        {
          assert p[k] == edges[ids[k]];
        }
      }
    }
  }

  /** The vertices connected to `p`. */
  ghost function Comp(n: nat, edges: Edges, p: nat): set<nat>
  {
    set v | 0 <= v < n && Reach(edges, p, v)
  }

  lemma CompClosed(n: nat, edges: Edges, p: nat)
    requires Valid(n, edges)
    ensures Closed(edges, Comp(n, edges, p))
  {
    forall e | 0 <= e < |edges|
      ensures edges[e].from in Comp(n, edges, p) <==> edges[e].to in Comp(n, edges, p)
    {
      if Reach(edges, p, edges[e].from) {
        ReachStep(edges, p, edges[e].from, e);
      }
      if Reach(edges, p, edges[e].to) {
        ReachStep(edges, p, edges[e].to, e);
      }
    }
  }

  /** What one more edge `x` connects: what was connected already, or two
      vertices connected to its two ends. */
  lemma ReachSplit(n: nat, edges: Edges, x: Edge, p: nat, q: nat)
    requires Valid(n, edges) && x.from < n && x.to < n && p < n && q < n
    requires Reach(edges + [x], p, q)
    ensures || Reach(edges, p, q)
            || (Reach(edges, p, x.from) && Reach(edges, x.to, q))
            || (Reach(edges, p, x.to) && Reach(edges, x.from, q))
  {
    var near := Comp(n, edges, p);
    var far :=
      if Reach(edges, p, x.from) then Comp(n, edges, x.to)
      else if Reach(edges, p, x.to) then Comp(n, edges, x.from)
      else {};
    var s := near + far;
    CompClosed(n, edges, p);
    CompClosed(n, edges, x.from);
    CompClosed(n, edges, x.to);
    ReachRefl(edges, p);
    ReachRefl(edges, x.from);
    ReachRefl(edges, x.to);
    var more := edges + [x];
    assert Closed(more, s) by {
      forall e | 0 <= e < |more|
        ensures more[e].from in s <==> more[e].to in s
      {
        if e < |edges| {
          assert more[e] == edges[e];
          assert edges[e].from in near <==> edges[e].to in near;
          assert edges[e].from in far <==> edges[e].to in far;
        }
      }
    }
    assert q in s;
  }

  // ---------------------------------------------------------------------------
  // Counting components
  // ---------------------------------------------------------------------------

  /** The root of a vertex depends only on what reaches it. */
  lemma LeadSame(first: Edges, second: Edges, v: nat)
    requires forall k :: 0 <= k <= v ==> (Reach(first, k, v) <==> Reach(second, k, v))
    ensures Lead(first, v) == Lead(second, v)
  {
  }

  /** Edge lists that connect the same pairs have the same roots. */
  lemma RootsSame(n: nat, first: Edges, second: Edges)
    requires forall a, b :: 0 <= a < n && 0 <= b < n ==> (Reach(first, a, b) <==> Reach(second, a, b))
    ensures Roots(n, first) == Roots(n, second)
  {
    forall v | 0 <= v < n
      ensures Lead(first, v) == Lead(second, v)
    {
      LeadSame(first, second, v);
    }
  }

  /** Without edges every vertex is a component of its own. */
  lemma RootsNone(n: nat)
    ensures |Roots(n, [])| == n
  {
    forall v | 0 <= v < n
      ensures Lead([], v) == v
    {
      forall k | 0 <= k < v
        ensures !Reach([], k, v)
      {
        assert Closed([], {k});
      }
    }
    assert Roots(n, []) == Vertices(n);
  }

  /** One more edge merges at most two components. */
  lemma RootsMerge(n: nat, edges: Edges, x: Edge)
    requires Valid(n, edges) && x.from < n && x.to < n
    ensures |Roots(n, edges)| <= |Roots(n, edges + [x])| + 1
  {
    var la, lb := Lead(edges, x.from), Lead(edges, x.to);
    var m := if la < lb then lb else la;
    var before, after := Roots(n, edges), Roots(n, edges + [x]);
    forall r | r in before && r != m
      ensures r in after
    {
      var l := Lead(edges + [x], r);
      if l < r {
        ReachSplit(n, edges, x, l, r);
        if Reach(edges, l, x.from) && Reach(edges, x.to, r) {
          LeadShared(n, edges, x.to, r);
        } else if Reach(edges, l, x.to) && Reach(edges, x.from, r) {
          LeadShared(n, edges, x.from, r);
        }
      }
    }
    SubsetSize(before - {m}, after);
    if m in before {
      assert before == (before - {m}) + {m};
    } else {
      assert before == before - {m};
    }
  }

  /** An edge list on `n` vertices has at least `n` edges and components
      together. */
  lemma {:induction false} RootsLower(n: nat, edges: Edges)
    requires Valid(n, edges)
    ensures |edges| + |Roots(n, edges)| >= n
    decreases |edges|
  {
    if |edges| == 0 {
      assert edges == [];
      RootsNone(n);
    } else {
      var m := |edges| - 1;
      var prev := edges[..m];
      RootsLower(n, prev);
      RootsMerge(n, prev, edges[m]);
      assert prev + [edges[m]] == edges;
    }
  }

  // ---------------------------------------------------------------------------
  // Spanning forests as edge sets
  // ---------------------------------------------------------------------------

  /** `ids` is a spanning forest up to order: distinct edges, one fewer than
      vertices per component, joining the endpoints of every edge. */
  ghost predicate Forestlike(n: nat, edges: Edges, ids: seq<nat>)
  {
    && Valid(n, edges) && EdgeIds(edges, ids) && Distinct(ids)
    && |ids| + |Roots(n, edges)| == n
    && forall e :: 0 <= e < |edges| ==> Reach(Picked(edges, ids), edges[e].from, edges[e].to)
  }

  lemma SpanningForestlike(n: nat, edges: Edges, ids: seq<nat>)
    requires Valid(n, edges) && SpanningForest(n, edges, ids)
    ensures Forestlike(n, edges, ids)
  {
    GrowsDistinct(edges, ids);
  }

  /** A spanning forest connects exactly what the graph connects. */
  lemma ForestlikeReach(n: nat, edges: Edges, ids: seq<nat>, a: nat, b: nat)
    requires Forestlike(n, edges, ids) && a < n && b < n
    ensures Reach(edges, a, b) <==> Reach(Picked(edges, ids), a, b)
  {
    PickedValid(n, edges, ids);
    if Reach(edges, a, b) {
      ReachTransfer(n, edges, Picked(edges, ids), a, b);
    }
    if Reach(Picked(edges, ids), a, b) {
      ReachPicked(edges, ids, a, b);
    }
  }

  /** Edge ids `other` that keep all of `ids` but `y` and still join the
      endpoints of `y` connect whatever `ids` connects. */
  lemma ReachReplace(n: nat, edges: Edges, ids: seq<nat>, y: nat, other: seq<nat>, p: nat, q: nat)
    requires Valid(n, edges) && EdgeIds(edges, ids) && EdgeIds(edges, other) && y < |edges|
    requires forall k :: 0 <= k < |ids| && ids[k] != y ==> ids[k] in other
    requires Reach(Picked(edges, other), edges[y].from, edges[y].to)
    requires Reach(Picked(edges, ids), p, q)
    ensures Reach(Picked(edges, other), p, q)
  {
    var whole, part := Picked(edges, ids), Picked(edges, other);
    PickedValid(n, edges, ids);
    PickedValid(n, edges, other);
    forall k | 0 <= k < |whole|
      ensures Reach(part, whole[k].from, whole[k].to)
    {
      if ids[k] != y {
        var i :| 0 <= i < |other| && other[i] == ids[k];
        assert part[i] == whole[k];
        ReachEdge(part, i);
      }
    }
    ReachTransfer(n, whole, part, p, q);
  }

  /** Without `y`, a spanning forest that still joined the endpoints of `y`
      would connect what the graph connects. */
  lemma BridgeRoots(n: nat, edges: Edges, ids: seq<nat>, y: nat)
    requires Forestlike(n, edges, ids) && y in ids
    requires Reach(Picked(edges, Without(ids, y)), edges[y].from, edges[y].to)
    ensures Roots(n, Picked(edges, Without(ids, y))) == Roots(n, edges)
  {
    var rest := Without(ids, y);
    var part := Picked(edges, rest);
    forall a, b | 0 <= a < n && 0 <= b < n
      ensures Reach(part, a, b) <==> Reach(edges, a, b)
    {
      if Reach(edges, a, b) {
        ForestlikeReach(n, edges, ids, a, b);
        ReachReplace(n, edges, ids, y, rest, a, b);
      }
      if Reach(part, a, b) {
        ReachPicked(edges, rest, a, b);
      }
    }
    RootsSame(n, part, edges);
  }

  /** Every edge of a spanning forest is a bridge: without it, its endpoints
      fall apart, or the forest would have too few edges for its components. */
  lemma Bridge(n: nat, edges: Edges, ids: seq<nat>, y: nat)
    requires Forestlike(n, edges, ids) && y in ids
    ensures !Reach(Picked(edges, Without(ids, y)), edges[y].from, edges[y].to)
  {
    var rest := Without(ids, y);
    WithoutOne(ids, y);
    if Reach(Picked(edges, rest), edges[y].from, edges[y].to) {
      BridgeRoots(n, edges, ids, y);
      PickedValid(n, edges, rest);
      RootsLower(n, Picked(edges, rest));
    }
  }

  /** Where adding the edges `more` to `base` first connects `u` and `v`
      lies an edge whose removal from the whole forest parts them. */
  lemma {:induction false} FindBridge(n: nat, edges: Edges, ids: seq<nat>, base: seq<nat>, more: seq<nat>, u: nat, v: nat)
    returns (y: nat)
    requires Forestlike(n, edges, ids) && u < n && v < n
    requires EdgeIds(edges, base) && EdgeIds(edges, more) && Distinct(base + more)
    requires forall k :: 0 <= k < |base + more| ==> (base + more)[k] in ids
    requires Reach(Picked(edges, base + more), u, v) && !Reach(Picked(edges, base), u, v)
    ensures y in more && !Reach(Picked(edges, Without(ids, y)), u, v)
    decreases |more|
  {
    if |more| == 0 {
      assert false;
    }
    var m := |more| - 1;
    var front := base + more[..m];
    assert base + more == front + [more[m]];
    assert forall k :: 0 <= k < |front| ==> front[k] == (base + more)[k];
    if Reach(Picked(edges, front), u, v) {
      y := FindBridge(n, edges, ids, base, more[..m], u, v);
    } else {
      y := more[m];
      var rest := Without(ids, y);
      var low, high := Picked(edges, front), Picked(edges, rest);
      var a, b := edges[y].from, edges[y].to;
      PickedAppend(edges, front, y);
      PickedValid(n, edges, front);
      PickedValid(n, edges, rest);
      ReachSplit(n, low, edges[y], u, v);
      if Reach(high, u, v) {
        forall k | 0 <= k < |front|
          ensures front[k] in rest
        {
          assert (base + more)[k] in ids;
          assert (base + more)[k] != (base + more)[|front|];
        }
        if Reach(low, u, a) && Reach(low, b, v) {
          ReachSubIds(edges, front, rest, u, a);
          ReachSubIds(edges, front, rest, b, v);
          ReachSym(n, high, u, a);
          ReachSym(n, high, b, v);
          ReachTrans(high, a, u, v);
          ReachTrans(high, a, v, b);
        } else {
          ReachSubIds(edges, front, rest, u, b);
          ReachSubIds(edges, front, rest, a, v);
          ReachSym(n, high, u, v);
          ReachTrans(high, a, v, u);
          ReachTrans(high, a, u, b);
        }
        Bridge(n, edges, ids, y);
      }
    }
  }

  /** An edge crosses `s` when exactly one of its endpoints lies in it. */
  predicate Crosses(edge: Edge, s: set<nat>)
  {
    (edge.from in s) != (edge.to in s)
  }

  /** The ids among `ids` whose edges cross `s` (`crossing`) or do not. */
  function Filtered(edges: Edges, ids: seq<nat>, s: set<nat>, crossing: bool): (r: seq<nat>)
    requires EdgeIds(edges, ids)
    ensures EdgeIds(edges, r)
    ensures forall k :: 0 <= k < |r| ==> r[k] in ids && Crosses(edges[r[k]], s) == crossing
    ensures forall k :: 0 <= k < |ids| && Crosses(edges[ids[k]], s) == crossing ==> ids[k] in r
    decreases |ids|
  {
    if |ids| == 0 then []
    else
      var m := |ids| - 1;
      Filtered(edges, ids[..m], s, crossing) + (if Crosses(edges[ids[m]], s) == crossing then [ids[m]] else [])
  }

  lemma {:induction false} FilteredDistinct(edges: Edges, ids: seq<nat>, s: set<nat>, crossing: bool)
    requires EdgeIds(edges, ids) && Distinct(ids)
    ensures Distinct(Filtered(edges, ids, s, crossing))
    decreases |ids|
  {
    if |ids| > 0 {
      var m := |ids| - 1;
      assert Distinct(ids[..m]);
      FilteredDistinct(edges, ids[..m], s, crossing);
      assert ids[m] !in ids[..m];
      assert ids[m] !in Filtered(edges, ids[..m], s, crossing);
    }
  }

  /** Splitting edge ids by whether they cross `s` loses and repeats none. */
  lemma FilteredSplit(edges: Edges, ids: seq<nat>, s: set<nat>)
    requires EdgeIds(edges, ids) && Distinct(ids)
    ensures Distinct(Filtered(edges, ids, s, false) + Filtered(edges, ids, s, true))
    ensures forall k :: 0 <= k < |ids| ==> ids[k] in Filtered(edges, ids, s, false) + Filtered(edges, ids, s, true)
  {
    var inner := Filtered(edges, ids, s, false);
    var across := Filtered(edges, ids, s, true);
    var both := inner + across;
    FilteredDistinct(edges, ids, s, false);
    FilteredDistinct(edges, ids, s, true);
    forall j, k | 0 <= j < k < |both|
      ensures both[j] != both[k]
    {
      if k < |inner| {
        assert both[j] == inner[j] && both[k] == inner[k];
      } else if j >= |inner| {
        assert both[j] == across[j - |inner|] && both[k] == across[k - |inner|];
      } else {
        assert both[j] == inner[j] && both[k] == across[k - |inner|];
      }
    }
    forall k | 0 <= k < |ids|
      ensures ids[k] in both
    {
      if Crosses(edges[ids[k]], s) {
        assert ids[k] in across;
      } else {
        assert ids[k] in inner;
      }
    }
  }

  /** The edges that do not cross `s` leave it closed. */
  lemma InnerClosed(edges: Edges, ids: seq<nat>, s: set<nat>)
    requires EdgeIds(edges, ids)
    ensures Closed(Picked(edges, Filtered(edges, ids, s, false)), s)
  {
    var inner := Filtered(edges, ids, s, false);
    var p := Picked(edges, inner);
    forall k | 0 <= k < |p|
      ensures p[k].from in s <==> p[k].to in s
    {
      assert p[k] == edges[inner[k]];
    }
  }

  /** A spanning forest joining `u` inside `s` to `v` outside has an edge
      across `s` whose removal parts them. */
  lemma FindCrossingBridge(n: nat, edges: Edges, ids: seq<nat>, s: set<nat>, u: nat, v: nat)
    returns (y: nat)
    requires Forestlike(n, edges, ids) && u < n && v < n && u in s && v !in s
    requires Reach(Picked(edges, ids), u, v)
    ensures y in ids && y < |edges| && Crosses(edges[y], s)
    ensures !Reach(Picked(edges, Without(ids, y)), u, v)
  {
    var inner := Filtered(edges, ids, s, false);
    var across := Filtered(edges, ids, s, true);
    FilteredSplit(edges, ids, s);
    ReachSubIds(edges, ids, inner + across, u, v);
    InnerClosed(edges, ids, s);
    y := FindBridge(n, edges, ids, inner, across, u, v);
  }

  /** After trading the bridge `y` for an edge `e` between the two sides
      `y` leaves, the endpoints of `y` are joined again. */
  lemma ExchangeJoins(n: nat, edges: Edges, ids: seq<nat>, y: nat, e: nat, u: nat, v: nat)
    requires Valid(n, edges) && EdgeIds(edges, ids) && y in ids && e < |edges|
    requires (u, v) == (edges[e].from, edges[e].to) || (u, v) == (edges[e].to, edges[e].from)
    requires Reach(Picked(edges, ids), u, v)
    requires !Reach(Picked(edges, Without(ids, y)), u, v)
    ensures EdgeIds(edges, Without(ids, y) + [e])
    ensures Reach(Picked(edges, Without(ids, y) + [e]), edges[y].from, edges[y].to)
  {
    var rest := Without(ids, y);
    var next := rest + [e];
    var part, grown := Picked(edges, rest), Picked(edges, next);
    var a, b := edges[y].from, edges[y].to;
    PickedValid(n, edges, rest);
    PickedValid(n, edges, next);
    PickedAppend(edges, rest, y);
    PickedAppend(edges, rest, e);
    assert forall k :: 0 <= k < |rest| ==> rest[k] in next;
    assert forall k :: 0 <= k < |ids| ==> ids[k] in rest + [y];
    ReachSubIds(edges, ids, rest + [y], u, v);
    ReachSplit(n, part, edges[y], u, v);
    ReachEdge(grown, |rest|);
    if (u, v) != (edges[e].from, edges[e].to) {
      ReachSym(n, grown, edges[e].from, edges[e].to);
    }
    if Reach(part, u, a) && Reach(part, b, v) {
      ReachSubIds(edges, rest, next, u, a);
      ReachSubIds(edges, rest, next, b, v);
      ReachSym(n, grown, u, a);
      ReachSym(n, grown, b, v);
      ReachTrans(grown, a, u, v);
      ReachTrans(grown, a, v, b);
    } else {
      ReachSubIds(edges, rest, next, u, b);
      ReachSubIds(edges, rest, next, a, v);
      ReachSym(n, grown, u, v);
      ReachTrans(grown, a, v, u);
      ReachTrans(grown, a, u, b);
    }
  }

  /** Trading a bridge `y` for an edge `e` that joins the two sides `y`
      leaves leaves a spanning forest. */
  lemma ExchangeSpans(n: nat, edges: Edges, ids: seq<nat>, y: nat, e: nat, u: nat, v: nat)
    requires Forestlike(n, edges, ids) && y in ids && e < |edges| && e !in ids
    requires (u, v) == (edges[e].from, edges[e].to) || (u, v) == (edges[e].to, edges[e].from)
    requires Reach(Picked(edges, ids), u, v)
    requires !Reach(Picked(edges, Without(ids, y)), u, v)
    ensures Forestlike(n, edges, Without(ids, y) + [e])
    ensures |Without(ids, y) + [e]| == |ids|
  {
    var rest := Without(ids, y);
    WithoutOne(ids, y);
    var next := rest + [e];
    ExchangeJoins(n, edges, ids, y, e, u, v);
    forall f | 0 <= f < |edges|
      ensures Reach(Picked(edges, next), edges[f].from, edges[f].to)
    {
      ReachReplace(n, edges, ids, y, next, edges[f].from, edges[f].to);
    }
    assert Distinct(next) by {
      assert e !in rest;
    }
  }

  // ---------------------------------------------------------------------------
  // Greedy forests
  // ---------------------------------------------------------------------------

  /** The vertex set of the tree `res[k]` grows: the root of its component
      and the vertices of that component the edges before it touch. */
  ghost function Cut(n: nat, edges: Edges, res: seq<nat>, k: nat): set<nat>
    requires EdgeIds(edges, res) && k < |res|
  {
    var root := Lead(edges, edges[res[k]].from);
    var before := res[..k];
    set v | 0 <= v < n && Lead(edges, v) == root && (v == root || !Untouched(edges, before, v))
  }

  /** `res[k]` crosses the cut of its tree and is a lightest edge that does. */
  ghost predicate GreedyAt(n: nat, edges: Edges, weights: seq<real>, res: seq<nat>, k: nat)
    requires EdgeIds(edges, res) && |weights| == |edges| && k < |res|
  {
    var cut := Cut(n, edges, res, k);
    && Crosses(edges[res[k]], cut)
    && forall f :: 0 <= f < |edges| && Crosses(edges[f], cut) ==> weights[res[k]] <= weights[f]
  }

  ghost predicate Greedy(n: nat, edges: Edges, weights: seq<real>, res: seq<nat>)
    requires EdgeIds(edges, res) && |weights| == |edges|
  {
    forall k :: 0 <= k < |res| ==> GreedyAt(n, edges, weights, res, k)
  }

  /** No spanning forest weighs less than `res`, whatever the order of its
      edges: every list of distinct edge ids with one edge fewer than
      vertices per component that joins the ends of every edge is at least
      as heavy. */
  ghost predicate Minimal(n: nat, edges: Edges, weights: seq<real>, res: seq<nat>)
    requires EdgeIds(edges, res) && |weights| == |edges|
  {
    forall other :: Forestlike(n, edges, other) ==> Weight(weights, res) <= Weight(weights, other)
  }

  /** An edge before `res[k]` stays inside or outside the cut of `res[k]`. */
  lemma CutKeeps(n: nat, edges: Edges, res: seq<nat>, k: nat, j: nat)
    requires Valid(n, edges) && EdgeIds(edges, res) && j < k < |res|
    ensures !Crosses(edges[res[j]], Cut(n, edges, res, k))
  {
    LeadAcross(n, edges, res[j]);
    assert res[..k][j] == res[j];
    assert !Untouched(edges, res[..k], edges[res[j]].from);
    assert !Untouched(edges, res[..k], edges[res[j]].to);
  }

  /** Edges before `res[k]` survive dropping an edge across its cut. */
  lemma CutKeepsAll(n: nat, edges: Edges, res: seq<nat>, k: nat, ids: seq<nat>, y: nat)
    requires Valid(n, edges) && EdgeIds(edges, res) && k < |res| && y < |edges|
    requires Crosses(edges[y], Cut(n, edges, res, k))
    requires forall j :: 0 <= j < k ==> res[j] in ids
    ensures forall j :: 0 <= j < k ==> res[j] in Without(ids, y)
  {
    forall j | 0 <= j < k
      ensures res[j] in Without(ids, y)
    {
      CutKeeps(n, edges, res, k, j);
    }
  }

  /** A greedy edge weighs no more than any edge across its cut. */
  lemma GreedyLighter(n: nat, edges: Edges, weights: seq<real>, res: seq<nat>, k: nat, y: nat)
    requires EdgeIds(edges, res) && |weights| == |edges| && k < |res| && y < |edges|
    requires GreedyAt(n, edges, weights, res, k)
    requires Crosses(edges[y], Cut(n, edges, res, k))
    ensures weights[res[k]] <= weights[y]
  {
  }

  /** A spanning forest without the greedy edge `res[k]` holds an edge
      across its cut whose removal parts the endpoints of `res[k]`. */
  lemma GreedyBridge(n: nat, edges: Edges, weights: seq<real>, res: seq<nat>, k: nat, ids: seq<nat>)
    returns (y: nat, u: nat, v: nat)
    requires Valid(n, edges) && |weights| == |edges| && EdgeIds(edges, res) && k < |res|
    requires GreedyAt(n, edges, weights, res, k) && Forestlike(n, edges, ids)
    ensures y in ids && y < |edges| && Crosses(edges[y], Cut(n, edges, res, k))
    ensures (u, v) == (edges[res[k]].from, edges[res[k]].to) || (u, v) == (edges[res[k]].to, edges[res[k]].from)
    ensures Reach(Picked(edges, ids), u, v)
    ensures !Reach(Picked(edges, Without(ids, y)), u, v)
  {
    var cut := Cut(n, edges, res, k);
    var e := res[k];
    assert Crosses(edges[e], cut);
    u, v := edges[e].from, edges[e].to;
    assert Reach(Picked(edges, ids), u, v);
    if u !in cut {
      PickedValid(n, edges, ids);
      ReachSym(n, Picked(edges, ids), u, v);
      u, v := v, u;
    }
    y := FindCrossingBridge(n, edges, ids, cut, u, v);
  }

  /** The cut property: a spanning forest holding the greedy edges before
      `res[k]` trades one of its edges for `res[k]` without getting heavier. */
  lemma ExchangeStep(n: nat, edges: Edges, weights: seq<real>, res: seq<nat>, k: nat, ids: seq<nat>)
    returns (next: seq<nat>)
    requires Valid(n, edges) && |weights| == |edges| && EdgeIds(edges, res) && k < |res|
    requires GreedyAt(n, edges, weights, res, k)
    requires Forestlike(n, edges, ids) && forall j :: 0 <= j < k ==> res[j] in ids
    ensures Forestlike(n, edges, next) && |next| == |ids|
    ensures forall j :: 0 <= j <= k ==> res[j] in next
    ensures Weight(weights, next) <= Weight(weights, ids)
  {
    var e := res[k];
    if e in ids {
      next := ids;
    } else {
      var y, u, v := GreedyBridge(n, edges, weights, res, k, ids);
      ExchangeSpans(n, edges, ids, y, e, u, v);
      CutKeepsAll(n, edges, res, k, ids, y);
      GreedyLighter(n, edges, weights, res, k, y);
      var rest := Without(ids, y);
      next := rest + [e];
      WithoutOne(ids, y);
      WithoutWeight(weights, ids, y);
      WeightAppend(weights, rest, e);
    }
  }

  /** Any spanning forest is at least as heavy as a greedy one. */
  lemma GreedyBelow(n: nat, edges: Edges, weights: seq<real>, res: seq<nat>, other: seq<nat>)
    requires Valid(n, edges) && |weights| == |edges|
    requires SpanningForest(n, edges, res) && Greedy(n, edges, weights, res)
    requires Forestlike(n, edges, other)
    ensures Weight(weights, res) <= Weight(weights, other)
  {
    GrowsDistinct(edges, res);
    var ids := other;
    var k := 0;
    while k < |res|
      invariant k <= |res| && Forestlike(n, edges, ids) && |ids| == |other|
      invariant forall j :: 0 <= j < k ==> res[j] in ids
      invariant Weight(weights, ids) <= Weight(weights, other)
      decreases |res| - k
    {
      assert GreedyAt(n, edges, weights, res, k);
      ids := ExchangeStep(n, edges, weights, res, k, ids);
      k := k + 1;
    }
    SameWeight(weights, res, ids);
  }

  /** A greedy spanning forest is a minimum spanning forest. */
  lemma GreedyMinimal(n: nat, edges: Edges, weights: seq<real>, res: seq<nat>)
    requires Valid(n, edges) && |weights| == |edges|
    requires SpanningForest(n, edges, res) && Greedy(n, edges, weights, res)
    ensures Minimal(n, edges, weights, res)
  {
    forall other | Forestlike(n, edges, other)
      ensures Weight(weights, res) <= Weight(weights, other)
    {
      GreedyBelow(n, edges, weights, res, other);
    }
  }
}

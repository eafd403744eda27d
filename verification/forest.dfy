/** Undirected graphs as edge lists and what a spanning forest of one is.

    Edge `e` joins `edges[e].from` and `edges[e].to`; direction is ignored.
    Two vertices are connected when every vertex set closed under the edges
    that holds one holds the other, so "reachable" needs no paths. */
module Forest {
  datatype Edge = Edge(from: nat, to: nat)

  type Edges = seq<Edge>

  /** Every endpoint is one of the `n` vertices. */
  predicate Valid(n: nat, edges: Edges)
  {
    forall e :: 0 <= e < |edges| ==> edges[e].from < n && edges[e].to < n
  }

  predicate Touches(edge: Edge, v: nat)
  {
    edge.from == v || edge.to == v
  }

  predicate IsLoop(edge: Edge)
  {
    edge.from == edge.to
  }

  /** The endpoint of `edge` across from `v`: the other endpoint of an edge
      at `v`, and `v` itself for a self-loop. */
  function Across(edge: Edge, v: nat): (w: nat)
    ensures Touches(edge, v) ==> Touches(edge, w) && (w == v <==> IsLoop(edge))
  {
    if v == edge.to then edge.from else edge.to
  }

  // ---------------------------------------------------------------------------
  // Incident edges
  // ---------------------------------------------------------------------------

  /** The ids below `k` of the edges at `v`, in increasing order. */
  function IncidentBelow(edges: Edges, v: nat, k: nat): (r: seq<nat>)
    requires k <= |edges|
    ensures forall j :: 0 <= j < |r| ==> r[j] < k && Touches(edges[r[j]], v)
    ensures forall e :: 0 <= e < k && Touches(edges[e], v) ==> e in r
    decreases k
  {
    if k == 0 then []
    else IncidentBelow(edges, v, k - 1) + (if Touches(edges[k - 1], v) then [k - 1] else [])
  }

  /** The ids of the edges at `v`, in increasing order. */
  function Incident(edges: Edges, v: nat): (r: seq<nat>)
    ensures forall j :: 0 <= j < |r| ==> r[j] < |edges| && Touches(edges[r[j]], v)
    ensures forall e :: 0 <= e < |edges| && Touches(edges[e], v) ==> e in r
  {
    IncidentBelow(edges, v, |edges|)
  }

  // ---------------------------------------------------------------------------
  // Connectivity
  // ---------------------------------------------------------------------------

  /** No edge leaves `s`: each edge has both endpoints in `s` or neither. */
  predicate Closed(edges: Edges, s: set<nat>)
  {
    forall e :: 0 <= e < |edges| ==> (edges[e].from in s <==> edges[e].to in s)
  }

  /** `v` is in every edge-closed vertex set that holds `u`. */
  ghost predicate Reach(edges: Edges, u: nat, v: nat)
  {
    forall s: set<nat> :: Closed(edges, s) && u in s ==> v in s
  }

  lemma ReachRefl(edges: Edges, v: nat)
    ensures Reach(edges, v, v)
  {
  }

  /** An edge at a reachable vertex leads to a reachable vertex. */
  lemma ReachStep(edges: Edges, u: nat, x: nat, e: nat)
    requires Reach(edges, u, x) && e < |edges| && Touches(edges[e], x)
    ensures Reach(edges, u, Across(edges[e], x))
  {
    forall s: set<nat> | Closed(edges, s) && u in s
      ensures Across(edges[e], x) in s
    {
      assert x in s;
      assert edges[e].from in s <==> edges[e].to in s;
    }
  }

  lemma ReachTrans(edges: Edges, u: nat, v: nat, w: nat)
    requires Reach(edges, u, v) && Reach(edges, v, w)
    ensures Reach(edges, u, w)
  {
    forall s: set<nat> | Closed(edges, s) && u in s
      ensures w in s
    {
      assert v in s;
    }
  }

  /** Connectivity is symmetric: the vertices outside a closed set form a
      closed set too. */
  lemma ReachSym(n: nat, edges: Edges, u: nat, v: nat)
    requires Valid(n, edges) && u < n && v < n && Reach(edges, u, v)
    ensures Reach(edges, v, u)
  {
    forall s: set<nat> | Closed(edges, s) && v in s
      ensures u in s
    {
      var t := set x | 0 <= x < n && x !in s;
      assert Closed(edges, t) by {
        forall e | 0 <= e < |edges|
          ensures edges[e].from in t <==> edges[e].to in t
        {
          assert edges[e].from in s <==> edges[e].to in s;
        }
      }
    }
  }

  /** More edges connect more. */
  lemma ReachMore(edges: Edges, edge: Edge, u: nat, v: nat)
    requires Reach(edges, u, v)
    ensures Reach(edges + [edge], u, v)
  {
    forall s: set<nat> | Closed(edges + [edge], s) && u in s
      ensures v in s
    {
      assert Closed(edges, s) by {
        forall e | 0 <= e < |edges|
          ensures edges[e].from in s <==> edges[e].to in s
        {
          assert (edges + [edge])[e] == edges[e];
        }
      }
    }
  }

  /** The two endpoints of an edge are connected. */
  lemma ReachEdge(edges: Edges, e: nat)
    requires e < |edges|
    ensures Reach(edges, edges[e].from, edges[e].to)
  {
    ReachRefl(edges, edges[e].from);
    ReachStep(edges, edges[e].from, edges[e].from, e);
  }

  // ---------------------------------------------------------------------------
  // Components and their roots
  // ---------------------------------------------------------------------------

  /** The least vertex from `j` on that reaches `v`. */
  ghost function LeadFrom(edges: Edges, v: nat, j: nat): (r: nat)
    requires j <= v
    ensures j <= r <= v && Reach(edges, r, v)
    ensures forall k :: j <= k < r ==> !Reach(edges, k, v)
    decreases v - j
  {
    if j == v then ReachRefl(edges, v); v
    else if Reach(edges, j, v) then j
    else LeadFrom(edges, v, j + 1)
  }

  /** The root of the component of `v`: its least vertex. */
  ghost function Lead(edges: Edges, v: nat): (r: nat)
    ensures r <= v && Reach(edges, r, v)
    ensures forall k :: 0 <= k < r ==> !Reach(edges, k, v)
  {
    LeadFrom(edges, v, 0)
  }

  /** Connected vertices share their root. */
  lemma LeadShared(n: nat, edges: Edges, a: nat, b: nat)
    requires Valid(n, edges) && a < n && b < n && Reach(edges, a, b)
    ensures Lead(edges, a) == Lead(edges, b)
  {
    var la, lb := Lead(edges, a), Lead(edges, b);
    ReachTrans(edges, la, a, b);
    ReachSym(n, edges, a, b);
    ReachTrans(edges, lb, b, a);
  }

  /** The endpoints of an edge share their root. */
  lemma LeadAcross(n: nat, edges: Edges, e: nat)
    requires Valid(n, edges) && e < |edges|
    ensures Lead(edges, edges[e].from) == Lead(edges, edges[e].to)
  {
    ReachEdge(edges, e);
    LeadShared(n, edges, edges[e].from, edges[e].to);
  }

  /** A root is its own root. */
  lemma LeadOfLead(n: nat, edges: Edges, v: nat)
    requires Valid(n, edges) && v < n
    ensures Lead(edges, Lead(edges, v)) == Lead(edges, v)
  {
    var l := Lead(edges, v);
    ReachSym(n, edges, l, v);
    LeadShared(n, edges, l, v);
  }

  /** The roots below `k`. */
  ghost function RootsBelow(edges: Edges, k: nat): set<nat>
  {
    set i | 0 <= i < k && Lead(edges, i) == i
  }

  /** One root per component. */
  ghost function Roots(n: nat, edges: Edges): set<nat>
  {
    RootsBelow(edges, n)
  }

  lemma RootsNext(edges: Edges, k: nat)
    ensures RootsBelow(edges, k + 1) == RootsBelow(edges, k) + (if Lead(edges, k) == k then {k} else {})
    ensures k !in RootsBelow(edges, k)
  {
  }

  // ---------------------------------------------------------------------------
  // Spanning forests
  // ---------------------------------------------------------------------------

  predicate EdgeIds(edges: Edges, ids: seq<nat>)
  {
    forall k :: 0 <= k < |ids| ==> ids[k] < |edges|
  }

  /** The edges with ids `ids`, in that order. */
  function Picked(edges: Edges, ids: seq<nat>): (r: Edges)
    requires EdgeIds(edges, ids)
    ensures |r| == |ids| && forall k :: 0 <= k < |ids| ==> r[k] == edges[ids[k]]
  {
    seq(|ids|, k requires 0 <= k < |ids| => edges[ids[k]])
  }

  /** No edge among `ids` touches `v`. */
  predicate Untouched(edges: Edges, ids: seq<nat>, v: nat)
    requires EdgeIds(edges, ids)
  {
    forall k :: 0 <= k < |ids| ==> !Touches(edges[ids[k]], v)
  }

  /** Every edge among `ids` brings in a vertex that no earlier one touches:
      the edges are added one at a time, each hanging a new vertex onto what
      is there, so they form a forest. */
  predicate Grows(edges: Edges, ids: seq<nat>)
    requires EdgeIds(edges, ids)
    decreases |ids|
  {
    |ids| == 0 ||
    var prev := ids[..|ids| - 1];
    var last := edges[ids[|ids| - 1]];
    && Grows(edges, prev)
    && (Untouched(edges, prev, last.from) || Untouched(edges, prev, last.to))
  }

  predicate NoLoops(edges: Edges, ids: seq<nat>)
    requires EdgeIds(edges, ids)
  {
    forall k :: 0 <= k < |ids| ==> !IsLoop(edges[ids[k]])
  }

  /** `res` is a spanning forest of the graph: it grows as a forest without
      self-loops, has one edge fewer than vertices per component, and joins
      the endpoints of every edge of the graph. */
  ghost predicate SpanningForest(n: nat, edges: Edges, res: seq<nat>)
  {
    && EdgeIds(edges, res)
    && Grows(edges, res)
    && NoLoops(edges, res)
    && |res| + |Roots(n, edges)| == n
    && forall e :: 0 <= e < |edges| ==> Reach(Picked(edges, res), edges[e].from, edges[e].to)
  }

  /** Extending a growing forest by an edge with an untouched endpoint. */
  lemma GrowsAppend(edges: Edges, ids: seq<nat>, e: nat, v: nat)
    requires EdgeIds(edges, ids) && Grows(edges, ids) && e < |edges|
    requires Touches(edges[e], v) && Untouched(edges, ids, v)
    ensures EdgeIds(edges, ids + [e]) && Grows(edges, ids + [e])
  {
    assert (ids + [e])[..|ids|] == ids;
  }

  /** No edge id occurs twice in a growing forest: its second occurrence
      would bring in nothing new. */
  lemma {:induction false} GrowsDistinct(edges: Edges, ids: seq<nat>)
    requires EdgeIds(edges, ids) && Grows(edges, ids)
    ensures forall j, k :: 0 <= j < k < |ids| ==> ids[j] != ids[k]
    decreases |ids|
  {
    if |ids| > 0 {
      var m := |ids| - 1;
      var prev := ids[..m];
      GrowsDistinct(edges, prev);
      forall j, k | 0 <= j < k < |ids|
        ensures ids[j] != ids[k]
      {
        if k == m {
          assert prev[j] == ids[j];
        } else {
          assert prev[j] == ids[j] && prev[k] == ids[k];
        }
      }
    }
  }

  /** The vertices the edges `ids` touch. */
  function Ends(edges: Edges, ids: seq<nat>): set<nat>
    requires EdgeIds(edges, ids)
    decreases |ids|
  {
    if |ids| == 0 then {}
    else
      var last := edges[ids[|ids| - 1]];
      Ends(edges, ids[..|ids| - 1]) + {last.from, last.to}
  }

  lemma {:induction false} EndsTouch(edges: Edges, ids: seq<nat>, v: nat)
    requires EdgeIds(edges, ids)
    ensures v in Ends(edges, ids) <==> !Untouched(edges, ids, v)
    decreases |ids|
  {
    if |ids| > 0 {
      var m := |ids| - 1;
      EndsTouch(edges, ids[..m], v);
      assert forall k :: 0 <= k < m ==> ids[..m][k] == ids[k];
    }
  }

  lemma {:induction false} EndsBelow(n: nat, edges: Edges, ids: seq<nat>)
    requires Valid(n, edges) && EdgeIds(edges, ids)
    ensures Ends(edges, ids) <= Vertices(n)
    decreases |ids|
  {
    if |ids| > 0 {
      EndsBelow(n, edges, ids[..|ids| - 1]);
    }
  }

  /** A nonempty growing forest without self-loops touches one vertex more
      than it has edges. */
  lemma {:induction false} GrowsEnds(edges: Edges, ids: seq<nat>)
    requires EdgeIds(edges, ids) && Grows(edges, ids) && NoLoops(edges, ids) && |ids| > 0
    ensures |Ends(edges, ids)| >= |ids| + 1
    decreases |ids|
  {
    var m := |ids| - 1;
    var prev := ids[..m];
    var last := edges[ids[m]];
    assert !IsLoop(last);
    assert NoLoops(edges, prev) by {
      forall k | 0 <= k < m
        ensures !IsLoop(edges[prev[k]])
      {
        assert prev[k] == ids[k];
      }
    }
    if m == 0 {
      assert Ends(edges, ids) == {last.from, last.to};
    } else {
      GrowsEnds(edges, prev);
      EndsTouch(edges, prev, last.from);
      EndsTouch(edges, prev, last.to);
      var novel := if last.from !in Ends(edges, prev) then last.from else last.to;
      assert Ends(edges, prev) + {novel} <= Ends(edges, ids);
    }
  }

  /** A forest on `n` vertices has fewer than `n` edges, and none on an empty graph. */
  lemma ForestSize(n: nat, edges: Edges, ids: seq<nat>)
    requires Valid(n, edges) && EdgeIds(edges, ids) && Grows(edges, ids) && NoLoops(edges, ids)
    ensures |ids| == 0 || |ids| < n
  {
    if |ids| > 0 {
      GrowsEnds(edges, ids);
      EndsBelow(n, edges, ids);
      SubsetSize(Ends(edges, ids), Vertices(n));
    }
  }

  /** The vertices `0 .. n - 1`. */
  function Vertices(n: nat): (r: set<nat>)
    ensures |r| == n && forall v: nat :: v in r <==> v < n
  {
    if n == 0 then {}
    else
      var below := Vertices(n - 1);
      assert n - 1 !in below;
      below + {n - 1}
  }

  lemma {:induction false} SubsetSize(a: set<nat>, b: set<nat>)
    requires a <= b
    ensures |a| <= |b|
    decreases |b|
  {
    if a != {} {
      var x :| x in a;
      SubsetSize(a - {x}, b - {x});
    }
  }

  // ---------------------------------------------------------------------------
  // Visit flags
  // ---------------------------------------------------------------------------

  /** How many flags are set. */
  function CountTrue(flags: seq<bool>): (c: nat)
    ensures c <= |flags|
    decreases |flags|
  {
    if |flags| == 0 then 0
    else CountTrue(flags[..|flags| - 1]) + (if flags[|flags| - 1] then 1 else 0)
  }

  lemma {:induction false} CountNone(n: nat)
    ensures CountTrue(seq(n, _ => false)) == 0
    decreases n
  {
    if n > 0 {
      assert seq(n, _ => false)[..n - 1] == seq(n - 1, _ => false);
      CountNone(n - 1);
    }
  }

  /** Setting a clear flag counts one more. */
  lemma {:induction false} CountSet(flags: seq<bool>, v: nat)
    requires v < |flags| && !flags[v]
    ensures CountTrue(flags[v := true]) == CountTrue(flags) + 1
    decreases |flags|
  {
    var m := |flags| - 1;
    if v < m {
      assert flags[v := true][..m] == flags[..m][v := true];
      CountSet(flags[..m], v);
    } else {
      assert flags[v := true][..m] == flags[..m];
    }
  }

  /** With every flag set, every flag counts. */
  lemma {:induction false} CountAll(flags: seq<bool>)
    requires forall v :: 0 <= v < |flags| ==> flags[v]
    ensures CountTrue(flags) == |flags|
    decreases |flags|
  {
    if |flags| > 0 {
      CountAll(flags[..|flags| - 1]);
    }
  }

  // ---------------------------------------------------------------------------
  // The search state shared by the breadth-first forest and Prim's method
  // ---------------------------------------------------------------------------

  /** What holds of the emitted edges `res` throughout a search: they grow
      as a forest without self-loops between visited vertices, an edge is
      marked only once both its endpoints are visited, and every visited
      vertex is joined to the root of its component by emitted edges. */
  ghost predicate Emitted(n: nat, edges: Edges, added: seq<bool>, addedEdge: seq<bool>, res: seq<nat>)
    requires Valid(n, edges) && |added| == n && |addedEdge| == |edges|
  {
    && EdgeIds(edges, res) && Grows(edges, res) && NoLoops(edges, res)
    && (forall k :: 0 <= k < |res| ==> added[edges[res[k]].from] && added[edges[res[k]].to])
    && (forall e :: 0 <= e < |edges| && addedEdge[e] ==> added[edges[e].from] && added[edges[e].to])
    && (forall v :: 0 <= v < n && added[v] ==> Reach(Picked(edges, res), Lead(edges, v), v))
  }

  /** The state before the outer loop looks at vertex `i`: exactly the
      components whose roots are below `i` are visited, and every root so far
      started a tree. */
  ghost predicate Between(n: nat, edges: Edges, i: nat, added: seq<bool>, addedEdge: seq<bool>, res: seq<nat>)
  {
    && Valid(n, edges) && i <= n && |added| == n && |addedEdge| == |edges|
    && (forall v :: 0 <= v < n ==> (added[v] <==> Lead(edges, v) < i))
    && Emitted(n, edges, added, addedEdge, res)
    && |res| + |RootsBelow(edges, i)| == CountTrue(added)
  }

  /** The state inside the tree of root `r` that does not depend on how the
      frontier is kept: the earlier components are visited, nothing of a
      later one is, and `r` and the emitted edges so far count every visited
      vertex. */
  ghost predicate InTree(n: nat, edges: Edges, r: nat, added: seq<bool>, addedEdge: seq<bool>, res: seq<nat>)
  {
    && Valid(n, edges) && r < n && Lead(edges, r) == r && |added| == n && |addedEdge| == |edges|
    && (forall v :: 0 <= v < n ==> (Lead(edges, v) < r ==> added[v]) && (added[v] ==> Lead(edges, v) <= r))
    && added[r]
    && Emitted(n, edges, added, addedEdge, res)
    && |res| + |RootsBelow(edges, r + 1)| == CountTrue(added)
  }

  /** No vertex is visited before the search starts. */
  lemma BetweenStart(n: nat, edges: Edges)
    requires Valid(n, edges)
    ensures Between(n, edges, 0, seq(n, _ => false), seq(|edges|, _ => false), [])
  {
    CountNone(n);
    assert RootsBelow(edges, 0) == {};
  }

  /** Between trees an edge has both endpoints visited or neither. */
  lemma BetweenClosed(n: nat, edges: Edges, i: nat, added: seq<bool>, addedEdge: seq<bool>, res: seq<nat>)
    requires Between(n, edges, i, added, addedEdge, res)
    ensures forall e :: 0 <= e < |edges| ==> (added[edges[e].from] <==> added[edges[e].to])
  {
    forall e | 0 <= e < |edges|
      ensures added[edges[e].from] <==> added[edges[e].to]
    {
      LeadAcross(n, edges, e);
    }
  }

  /** A vertex visited by an earlier tree is not a root. */
  lemma BetweenSkip(n: nat, edges: Edges, i: nat, added: seq<bool>, addedEdge: seq<bool>, res: seq<nat>)
    requires Between(n, edges, i, added, addedEdge, res) && i < n && added[i]
    ensures Between(n, edges, i + 1, added, addedEdge, res)
  {
    RootsNext(edges, i);
    forall v | 0 <= v < n
      ensures added[v] <==> Lead(edges, v) < i + 1
    {
      LeadOfLead(n, edges, v);
    }
  }

  /** A vertex no earlier tree visited is a root and starts a tree. */
  lemma BetweenPlant(n: nat, edges: Edges, i: nat, added: seq<bool>, addedEdge: seq<bool>, res: seq<nat>)
    requires Between(n, edges, i, added, addedEdge, res) && i < n && !added[i]
    ensures InTree(n, edges, i, added[i := true], addedEdge, res)
    ensures forall v :: 0 <= v < n && v != i ==> (added[v] <==> Lead(edges, v) < i)
  {
    assert Lead(edges, i) == i;
    ReachRefl(Picked(edges, res), i);
    EmittedMark(n, edges, added, addedEdge, res, i);
    RootCount(edges, i, added, |res|);
  }

  /** A new root adds one to the roots and one to the visited vertices. */
  lemma RootCount(edges: Edges, i: nat, added: seq<bool>, c: nat)
    requires i < |added| && !added[i] && Lead(edges, i) == i
    requires c + |RootsBelow(edges, i)| == CountTrue(added)
    ensures c + |RootsBelow(edges, i + 1)| == CountTrue(added[i := true])
  {
    RootsNext(edges, i);
    CountSet(added, i);
  }

  /** Visiting a vertex joined to its root by emitted edges keeps
      `Emitted`. */
  lemma EmittedMark(n: nat, edges: Edges, added: seq<bool>, addedEdge: seq<bool>, res: seq<nat>, v: nat)
    requires Valid(n, edges) && |added| == n && |addedEdge| == |edges| && v < n
    requires Emitted(n, edges, added, addedEdge, res) && Reach(Picked(edges, res), Lead(edges, v), v)
    ensures Emitted(n, edges, added[v := true], addedEdge, res)
  {
  }

  /** A tree whose visited set is closed under the edges holds its whole
      component, so the search moves on to the next vertex. */
  lemma TreeDone(n: nat, edges: Edges, r: nat, added: seq<bool>, addedEdge: seq<bool>, res: seq<nat>)
    requires InTree(n, edges, r, added, addedEdge, res)
    requires forall e :: 0 <= e < |edges| ==> (added[edges[e].from] <==> added[edges[e].to])
    ensures Between(n, edges, r + 1, added, addedEdge, res)
  {
    var s := set v | 0 <= v < n && added[v];
    assert Closed(edges, s);
    forall v | 0 <= v < n && Lead(edges, v) == r
      ensures added[v]
    {
      assert r in s;
      assert v in s;
    }
  }

  /** Visiting the unvisited vertex `to` across edge `e` from the visited
      vertex `x` of the tree of root `r`, and emitting `e`. */
  lemma EmitAcross(n: nat, edges: Edges, r: nat, added: seq<bool>, addedEdge: seq<bool>, res: seq<nat>, x: nat, e: nat)
    requires InTree(n, edges, r, added, addedEdge, res)
    requires x < n && added[x] && Lead(edges, x) == r && e < |edges| && Touches(edges[e], x)
    requires !added[Across(edges[e], x)]
    ensures Lead(edges, Across(edges[e], x)) == r && Across(edges[e], x) != x
    ensures InTree(n, edges, r, added[Across(edges[e], x) := true], addedEdge[e := true], res + [e])
    ensures CountTrue(added[Across(edges[e], x) := true]) == CountTrue(added) + 1
  {
    var to := Across(edges[e], x);
    LeadAcross(n, edges, e);
    CountSet(added, to);
    EmitGrows(n, edges, added, addedEdge, res, x, e);
    EmitEnds(n, edges, added, addedEdge, res, x, e);
    EmitReach(n, edges, r, added, res, x, e);
    assert Emitted(n, edges, added[to := true], addedEdge[e := true], res + [e]);
    InTreeGrow(n, edges, r, added, addedEdge, res, to, addedEdge[e := true], res + [e]);
  }

  /** Visiting one more vertex of the tree of `r`, with one more emitted
      edge, keeps `InTree`. */
  lemma InTreeGrow(n: nat, edges: Edges, r: nat, added: seq<bool>, addedEdge: seq<bool>, res: seq<nat>,
                   to: nat, addedEdge': seq<bool>, res': seq<nat>)
    requires InTree(n, edges, r, added, addedEdge, res)
    requires to < n && Lead(edges, to) == r && |addedEdge'| == |edges| && |res'| == |res| + 1
    requires Emitted(n, edges, added[to := true], addedEdge', res')
    requires CountTrue(added[to := true]) == CountTrue(added) + 1
    ensures InTree(n, edges, r, added[to := true], addedEdge', res')
  {
  }

  /** The forest part of `Emitted` after emitting `e` towards the unvisited
      endpoint. */
  lemma EmitGrows(n: nat, edges: Edges, added: seq<bool>, addedEdge: seq<bool>, res: seq<nat>, x: nat, e: nat)
    requires Valid(n, edges) && |added| == n && |addedEdge| == |edges|
    requires Emitted(n, edges, added, addedEdge, res)
    requires x < n && added[x] && e < |edges| && Touches(edges[e], x)
    requires !added[Across(edges[e], x)]
    ensures EdgeIds(edges, res + [e]) && Grows(edges, res + [e]) && NoLoops(edges, res + [e])
  {
    var to := Across(edges[e], x);
    forall k | 0 <= k < |res|
      ensures !Touches(edges[res[k]], to)
    {
    }
    GrowsAppend(edges, res, e, to);
  }

  /** The endpoint part of `Emitted` after emitting `e` towards the
      unvisited endpoint. */
  lemma EmitEnds(n: nat, edges: Edges, added: seq<bool>, addedEdge: seq<bool>, res: seq<nat>, x: nat, e: nat)
    requires Valid(n, edges) && |added| == n && |addedEdge| == |edges|
    requires Emitted(n, edges, added, addedEdge, res)
    requires x < n && added[x] && e < |edges| && Touches(edges[e], x)
    ensures EdgeIds(edges, res + [e])
    ensures var added' := added[Across(edges[e], x) := true];
      && (forall k :: 0 <= k < |res| + 1 ==> added'[edges[(res + [e])[k]].from] && added'[edges[(res + [e])[k]].to])
      && (forall d :: 0 <= d < |edges| && addedEdge[e := true][d] ==> added'[edges[d].from] && added'[edges[d].to])
  {
  }

  /** The reach part of `Emitted` after emitting `e` towards the unvisited
      endpoint: the new vertex hangs off `x`. */
  lemma EmitReach(n: nat, edges: Edges, r: nat, added: seq<bool>, res: seq<nat>, x: nat, e: nat)
    requires Valid(n, edges) && |added| == n && EdgeIds(edges, res)
    requires forall v :: 0 <= v < n && added[v] ==> Reach(Picked(edges, res), Lead(edges, v), v)
    requires x < n && added[x] && Lead(edges, x) == r && e < |edges| && Touches(edges[e], x)
    requires Lead(edges, Across(edges[e], x)) == r
    ensures EdgeIds(edges, res + [e])
    ensures forall v :: 0 <= v < n && added[Across(edges[e], x) := true][v] ==>
      Reach(Picked(edges, res + [e]), Lead(edges, v), v)
  {
    var to := Across(edges[e], x);
    var added' := added[to := true];
    var p, p' := Picked(edges, res), Picked(edges, res + [e]);
    assert p' == p + [edges[e]];
    forall v | 0 <= v < n && added'[v]
      ensures Reach(p', Lead(edges, v), v)
    {
      if v == to {
        ReachMore(p, edges[e], r, x);
        assert p'[|res|] == edges[e];
        ReachStep(p', r, x, |res|);
      } else {
        ReachMore(p, edges[e], Lead(edges, v), v);
      }
    }
  }

  /** When every component has been searched the emitted edges are a
      spanning forest. */
  lemma BetweenDone(n: nat, edges: Edges, added: seq<bool>, addedEdge: seq<bool>, res: seq<nat>)
    requires Between(n, edges, n, added, addedEdge, res)
    ensures SpanningForest(n, edges, res)
  {
    CountAll(added);
    var p := Picked(edges, res);
    assert Valid(n, p);
    forall e | 0 <= e < |edges|
      ensures Reach(p, edges[e].from, edges[e].to)
    {
      var a, b := edges[e].from, edges[e].to;
      LeadAcross(n, edges, e);
      var l := Lead(edges, a);
      ReachSym(n, p, l, a);
      ReachTrans(p, a, l, b);
    }
  }
}

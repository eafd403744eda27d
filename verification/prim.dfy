/**
  Prim's method for a weighted graph: every vertex not yet reached starts a
  tree, and the tree grows by the lightest edge waiting in a heap of edges
  leaving it.  The heap orders entries by the negated weight, so its largest
  entry is the lightest edge.
*/
module Prim {
  import opened Forest
  import opened Optimal
  import Unweighted

  /** The weights argument, which may be absent. */
  datatype Weighting = Absent | Given(weights: seq<real>)

  /** The outcome: the emitted edge identifiers, or the error for a weight
      vector whose length is not the number of edges. */
  datatype Status = Success(res: seq<nat>) | Einval

  /** A heap entry: its priority, the tree vertex it was pushed from, and
      the edge leaving that vertex. */
  datatype Entry = Entry(prio: real, from: nat, edge: nat)

  /** The position of the first entry of greatest priority among the first
      `m` entries. */
  function TopBelow(heap: seq<Entry>, m: nat): (k: nat)
    requires 0 < m <= |heap|
    ensures k < m
    ensures forall j :: 0 <= j < m ==> heap[j].prio <= heap[k].prio
    ensures forall j :: 0 <= j < k ==> heap[j].prio < heap[k].prio
  {
    if m == 1 then 0
    else
      var k := TopBelow(heap, m - 1);
      if heap[k].prio < heap[m - 1].prio then m - 1 else k
  }

  /** The position of the entry the heap yields next. */
  function Top(heap: seq<Entry>): (k: nat)
    requires |heap| > 0
    ensures k < |heap| && forall j :: 0 <= j < |heap| ==> heap[j].prio <= heap[k].prio
  {
    TopBelow(heap, |heap|)
  }

  /** The heap with the entry at `k` taken out. */
  function Remove(heap: seq<Entry>, k: nat): (r: seq<Entry>)
    requires k < |heap|
    ensures |r| == |heap| - 1
    ensures forall j :: 0 <= j < k ==> r[j] == heap[j]
    ensures forall j :: k < j < |heap| ==> r[j - 1] == heap[j]
  {
    heap[..k] + heap[k + 1..]
  }

  /** Edge `e` waits in the heap as an edge leaving `x`. */
  ghost predicate Waiting(heap: seq<Entry>, x: nat, e: nat)
  {
    exists k :: 0 <= k < |heap| && heap[k].from == x && heap[k].edge == e
  }

  /** Every edge from a visited vertex to an unvisited one waits in the
      heap as an edge leaving the visited end, except for the vertices in
      `busy`, whose edges are still being pushed. */
  ghost predicate Pending(edges: Edges, added: seq<bool>, heap: seq<Entry>, busy: seq<nat>)
    requires Valid(|added|, edges)
  {
    forall e :: 0 <= e < |edges| ==>
      && (added[edges[e].from] && edges[e].from !in busy && !added[edges[e].to] ==> Waiting(heap, edges[e].from, e))
      && (added[edges[e].to] && edges[e].to !in busy && !added[edges[e].from] ==> Waiting(heap, edges[e].to, e))
  }

  /** The state of the search inside the tree of root `r`: every entry is an
      edge of a visited vertex of that tree. */
  ghost predicate Heaped(n: nat, edges: Edges, r: nat, added: seq<bool>, addedEdge: seq<bool>, res: seq<nat>, heap: seq<Entry>)
  {
    && InTree(n, edges, r, added, addedEdge, res)
    && forall k :: 0 <= k < |heap| ==>
      && heap[k].from < n && added[heap[k].from] && Lead(edges, heap[k].from) == r
      && heap[k].edge < |edges| && Touches(edges[heap[k].edge], heap[k].from)
  }

  /** The neighbour the source computes for an edge of `v` is the other end
      of the edge. */
  lemma NeighbourIsAcross(edge: Edge, v: nat)
    requires Touches(edge, v)
    ensures (if edge.from != v then edge.from else edge.to) == Across(edge, v)
  {
  }

  /** Pushing an entry keeps every waiting edge waiting. */
  lemma PendingPush(edges: Edges, added: seq<bool>, heap: seq<Entry>, busy: seq<nat>, entry: Entry)
    requires Valid(|added|, edges) && Pending(edges, added, heap, busy)
    ensures Pending(edges, added, heap + [entry], busy)
    ensures Waiting(heap + [entry], entry.from, entry.edge)
  {
    var heap' := heap + [entry];
    assert heap'[|heap|] == entry;
    forall x, e | Waiting(heap, x, e)
      ensures Waiting(heap', x, e)
    {
      var k :| 0 <= k < |heap| && heap[k].from == x && heap[k].edge == e;
      assert heap'[k] == heap[k];
    }
  }

  /** An entry other than the one removed still waits afterwards. */
  lemma WaitingRemove(heap: seq<Entry>, k: nat, x: nat, e: nat)
    requires k < |heap| && Waiting(heap, x, e) && !(heap[k].from == x && heap[k].edge == e)
    ensures Waiting(Remove(heap, k), x, e)
  {
    var j :| 0 <= j < |heap| && heap[j].from == x && heap[j].edge == e;
    if j < k {
      assert Remove(heap, k)[j] == heap[j];
    } else {
      assert Remove(heap, k)[j - 1] == heap[j];
    }
  }

  /** Once every edge of `v` leads to a visited vertex or waits in the heap,
      `v` is no longer busy. */
  lemma PendingRelease(edges: Edges, added: seq<bool>, heap: seq<Entry>, v: nat)
    requires Valid(|added|, edges) && Pending(edges, added, heap, [v])
    requires forall k :: 0 <= k < |Incident(edges, v)| ==>
      added[Across(edges[Incident(edges, v)[k]], v)] || Waiting(heap, v, Incident(edges, v)[k])
    ensures Pending(edges, added, heap, [])
  {
    var inc := Incident(edges, v);
    forall e | 0 <= e < |edges| && Touches(edges[e], v)
      ensures added[Across(edges[e], v)] || Waiting(heap, v, e)
    {
      assert e in inc;
      var k :| 0 <= k < |inc| && inc[k] == e;
    }
  }

  /** A root not visited by an earlier tree starts with an empty heap and
      its own edges still to push. */
  lemma HeapStart(n: nat, edges: Edges, i: nat, added: seq<bool>, addedEdge: seq<bool>, res: seq<nat>)
    requires Between(n, edges, i, added, addedEdge, res) && i < n && !added[i]
    ensures Heaped(n, edges, i, added[i := true], addedEdge, res, [])
    ensures Pending(edges, added[i := true], [], [i])
  {
    BetweenPlant(n, edges, i, added, addedEdge, res);
    BetweenClosed(n, edges, i, added, addedEdge, res);
  }

  /** Popping an entry whose far end is visited already drops it. */
  lemma PopSkip(n: nat, edges: Edges, r: nat, added: seq<bool>, addedEdge: seq<bool>, res: seq<nat>, heap: seq<Entry>, k: nat)
    requires Heaped(n, edges, r, added, addedEdge, res, heap) && Pending(edges, added, heap, []) && k < |heap|
    requires added[Across(edges[heap[k].edge], heap[k].from)]
    ensures Heaped(n, edges, r, added, addedEdge, res, Remove(heap, k))
    ensures Pending(edges, added, Remove(heap, k), [])
  {
    var rest := Remove(heap, k);
    forall j | 0 <= j < |rest|
      ensures rest[j] == heap[if j < k then j else j + 1]
    {
    }
    forall e | 0 <= e < |edges|
      ensures added[edges[e].from] && !added[edges[e].to] ==> Waiting(rest, edges[e].from, e)
      ensures added[edges[e].to] && !added[edges[e].from] ==> Waiting(rest, edges[e].to, e)
    {
      if added[edges[e].from] && !added[edges[e].to] {
        WaitingRemove(heap, k, edges[e].from, e);
      }
      if added[edges[e].to] && !added[edges[e].from] {
        WaitingRemove(heap, k, edges[e].to, e);
      }
    }
  }

  /** Popping an entry whose far end `to` is unvisited emits its edge and
      visits `to`, whose own edges are then still to push. */
  lemma PopEmit(n: nat, edges: Edges, r: nat, added: seq<bool>, addedEdge: seq<bool>, res: seq<nat>, heap: seq<Entry>, k: nat)
    requires Heaped(n, edges, r, added, addedEdge, res, heap) && Pending(edges, added, heap, []) && k < |heap|
    requires !added[Across(edges[heap[k].edge], heap[k].from)]
    ensures var to, e := Across(edges[heap[k].edge], heap[k].from), heap[k].edge;
      && Lead(edges, to) == r && to < n
      && Heaped(n, edges, r, added[to := true], addedEdge[e := true], res + [e], Remove(heap, k))
      && Pending(edges, added[to := true], Remove(heap, k), [to])
      && CountTrue(added[to := true]) == CountTrue(added) + 1
  {
    var x, e := heap[k].from, heap[k].edge;
    var to := Across(edges[e], x);
    EmitAcross(n, edges, r, added, addedEdge, res, x, e);
    var rest := Remove(heap, k);
    forall j | 0 <= j < |rest|
      ensures rest[j] == heap[if j < k then j else j + 1]
    {
    }
    PendingEmit(edges, added, heap, k, to);
  }

  /** After visiting `to`, every edge across from the other visited vertices
      still waits, with the popped entry gone. */
  lemma PendingEmit(edges: Edges, added: seq<bool>, heap: seq<Entry>, k: nat, to: nat)
    requires Valid(|added|, edges) && Pending(edges, added, heap, []) && k < |heap| && heap[k].edge < |edges|
    requires to == Across(edges[heap[k].edge], heap[k].from) && !added[to]
    ensures Pending(edges, added[to := true], Remove(heap, k), [to])
  {
    var rest := Remove(heap, k);
    var added' := added[to := true];
    forall d | 0 <= d < |edges|
      ensures added'[edges[d].from] && edges[d].from != to && !added'[edges[d].to] ==> Waiting(rest, edges[d].from, d)
      ensures added'[edges[d].to] && edges[d].to != to && !added'[edges[d].from] ==> Waiting(rest, edges[d].to, d)
    {
      if added'[edges[d].from] && edges[d].from != to && !added'[edges[d].to] {
        WaitingRemove(heap, k, edges[d].from, d);
      }
      if added'[edges[d].to] && edges[d].to != to && !added'[edges[d].from] {
        WaitingRemove(heap, k, edges[d].to, d);
      }
    }
  }

  /** The heap is empty once the tree of `r` is complete. */
  lemma HeapDone(n: nat, edges: Edges, r: nat, added: seq<bool>, addedEdge: seq<bool>, res: seq<nat>)
    requires Heaped(n, edges, r, added, addedEdge, res, []) && Pending(edges, added, [], [])
    ensures Between(n, edges, r + 1, added, addedEdge, res)
  {
    TreeDone(n, edges, r, added, addedEdge, res);
  }

  // ---------------------------------------------------------------------------
  // Why the emitted edges are lightest across their cuts
  // ---------------------------------------------------------------------------

  /** Every entry's priority is the negated weight of its edge. */
  ghost predicate Prioritised(weights: seq<real>, heap: seq<Entry>)
  {
    forall k :: 0 <= k < |heap| ==> heap[k].edge < |weights| && heap[k].prio == -weights[heap[k].edge]
  }

  /** In the component of `r`, the visited vertices are `r` and the vertices
      the emitted edges touch: the vertex set of the tree being grown. */
  ghost predicate Marked(n: nat, edges: Edges, r: nat, added: seq<bool>, res: seq<nat>)
  {
    && |added| == n && EdgeIds(edges, res)
    && forall v :: 0 <= v < n && Lead(edges, v) == r ==> (added[v] <==> v == r || !Untouched(edges, res, v))
  }

  lemma PrioritisedRemove(weights: seq<real>, heap: seq<Entry>, k: nat)
    requires Prioritised(weights, heap) && k < |heap|
    ensures Prioritised(weights, Remove(heap, k))
  {
    var rest := Remove(heap, k);
    forall j | 0 <= j < |rest|
      ensures rest[j] == heap[if j < k then j else j + 1]
    {
    }
  }

  /** A new root is the whole of its tree. */
  lemma MarkedStart(n: nat, edges: Edges, i: nat, added: seq<bool>, addedEdge: seq<bool>, res: seq<nat>)
    requires Between(n, edges, i, added, addedEdge, res) && i < n && !added[i]
    ensures Marked(n, edges, i, added[i := true], res)
  {
    forall v | 0 <= v < n && Lead(edges, v) == i && v != i
      ensures Untouched(edges, res, v)
    {
      forall k | 0 <= k < |res|
        ensures !Touches(edges[res[k]], v)
      {
        assert added[edges[res[k]].from] && added[edges[res[k]].to];
      }
    }
  }

  /** Emitting `e` from the tree vertex `x` adds the far end of `e` to the
      tree. */
  lemma MarkedEmit(n: nat, edges: Edges, r: nat, added: seq<bool>, res: seq<nat>, x: nat, e: nat)
    requires Valid(n, edges) && Marked(n, edges, r, added, res)
    requires x < n && added[x] && e < |edges| && Touches(edges[e], x)
    ensures Marked(n, edges, r, added[Across(edges[e], x) := true], res + [e])
  {
    var to := Across(edges[e], x);
    var res' := res + [e];
    forall v | 0 <= v < n && Lead(edges, v) == r
      ensures added[to := true][v] <==> v == r || !Untouched(edges, res', v)
    {
      assert res'[|res|] == e;
      assert Untouched(edges, res', v) <==> Untouched(edges, res, v) && !Touches(edges[e], v) by {
        assert forall k :: 0 <= k < |res| ==> res'[k] == res[k];
      }
    }
  }

  /** Emitting an edge leaves the cuts of the edges before it alone. */
  lemma GreedyExtend(n: nat, edges: Edges, weights: seq<real>, res: seq<nat>, e: nat)
    requires EdgeIds(edges, res) && |weights| == |edges| && e < |edges|
    requires Greedy(n, edges, weights, res)
    ensures EdgeIds(edges, res + [e])
    ensures forall k :: 0 <= k < |res| ==> GreedyAt(n, edges, weights, res + [e], k)
  {
    var res' := res + [e];
    forall k | 0 <= k < |res|
      ensures GreedyAt(n, edges, weights, res', k)
    {
      assert res'[..k] == res[..k];
      assert res'[k] == res[k];
      assert Cut(n, edges, res', k) == Cut(n, edges, res, k);
      assert GreedyAt(n, edges, weights, res, k);
    }
  }

  /** The cut of the edge being emitted is the visited part of its
      component. */
  lemma CutIsVisited(n: nat, edges: Edges, r: nat, added: seq<bool>, res: seq<nat>, x: nat, e: nat)
    requires Valid(n, edges) && Marked(n, edges, r, added, res)
    requires x < n && Lead(edges, x) == r && e < |edges| && Touches(edges[e], x)
    ensures EdgeIds(edges, res + [e])
    ensures Cut(n, edges, res + [e], |res|) == set v | 0 <= v < n && Lead(edges, v) == r && added[v]
  {
    var res' := res + [e];
    LeadAcross(n, edges, e);
    assert res'[..|res|] == res;
    assert res'[|res|] == e;
  }

  /** The top entry, leading out of the tree, is a lightest edge across the
      cut of the tree: every edge across it waits in the heap with its
      negated weight as priority, and none has a greater one. */
  lemma GreedyEmit(n: nat, edges: Edges, weights: seq<real>, r: nat, added: seq<bool>, addedEdge: seq<bool>,
                   res: seq<nat>, heap: seq<Entry>, k: nat)
    requires |weights| == |edges|
    requires Heaped(n, edges, r, added, addedEdge, res, heap) && Pending(edges, added, heap, [])
    requires Marked(n, edges, r, added, res) && Prioritised(weights, heap)
    requires k < |heap| && forall j :: 0 <= j < |heap| ==> heap[j].prio <= heap[k].prio
    requires !added[Across(edges[heap[k].edge], heap[k].from)]
    ensures EdgeIds(edges, res + [heap[k].edge])
    ensures GreedyAt(n, edges, weights, res + [heap[k].edge], |res|)
  {
    var x, e := heap[k].from, heap[k].edge;
    var res' := res + [e];
    CutIsVisited(n, edges, r, added, res, x, e);
    var cut := Cut(n, edges, res', |res|);
    assert res'[|res|] == e;
    assert x in cut;
    forall f | 0 <= f < |edges| && Crosses(edges[f], cut)
      ensures weights[e] <= weights[f]
    {
      LeadAcross(n, edges, f);
      var a := if edges[f].from in cut then edges[f].from else edges[f].to;
      assert Waiting(heap, a, f);
      var j :| 0 <= j < |heap| && heap[j].from == a && heap[j].edge == f;
    }
  }

  /** Prim's spanning forest: with weights of the right length the edge
      identifiers `res` form a spanning forest of the graph; without weights
      the breadth-first forest is returned, and a weight vector of another
      length is refused. */
  method PrimForest(n: nat, edges: Edges, weights: Weighting) returns (s: Status)
    requires Valid(n, edges)
    ensures s.Success? <==> (weights.Absent? || |weights.weights| == |edges|)
    ensures s.Success? ==> SpanningForest(n, edges, s.res)
    ensures s.Success? && weights.Given? ==> Minimal(n, edges, weights.weights, s.res)
  {
    if weights.Absent? {
      var res := Unweighted.Bfs(n, edges);
      return Success(res);
    }
    if |weights.weights| != |edges| {
      return Einval;
    }
    var res := PrimTrees(n, edges, weights.weights);
    GreedyMinimal(n, edges, weights.weights, res);
    s := Success(res);
  }

  /** The loop over the vertices: each one not visited yet roots a tree. */
  method PrimTrees(n: nat, edges: Edges, weights: seq<real>) returns (res: seq<nat>)
    requires Valid(n, edges) && |weights| == |edges|
    ensures SpanningForest(n, edges, res) && Greedy(n, edges, weights, res)
  {
    var added := seq(n, _ => false);
    var addedEdge := seq(|edges|, _ => false);
    res := [];
    BetweenStart(n, edges);
    var i := 0;
    while i < n
      invariant Between(n, edges, i, added, addedEdge, res)
      invariant Greedy(n, edges, weights, res)
    {
      if added[i] {
        BetweenSkip(n, edges, i, added, addedEdge, res);
      } else {
        added, addedEdge, res := PrimTree(n, edges, weights, i, added, addedEdge, res);
      }
      i := i + 1;
    }
    BetweenDone(n, edges, added, addedEdge, res);
  }

  /** Grows the tree of the unvisited root `i`: visits it, pushes its
      edges and pops until the heap is empty. */
  method PrimTree(n: nat, edges: Edges, weights: seq<real>, i: nat, added: seq<bool>, addedEdge: seq<bool>, res: seq<nat>)
    returns (added': seq<bool>, addedEdge': seq<bool>, res': seq<nat>)
    requires |weights| == |edges|
    requires Between(n, edges, i, added, addedEdge, res) && i < n && !added[i]
    requires Greedy(n, edges, weights, res)
    ensures Between(n, edges, i + 1, added', addedEdge', res')
    ensures Greedy(n, edges, weights, res')
  {
    HeapStart(n, edges, i, added, addedEdge, res);
    MarkedStart(n, edges, i, added, addedEdge, res);
    var heap := PushIncident(n, edges, weights, i, i, added[i := true], addedEdge, res, []);
    added', addedEdge', res' := GrowPrim(n, edges, weights, i, added[i := true], addedEdge, res, heap);
  }

  /** Pops entries until the heap is empty, which completes the tree of
      `r`. */
  method GrowPrim(n: nat, edges: Edges, weights: seq<real>, r: nat, added: seq<bool>, addedEdge: seq<bool>, res: seq<nat>, heap: seq<Entry>)
    returns (added': seq<bool>, addedEdge': seq<bool>, res': seq<nat>)
    requires |weights| == |edges|
    requires Heaped(n, edges, r, added, addedEdge, res, heap) && Pending(edges, added, heap, [])
    requires Marked(n, edges, r, added, res) && Prioritised(weights, heap) && Greedy(n, edges, weights, res)
    ensures Between(n, edges, r + 1, added', addedEdge', res')
    ensures Greedy(n, edges, weights, res')
  {
    added', addedEdge', res' := added, addedEdge, res;
    var h := heap;
    while |h| > 0
      invariant Heaped(n, edges, r, added', addedEdge', res', h) && Pending(edges, added', h, [])
      invariant Marked(n, edges, r, added', res') && Prioritised(weights, h) && Greedy(n, edges, weights, res')
      decreases n - CountTrue(added'), |h|
    {
      added', addedEdge', res', h := PopEdge(n, edges, weights, r, added', addedEdge', res', h);
    }
    HeapDone(n, edges, r, added', addedEdge', res');
  }

  /** Takes the lightest waiting edge; when it is new and leads to an
      unvisited vertex it is emitted, and that vertex is visited and its
      edges pushed. */
  method PopEdge(n: nat, edges: Edges, weights: seq<real>, r: nat, added: seq<bool>, addedEdge: seq<bool>, res: seq<nat>, heap: seq<Entry>)
    returns (added': seq<bool>, addedEdge': seq<bool>, res': seq<nat>, heap': seq<Entry>)
    requires |weights| == |edges| && |heap| > 0
    requires Heaped(n, edges, r, added, addedEdge, res, heap) && Pending(edges, added, heap, [])
    requires Marked(n, edges, r, added, res) && Prioritised(weights, heap) && Greedy(n, edges, weights, res)
    ensures Heaped(n, edges, r, added', addedEdge', res', heap') && Pending(edges, added', heap', [])
    ensures Marked(n, edges, r, added', res') && Prioritised(weights, heap') && Greedy(n, edges, weights, res')
    ensures CountTrue(added) < CountTrue(added') || (added' == added && |heap'| < |heap|)
  {
    var k := Top(heap);
    var from, edge := heap[k].from, heap[k].edge;
    var tmp, to := edges[edge].from, edges[edge].to;
    var rest := Remove(heap, k);
    added', addedEdge', res', heap' := added, addedEdge, res, rest;
    if from == to {
      to := tmp;
    }
    assert to == Across(edges[edge], from);
    PrioritisedRemove(weights, heap, k);
    if !addedEdge[edge] && !added[to] {
      PopEmit(n, edges, r, added, addedEdge, res, heap, k);
      MarkedEmit(n, edges, r, added, res, from, edge);
      GreedyEmit(n, edges, weights, r, added, addedEdge, res, heap, k);
      GreedyExtend(n, edges, weights, res, edge);
      added' := added[to := true];
      addedEdge' := addedEdge[edge := true];
      res' := res + [edge];
      heap' := PushIncident(n, edges, weights, r, to, added', addedEdge', res', rest);
    } else {
      PopSkip(n, edges, r, added, addedEdge, res, heap, k);
    }
  }

  /** Pushes every edge of the visited vertex `v` whose other end is not
      visited, with the negated weight as priority. */
  method PushIncident(n: nat, edges: Edges, weights: seq<real>, r: nat, v: nat, added: seq<bool>, addedEdge: seq<bool>, res: seq<nat>, heap: seq<Entry>)
    returns (heap': seq<Entry>)
    requires |weights| == |edges|
    requires Heaped(n, edges, r, added, addedEdge, res, heap) && Pending(edges, added, heap, [v])
    requires v < n && added[v] && Lead(edges, v) == r
    requires Prioritised(weights, heap)
    ensures Heaped(n, edges, r, added, addedEdge, res, heap') && Pending(edges, added, heap', [])
    ensures Prioritised(weights, heap')
  {
    var inc := Incident(edges, v);
    heap' := heap;
    var j := 0;
    while j < |inc|
      invariant j <= |inc|
      invariant Heaped(n, edges, r, added, addedEdge, res, heap') && Pending(edges, added, heap', [v])
      invariant Prioritised(weights, heap')
      invariant forall k :: 0 <= k < j ==> added[Across(edges[inc[k]], v)] || Waiting(heap', v, inc[k])
    {
      var edgeno := inc[j];
      var neighbour := if edges[edgeno].from != v then edges[edgeno].from else edges[edgeno].to;
      NeighbourIsAcross(edges[edgeno], v);
      if !added[neighbour] {
        heap' := PushEntry(n, edges, r, added, addedEdge, res, heap', inc, j, v, -weights[edgeno]);
      }
      j := j + 1;
    }
    PendingRelease(edges, added, heap', v);
  }

  /** Pushes the `j`-th edge of `v` with priority `prio`. */
  method PushEntry(n: nat, edges: Edges, r: nat, added: seq<bool>, addedEdge: seq<bool>, res: seq<nat>, heap: seq<Entry>, inc: seq<nat>, j: nat, v: nat, prio: real)
    returns (heap': seq<Entry>)
    requires Heaped(n, edges, r, added, addedEdge, res, heap) && Pending(edges, added, heap, [v])
    requires v < n && added[v] && Lead(edges, v) == r
    requires inc == Incident(edges, v) && j < |inc|
    requires forall k :: 0 <= k < j ==> added[Across(edges[inc[k]], v)] || Waiting(heap, v, inc[k])
    ensures heap' == heap + [Entry(prio, v, inc[j])]
    ensures Heaped(n, edges, r, added, addedEdge, res, heap') && Pending(edges, added, heap', [v])
    ensures forall k :: 0 <= k < j + 1 ==> added[Across(edges[inc[k]], v)] || Waiting(heap', v, inc[k])
  {
    var entry := Entry(prio, v, inc[j]);
    heap' := heap + [entry];
    PendingPush(edges, added, heap, [v], entry);
    assert heap'[|heap|] == entry;
    forall k | 0 <= k < j + 1 && !added[Across(edges[inc[k]], v)]
      ensures Waiting(heap', v, inc[k])
    {
      if k < j {
        var i :| 0 <= i < |heap| && heap[i].from == v && heap[i].edge == inc[k];
        assert heap'[i] == heap[i];
      }
    }
  }
}

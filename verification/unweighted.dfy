/**
  The spanning forest of an unweighted graph found by breadth-first search:
  every vertex not yet reached starts a tree, and the search emits the edge
  through which it first reaches each further vertex.
*/
module Unweighted {
  import opened Forest

  /** Every visited vertex that is not waiting in the queue `q` has both
      endpoints of each of its edges visited. */
  predicate Frontier(edges: Edges, added: seq<bool>, q: seq<nat>)
    requires Valid(|added|, edges)
  {
    forall e :: 0 <= e < |edges| ==>
      && (added[edges[e].from] && edges[e].from !in q ==> added[edges[e].to])
      && (added[edges[e].to] && edges[e].to !in q ==> added[edges[e].from])
  }

  /** The state of the search inside the tree of root `r`: the queue holds
      visited vertices of that tree. */
  ghost predicate Queue(n: nat, edges: Edges, r: nat, added: seq<bool>, addedEdge: seq<bool>, res: seq<nat>, q: seq<nat>)
  {
    && InTree(n, edges, r, added, addedEdge, res)
    && forall k :: 0 <= k < |q| ==> q[k] < n && added[q[k]] && Lead(edges, q[k]) == r
  }

  /** Visiting a new vertex and queueing it keeps the frontier. */
  lemma FrontierPush(edges: Edges, added: seq<bool>, q: seq<nat>, v: nat)
    requires Valid(|added|, edges) && v < |added| && Frontier(edges, added, q)
    ensures Frontier(edges, added[v := true], q + [v])
  {
  }

  /** Once every edge of `act` has its other end visited, `act` leaves the
      frontier. */
  lemma FrontierRelease(edges: Edges, added: seq<bool>, q: seq<nat>, act: nat)
    requires Valid(|added|, edges) && Frontier(edges, added, [act] + q)
    requires forall k :: 0 <= k < |Incident(edges, act)| ==> added[Across(edges[Incident(edges, act)[k]], act)]
    ensures Frontier(edges, added, q)
  {
    var inc := Incident(edges, act);
    forall e | 0 <= e < |edges| && Touches(edges[e], act)
      ensures added[Across(edges[e], act)]
    {
      assert e in inc;
      var k :| 0 <= k < |inc| && inc[k] == e;
    }
  }

  /** Emitting edge `e` towards its unvisited end and queueing that end
      keeps the search state. */
  lemma QueueEmit(n: nat, edges: Edges, r: nat, act: nat, e: nat, added: seq<bool>, addedEdge: seq<bool>, res: seq<nat>, q: seq<nat>)
    requires Queue(n, edges, r, added, addedEdge, res, q)
    requires act < n && added[act] && Lead(edges, act) == r && Frontier(edges, added, [act] + q)
    requires e < |edges| && Touches(edges[e], act) && !added[Across(edges[e], act)]
    ensures var to := Across(edges[e], act);
      && Queue(n, edges, r, added[to := true], addedEdge[e := true], res + [e], q + [to])
      && Frontier(edges, added[to := true], [act] + (q + [to]))
      && CountTrue(added[to := true]) == CountTrue(added) + 1
  {
    var to := Across(edges[e], act);
    EmitAcross(n, edges, r, added, addedEdge, res, act, e);
    FrontierPush(edges, added, [act] + q, to);
    assert [act] + q + [to] == [act] + (q + [to]);
  }

  /** A root not visited by an earlier tree starts the queue on its own. */
  lemma QueueStart(n: nat, edges: Edges, i: nat, added: seq<bool>, addedEdge: seq<bool>, res: seq<nat>)
    requires Between(n, edges, i, added, addedEdge, res) && i < n && !added[i]
    ensures Queue(n, edges, i, added[i := true], addedEdge, res, [i])
    ensures Frontier(edges, added[i := true], [i])
  {
    BetweenPlant(n, edges, i, added, addedEdge, res);
    BetweenClosed(n, edges, i, added, addedEdge, res);
  }

  /** The breadth-first spanning forest: the edge identifiers `res` form a
      forest, without self-loops, that joins every pair of vertices joined in
      the graph and has one edge fewer than vertices per component. */
  method Bfs(n: nat, edges: Edges) returns (res: seq<nat>)
    requires Valid(n, edges)
    ensures SpanningForest(n, edges, res)
  {
    var added := seq(n, _ => false);
    var addedEdge := seq(|edges|, _ => false);
    res := [];
    BetweenStart(n, edges);
    var i := 0;
    while i < n
      invariant Between(n, edges, i, added, addedEdge, res)
    {
      if added[i] {
        BetweenSkip(n, edges, i, added, addedEdge, res);
      } else {
        QueueStart(n, edges, i, added, addedEdge, res);
        added, addedEdge, res := GrowTree(n, edges, i, added[i := true], addedEdge, res);
      }
      i := i + 1;
    }
    BetweenDone(n, edges, added, addedEdge, res);
  }

  /** Searches the tree of root `r` until the queue runs empty, which
      visits the whole component of `r`. */
  method GrowTree(n: nat, edges: Edges, r: nat, added: seq<bool>, addedEdge: seq<bool>, res: seq<nat>)
    returns (added': seq<bool>, addedEdge': seq<bool>, res': seq<nat>)
    requires Queue(n, edges, r, added, addedEdge, res, [r]) && Frontier(edges, added, [r])
    ensures Between(n, edges, r + 1, added', addedEdge', res')
  {
    added', addedEdge', res' := added, addedEdge, res;
    var q := [r];
    while |q| > 0
      invariant Queue(n, edges, r, added', addedEdge', res', q) && Frontier(edges, added', q)
      decreases n - CountTrue(added'), |q|
    {
      var act := q[0];
      assert q == [act] + q[1..];
      q := q[1..];
      added', addedEdge', res', q := Visit(n, edges, r, act, added', addedEdge', res', q);
    }
    TreeDone(n, edges, r, added', addedEdge', res');
  }

  /** Looks at every edge of the vertex `act` just taken off the queue. */
  method Visit(n: nat, edges: Edges, r: nat, act: nat, added: seq<bool>, addedEdge: seq<bool>, res: seq<nat>, q: seq<nat>)
    returns (added': seq<bool>, addedEdge': seq<bool>, res': seq<nat>, q': seq<nat>)
    requires Queue(n, edges, r, added, addedEdge, res, q)
    requires act < n && added[act] && Lead(edges, act) == r && Frontier(edges, added, [act] + q)
    ensures Queue(n, edges, r, added', addedEdge', res', q') && Frontier(edges, added', q')
    ensures CountTrue(added) <= CountTrue(added') && |q'| - |q| == CountTrue(added') - CountTrue(added)
  {
    added', addedEdge', res', q' := added, addedEdge, res, q;
    var inc := Incident(edges, act);
    var j := 0;
    while j < |inc|
      invariant j <= |inc|
      invariant Queue(n, edges, r, added', addedEdge', res', q') && Frontier(edges, added', [act] + q')
      invariant added'[act]
      invariant CountTrue(added) <= CountTrue(added') && |q'| - |q| == CountTrue(added') - CountTrue(added)
      invariant forall k :: 0 <= k < j ==> added'[Across(edges[inc[k]], act)]
    {
      added', addedEdge', res', q' := VisitEdge(n, edges, r, act, inc, j, added', addedEdge', res', q');
      j := j + 1;
    }
    FrontierRelease(edges, added', q', act);
  }

  /** Follows the edge `inc[j]` out of `act`: an edge not emitted before whose other
      end is not visited yet is emitted, and that end is visited and
      queued. */
  method VisitEdge(n: nat, edges: Edges, r: nat, act: nat, inc: seq<nat>, j: nat, added: seq<bool>, addedEdge: seq<bool>, res: seq<nat>, q: seq<nat>)
    returns (added': seq<bool>, addedEdge': seq<bool>, res': seq<nat>, q': seq<nat>)
    requires Queue(n, edges, r, added, addedEdge, res, q)
    requires act < n && added[act] && Lead(edges, act) == r && Frontier(edges, added, [act] + q)
    requires inc == Incident(edges, act) && j < |inc|
    requires forall k :: 0 <= k < j ==> added[Across(edges[inc[k]], act)]
    ensures Queue(n, edges, r, added', addedEdge', res', q') && Frontier(edges, added', [act] + q')
    ensures added'[act] && forall k :: 0 <= k < j + 1 ==> added'[Across(edges[inc[k]], act)]
    ensures CountTrue(added) <= CountTrue(added') && |q'| - |q| == CountTrue(added') - CountTrue(added)
  {
    var e := inc[j];
    added', addedEdge', res', q' := added, addedEdge, res, q;
    if !addedEdge[e] {
      var from, to := edges[e].from, edges[e].to;
      if act == to {
        to := from;
      }
      assert to == Across(edges[e], act);
      if !added[to] {
        QueueEmit(n, edges, r, act, e, added, addedEdge, res, q);
        added' := added[to := true];
        addedEdge' := addedEdge[e := true];
        res' := res + [e];
        q' := q + [to];
      }
    }
  }
}

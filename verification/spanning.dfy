/**
  The entry point for spanning forests: without weights it takes the
  breadth-first forest, with weights Prim's method.
*/
module Spanning {
  import opened Forest
  import Unweighted
  import opened Optimal
  import opened Prim

  /** A spanning forest of the graph, given as edge identifiers, of least
      total weight when weights are given; a weight vector whose length is
      not the number of edges is refused. */
  method MinimumSpanningTree(n: nat, edges: Edges, weights: Weighting) returns (s: Status)
    requires Valid(n, edges)
    ensures s.Success? <==> (weights.Absent? || |weights.weights| == |edges|)
    ensures s.Success? ==> SpanningForest(n, edges, s.res)
    ensures s.Success? && weights.Given? ==> Minimal(n, edges, weights.weights, s.res)
  {
    if weights.Absent? {
      var res := Unweighted.Bfs(n, edges);
      s := Success(res);
    } else {
      s := PrimForest(n, edges, weights);
    }
  }
}

/** The growing network the estimator consumes: nodes arrive in index order
    and node `t` lists the earlier nodes it cites, in the order its
    out-neighbour query returns them. */
module Growing {
  import opened Counting

  /** `g[t]` is the out-neighbour list of node `t`. */
  type Graph = seq<seq<nat>>

  /** Every citation points to a strictly earlier node.  Without this the
      first citation of node 0 would read the structural sum at index -1. */
  predicate WellFormed(g: Graph)
  {
    forall t, i :: 0 <= t < |g| && 0 <= i < |g[t]| ==> g[t][i] < t
  }

  /** Every citation made by the nodes before `t`, in arrival order. */
  function Flat(g: Graph, t: nat): seq<nat>
    requires t <= |g|
  {
    if t == 0 then [] else Flat(g, t - 1) + g[t - 1]
  }

  /** The citations made before the `j`-th citation of node `t`. */
  function Cited(g: Graph, t: nat, j: nat): seq<nat>
    requires t < |g| && j <= |g[t]|
  {
    Flat(g, t) + g[t][..j]
  }

  /** Largest in-degree among the nodes below `m`, in-degrees read off `s`. */
  function MaxCount(s: seq<nat>, m: nat): nat
  {
    if m == 0 then 0
    else if MaxCount(s, m - 1) < Count(s, m - 1) then Count(s, m - 1)
    else MaxCount(s, m - 1)
  }

  /** The maximum in-degree of the final network, which sizes every class array. */
  function MaxInDeg(g: Graph): nat
  {
    MaxCount(Flat(g, |g|), |g|)
  }

  /** Total number of edges. */
  function EdgeCount(g: Graph): nat
  {
    |Flat(g, |g|)|
  }

  lemma CitedNext(g: Graph, t: nat, j: nat)
    requires t < |g| && j < |g[t]|
    ensures Cited(g, t, j + 1) == Cited(g, t, j) + [g[t][j]]
  {
    assert g[t][..j + 1] == g[t][..j] + [g[t][j]];
  }

  /** One more citation of node `t` raises the in-degree of the cited node only. */
  lemma CitedCount(g: Graph, t: nat, j: nat, v: nat)
    requires t < |g| && j < |g[t]|
    ensures Count(Cited(g, t, j + 1), v) == Count(Cited(g, t, j), v) + (if g[t][j] == v then 1 else 0)
  {
    CitedNext(g, t, j);
    CountAppend(Cited(g, t, j), g[t][j], v);
  }

  /** Running in-degrees stay the counts of the citations made as the
      `j`-th citation of node `t` is added. */
  lemma CiteStep(g: Graph, t: nat, j: nat, indegree: seq<nat>) returns (next: seq<nat>)
    requires WellFormed(g) && t < |g| && j < |g[t]| && |indegree| == |g|
    requires forall v :: 0 <= v < |g| ==> indegree[v] == Count(Cited(g, t, j), v)
    ensures g[t][j] < t && indegree[g[t][j]] == Count(Cited(g, t, j), g[t][j])
    ensures next == indegree[g[t][j] := indegree[g[t][j]] + 1]
    ensures forall v :: 0 <= v < |g| ==> next[v] == Count(Cited(g, t, j + 1), v)
  {
    var to := g[t][j];
    assert to < t;
    next := indegree[to := indegree[to] + 1];
    forall v | 0 <= v < |g|
      ensures next[v] == Count(Cited(g, t, j + 1), v)
    {
      CitedCount(g, t, j, v);
    }
  }

  /** Node 0 has no earlier node to cite. */
  lemma FirstCitesNothing(g: Graph)
    requires WellFormed(g) && |g| >= 1
    ensures |g[0]| == 0
  {
    assert Below(g[0], 0);
    CountsTotal(g[0], 0);
    assert Counts(g[0], 0) == [];
  }

  lemma CitedAll(g: Graph, t: nat)
    requires t < |g|
    ensures Cited(g, t, |g[t]|) == Flat(g, t + 1)
    ensures Cited(g, t, 0) == Flat(g, t)
  {
    assert g[t][..|g[t]|] == g[t];
    assert g[t][..0] == [];
  }

  /** Every node cited before node `t` arrives is at least two places earlier. */
  lemma {:induction false} FlatBelow(g: Graph, t: nat)
    requires WellFormed(g) && t <= |g|
    ensures forall i :: 0 <= i < |Flat(g, t)| ==> Flat(g, t)[i] + 1 < t
    decreases t
  {
    if t > 0 {
      FlatBelow(g, t - 1);
      var a := Flat(g, t - 1);
      forall i | 0 <= i < |Flat(g, t)|
        ensures Flat(g, t)[i] + 1 < t
      {
        if i >= |a| {
          assert Flat(g, t)[i] == g[t - 1][i - |a|];
        } else {
          assert Flat(g, t)[i] == a[i];
        }
      }
    }
  }

  /** Node `t` and later nodes are not yet cited while node `t` is citing. */
  lemma CitedBelow(g: Graph, t: nat, j: nat, v: nat)
    requires WellFormed(g) && t < |g| && j <= |g[t]| && t <= v
    ensures Count(Cited(g, t, j), v) == 0
  {
    FlatBelow(g, t);
    var c := Cited(g, t, j);
    forall i | 0 <= i < |c|
      ensures c[i] != v
    {
      if i >= |Flat(g, t)| {
        assert c[i] == g[t][i - |Flat(g, t)|];
      } else {
        assert c[i] == Flat(g, t)[i];
      }
    }
    CountAbsent(c, v);
  }

  /** A node has in-degree 0 when it arrives. */
  lemma NewcomerUncited(g: Graph, t: nat)
    requires WellFormed(g) && t < |g|
    ensures Count(Flat(g, t + 1), t) == 0
  {
    CitedAll(g, t);
    CitedBelow(g, t, |g[t]|, t);
  }

  lemma {:induction false} FlatGrows(g: Graph, t: nat, u: nat, v: nat)
    requires t <= u <= |g|
    ensures Count(Flat(g, t), v) <= Count(Flat(g, u), v)
    decreases u
  {
    if t < u {
      FlatGrows(g, t, u - 1, v);
      CountConcat(Flat(g, u - 1), g[u - 1], v);
    }
  }

  lemma {:induction false} MaxCountBound(s: seq<nat>, m: nat, v: nat)
    requires v < m
    ensures Count(s, v) <= MaxCount(s, m)
    decreases m
  {
    if v < m - 1 {
      MaxCountBound(s, m - 1, v);
    }
  }

  /** No in-degree ever exceeds the final maximum in-degree. */
  lemma CitedBound(g: Graph, t: nat, j: nat, v: nat)
    requires t < |g| && j <= |g[t]| && v < |g|
    ensures Count(Cited(g, t, j), v) <= MaxInDeg(g)
  {
    assert g[t] == g[t][..j] + g[t][j..];
    CountConcat(g[t][..j], g[t][j..], v);
    CountConcat(Flat(g, t), g[t][..j], v);
    CountConcat(Flat(g, t), g[t], v);
    FlatGrows(g, t + 1, |g|, v);
    MaxCountBound(Flat(g, |g|), |g|, v);
  }

  lemma FlatBound(g: Graph, t: nat, v: nat)
    requires t <= |g| && v < |g|
    ensures Count(Flat(g, t), v) <= MaxInDeg(g)
  {
    FlatGrows(g, t, |g|, v);
    MaxCountBound(Flat(g, |g|), |g|, v);
  }
}

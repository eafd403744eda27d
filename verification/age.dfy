/** The in-degree-and-age variant of the attachment-kernel estimator
    (`igraph_evolver_ad` and its passes): a node's class is the cell
    (in-degree, age bin) of a `(maxind + 1) x agebins` matrix, its age at time
    `t` being `t - v` and its bin the age divided by the bin width
    `n / agebins + 1`.  Matrices are stored column by column, so cell `(x, y)`
    is the flat class `x + rows * y`. */
module Age {
  import opened Counting
  import opened Growing
  import opened Welford
  import opened History
  import opened Trackers
  import opened Clock
  import opened Degree

  // ---------------------------------------------------------------------------
  // The grid
  // ---------------------------------------------------------------------------

  /** The flat index of matrix cell `(x, y)` in a matrix with `rows` rows:
      `y` whole columns, then `x` more entries. */
  function Cell(x: nat, y: nat, rows: nat): nat
  {
    x + rows * y
  }

  /** The number of entries of a matrix with `rows` rows and `cols` columns. */
  function Grid(rows: nat, cols: nat): nat
  {
    rows * cols
  }

  /** A cell of a `rows x cols` matrix has a flat index below its size. */
  lemma CellBound(x: nat, y: nat, rows: nat, cols: nat)
    requires x < rows && y < cols
    ensures Cell(x, y, rows) < Grid(rows, cols)
  {
    MulMonotone(rows, y, cols - 1);
    assert rows * (cols - 1) == rows * cols - rows;
  }

  /** Distinct cells have distinct flat indices: the row is the index modulo
      `rows` and the column the index divided by `rows`. */
  lemma CellInjective(x: nat, y: nat, x': nat, y': nat, rows: nat)
    requires x < rows && x' < rows && Cell(x, y, rows) == Cell(x', y', rows)
    ensures x == x' && y == y'
  {
    var c := Cell(x, y, rows);
    DivUnique(c, rows, y);
    DivUnique(c, rows, y');
  }

  lemma MulMonotone(a: nat, b: nat, c: nat)
    requires b <= c
    ensures a * b <= a * c
  {
    assert a * c == a * b + a * (c - b);
  }

  /** The width of an age bin for `n` nodes and `agebins` bins. */
  function BinWidth(n: nat, agebins: nat): (bw: nat)
    requires agebins >= 1
    ensures bw >= 1
  {
    n / agebins + 1
  }

  /** Integer division has one answer: the `k` with `b * k <= a < b * (k + 1)`. */
  lemma DivUnique(a: nat, b: nat, k: nat)
    requires b > 0 && b * k <= a < b * k + b
    ensures a / b == k
  {
    var q := a / b;
    var r := a % b;
    assert a == b * q + r && 0 <= r < b;
    if q > k {
      MulMonotone(b, k + 1, q);
      assert false;
    } else if q < k {
      MulMonotone(b, q + 1, k);
      assert false;
    }
  }

  /** Every age up to the node count falls in one of the `agebins` bins. */
  lemma BinBound(n: nat, agebins: nat, a: nat)
    requires agebins >= 1 && a <= n
    ensures a / BinWidth(n, agebins) < agebins
  {
    var bw := BinWidth(n, agebins);
    var q := n / agebins;
    assert n == agebins * q + n % agebins;
    assert bw * agebins == agebins * q + agebins;
    assert a == bw * (a / bw) + a % bw;
    if a / bw >= agebins {
      MulMonotone(bw, agebins, a / bw);
      assert false;
    }
  }

  /** With the bin width 1 every age is its own bin; otherwise age 1 is in bin 0. */
  lemma FirstBin(bw: nat)
    requires bw >= 1
    ensures 1 / bw == if bw > 1 then 0 else 1
  {
    if bw > 1 {
      DivUnique(1, bw, 0);
    }
  }

  // ---------------------------------------------------------------------------
  // The timeline
  // ---------------------------------------------------------------------------

  /** The cell of every node below `t` at time `t`. */
  function Ages(g: Graph, t: nat, rows: nat, bw: nat): (r: seq<nat>)
    requires t <= |g| && bw >= 1
    ensures |r| == t
    ensures forall v :: 0 <= v < t ==> r[v] == Cell(Count(Flat(g, t), v), (t - v) / bw, rows)
  {
    seq(t, v requires 0 <= v < t => Cell(Count(Flat(g, t), v), (t - v) / bw, rows))
  }

  /** The in-degree-and-age timeline. */
  function HistAD(g: Graph, rows: nat, bw: nat): (hist: seq<seq<nat>>)
    requires bw >= 1
    ensures |hist| == |g| + 1
    ensures forall t :: 0 <= t <= |g| ==> hist[t] == Ages(g, t, rows, bw)
  {
    seq(|g| + 1, t requires 0 <= t <= |g| => Ages(g, t, rows, bw))
  }

  /** The cell of a node present at time `t` is a cell of the reported matrix. */
  lemma AgeCellBound(g: Graph, t: nat, v: nat, maxind: nat, agebins: nat)
    requires WellFormed(g) && maxind >= MaxInDeg(g) && agebins >= 1 && v < t <= |g|
    ensures Cell(Count(Flat(g, t), v), (t - v) / BinWidth(|g|, agebins), maxind + 1) < Grid(maxind + 1, agebins)
  {
    FlatBound(g, t, v);
    BinBound(|g|, agebins, t - v);
    CellBound(Count(Flat(g, t), v), (t - v) / BinWidth(|g|, agebins), maxind + 1, agebins);
  }

  /** The in-degree-and-age timeline is a timeline whose classes are cells
      of the reported matrix. */
  lemma HistADTimeline(g: Graph, maxind: nat, agebins: nat)
    requires WellFormed(g) && maxind >= MaxInDeg(g) && agebins >= 1
    ensures Timeline(g, HistAD(g, maxind + 1, BinWidth(|g|, agebins)))
    ensures Keyed(HistAD(g, maxind + 1, BinWidth(|g|, agebins)), Grid(maxind + 1, agebins))
  {
    var bw := BinWidth(|g|, agebins);
    var hist := HistAD(g, maxind + 1, bw);
    forall t | 0 <= t <= |g|
      ensures Below(hist[t], Grid(maxind + 1, agebins))
    {
      var cells := Ages(g, t, maxind + 1, bw);
      forall v | 0 <= v < t
        ensures cells[v] < Grid(maxind + 1, agebins)
      {
        AgeCellBound(g, t, v, maxind, agebins);
      }
    }
  }

  // ---------------------------------------------------------------------------
  // How the passes walk the timeline
  //
  // Every pass moves from the cells of time `t` to those of time `t + 1` in
  // three stages: node `t`'s citations move each cited node one row down in
  // its bin (ages still read at time `t`), node `t` arrives in cell (0, 0),
  // and then the nodes whose age reaches a multiple `bw * k` of the bin width
  // move from bin `k - 1` to bin `k`, for `k = 1, 2, ...` while
  // `t + 1 - bw * k >= 0`.
  // ---------------------------------------------------------------------------

  /** The cells while node `t` cites, after its first `i` citations. */
  function Citing(g: Graph, t: nat, i: nat, rows: nat, bw: nat): (r: seq<nat>)
    requires t < |g| && i <= |g[t]| && bw >= 1
    ensures |r| == t
    ensures forall v :: 0 <= v < t ==> r[v] == Cell(Count(Cited(g, t, i), v), (t - v) / bw, rows)
  {
    seq(t, v requires 0 <= v < t => Cell(Count(Cited(g, t, i), v), (t - v) / bw, rows))
  }

  /** The bin of age `a` once the nodes with ages `bw`, `2 bw`, ..., below
      `bw * k` have been moved up: those ages already have their new bin,
      the others still have the bin of the age one less. */
  function AgingBin(a: nat, bw: nat, k: nat): nat
    requires a >= 1 && bw >= 1
  {
    if a < bw * k then a / bw else (a - 1) / bw
  }

  /** The cells of time `t + 1` while the aging loop of node `t` is at `k`. */
  function Aging(g: Graph, t: nat, k: nat, rows: nat, bw: nat): (r: seq<nat>)
    requires t < |g| && bw >= 1
    ensures |r| == t + 1
    ensures forall v :: 0 <= v <= t ==> r[v] == Cell(Count(Flat(g, t + 1), v), AgingBin(t + 1 - v, bw, k), rows)
  {
    seq(t + 1, v requires 0 <= v <= t => Cell(Count(Flat(g, t + 1), v), AgingBin(t + 1 - v, bw, k), rows))
  }

  lemma CitingStart(g: Graph, t: nat, rows: nat, bw: nat)
    requires t < |g| && bw >= 1
    ensures Citing(g, t, 0, rows, bw) == Ages(g, t, rows, bw)
  {
    CitedAll(g, t);
  }

  /** A citation moves the cited node one row down in its bin, and nothing else. */
  lemma CitingStep(g: Graph, t: nat, i: nat, rows: nat, bw: nat)
    requires WellFormed(g) && t < |g| && i < |g[t]| && bw >= 1
    ensures var to := g[t][i];
            var x := Count(Cited(g, t, i), to);
            && to < t
            && Citing(g, t, i, rows, bw)[to] == Cell(x, (t - to) / bw, rows)
            && Citing(g, t, i + 1, rows, bw) == Citing(g, t, i, rows, bw)[to := Cell(x + 1, (t - to) / bw, rows)]
  {
    var to := g[t][i];
    forall v | 0 <= v < t
      ensures Count(Cited(g, t, i + 1), v) == Count(Cited(g, t, i), v) + (if to == v then 1 else 0)
    {
      CitedCount(g, t, i, v);
    }
  }

  /** Node `t` arrives in cell (0, 0), which is where the aging loop starts. */
  lemma ArriveAging(g: Graph, t: nat, rows: nat, bw: nat)
    requires WellFormed(g) && t < |g| && bw >= 1
    ensures Citing(g, t, |g[t]|, rows, bw) + [Cell(0, 0, rows)] == Aging(g, t, 1, rows, bw)
  {
    CitedAll(g, t);
    NewcomerUncited(g, t);
    forall v | 0 <= v <= t
      ensures (Citing(g, t, |g[t]|, rows, bw) + [Cell(0, 0, rows)])[v] == Aging(g, t, 1, rows, bw)[v]
    {
      if t + 1 - v < bw {
        DivUnique(t + 1 - v, bw, 0);
        DivUnique(t - v, bw, 0);
      }
    }
  }

  /** Ages other than `bw * k` keep their bin at step `k` of the aging loop. */
  lemma AgingBinKept(a: nat, bw: nat, k: nat)
    requires a >= 1 && bw >= 1 && a != bw * k
    ensures AgingBin(a, bw, k + 1) == AgingBin(a, bw, k)
  {
    assert bw * (k + 1) == bw * k + bw;
    if bw * k < a < bw * k + bw {
      DivUnique(a, bw, k);
      DivUnique(a - 1, bw, k);
    }
  }

  /** Age `bw * k` moves from bin `k - 1` to bin `k` at step `k`. */
  lemma AgingBinMoved(bw: nat, k: nat)
    requires bw >= 1 && k >= 1
    ensures bw * k >= 1
    ensures AgingBin(bw * k, bw, k) == k - 1 && AgingBin(bw * k, bw, k + 1) == k
  {
    MulMonotone(bw, 1, k);
    assert bw * (k - 1) == bw * k - bw;
    assert bw * (k + 1) == bw * k + bw;
    DivUnique(bw * k - 1, bw, k - 1);
    DivUnique(bw * k, bw, k);
  }

  /** Step `k` of the aging loop moves the node of age `bw * k` from bin
      `k - 1` to bin `k`, and nothing else. */
  lemma AgingStep(g: Graph, t: nat, k: nat, rows: nat, bw: nat)
    requires t < |g| && bw >= 1 && k >= 1 && bw * k <= t + 1
    ensures var v := t + 1 - bw * k;
            var d := Count(Flat(g, t + 1), v);
            && Aging(g, t, k, rows, bw)[v] == Cell(d, k - 1, rows)
            && Aging(g, t, k + 1, rows, bw) == Aging(g, t, k, rows, bw)[v := Cell(d, k, rows)]
  {
    var v := t + 1 - bw * k;
    AgingBinMoved(bw, k);
    forall u | 0 <= u <= t && u != v
      ensures Aging(g, t, k + 1, rows, bw)[u] == Aging(g, t, k, rows, bw)[u]
    {
      AgingBinKept(t + 1 - u, bw, k);
    }
  }

  /** Once `bw * k` exceeds every age, the aging loop has reached the cells
      of time `t + 1`. */
  lemma AgingEnd(g: Graph, t: nat, k: nat, rows: nat, bw: nat)
    requires t < |g| && bw >= 1 && bw * k > t + 1
    ensures Aging(g, t, k, rows, bw) == Ages(g, t + 1, rows, bw)
  {
  }

  /** The aging loop never reaches beyond the last reported bin. */
  lemma AgingBound(n: nat, agebins: nat, k: nat)
    requires agebins >= 1 && BinWidth(n, agebins) * k <= n
    ensures k < agebins
  {
    var bw := BinWidth(n, agebins);
    DivUnique(bw * k, bw, k);
    BinBound(n, agebins, bw * k);
  }

  /** The bounds that keep a citation's cells inside the matrices: the cited
      node's new row is at most `maxind` and its bin is a reported bin. */
  lemma CitingBounds(g: Graph, t: nat, i: nat, maxind: nat, agebins: nat)
    requires WellFormed(g) && t < |g| && i < |g[t]| && maxind >= MaxInDeg(g) && agebins >= 1
    ensures var to := g[t][i];
            var bw := BinWidth(|g|, agebins);
            && Count(Cited(g, t, i), to) + 1 <= maxind
            && Cell(Count(Cited(g, t, i), to) + 1, (t - to) / bw, maxind + 1) < Grid(maxind + 1, agebins)
            && Cell(Count(Cited(g, t, i), to), (t - to) / bw, maxind + 1) < Grid(maxind + 1, agebins)
  {
    var to := g[t][i];
    CitedCount(g, t, i, to);
    CitedBound(g, t, i + 1, to);
    BinBound(|g|, agebins, t - to);
    CellBound(Count(Cited(g, t, i), to) + 1, (t - to) / BinWidth(|g|, agebins), maxind + 1, agebins);
    CellBound(Count(Cited(g, t, i), to), (t - to) / BinWidth(|g|, agebins), maxind + 1, agebins);
  }

  /** The bounds that keep an aging move inside the matrices. */
  lemma AgingBounds(g: Graph, t: nat, k: nat, maxind: nat, agebins: nat)
    requires WellFormed(g) && t < |g| && maxind >= MaxInDeg(g) && agebins >= 1
    requires k >= 1 && BinWidth(|g|, agebins) * k <= t + 1
    ensures var v := t + 1 - BinWidth(|g|, agebins) * k;
            && Cell(Count(Flat(g, t + 1), v), k, maxind + 1) < Grid(maxind + 1, agebins)
            && Cell(Count(Flat(g, t + 1), v), k - 1, maxind + 1) < Grid(maxind + 1, agebins)
  {
    var v := t + 1 - BinWidth(|g|, agebins) * k;
    AgingBound(|g|, agebins, k);
    FlatBound(g, t + 1, v);
    CellBound(Count(Flat(g, t + 1), v), k, maxind + 1, agebins);
    CellBound(Count(Flat(g, t + 1), v), k - 1, maxind + 1, agebins);
  }

  /** The aging loop runs at least as long as some node has reached an age
      `bw * k`, and stops. */
  lemma AgingAdvances(bw: nat, k: nat)
    requires bw >= 1
    ensures bw * (k + 1) == bw * k + bw
  {
  }

  // ---------------------------------------------------------------------------
  // Structural sum (igraph_evolver_st_ad)
  // ---------------------------------------------------------------------------

  /** The structural sum: `st[t]` is the total kernel weight of the cells of
      the nodes present once node `t` has arrived, cited and aged.  The
      kernel is a `rows x agebins` matrix. */
  method StructuralAD(g: Graph, kernel: seq<real>, rows: nat, agebins: nat) returns (st: seq<real>)
    requires WellFormed(g) && |g| >= 1 && agebins >= 1 && rows > MaxInDeg(g) && |kernel| == Grid(rows, agebins)
    ensures |st| == |g|
    ensures Keyed(HistAD(g, rows, BinWidth(|g|, agebins)), |kernel|)
    ensures StructuralSum(kernel, HistAD(g, rows, BinWidth(|g|, agebins)), st)
  {
    var bw := |g| / agebins + 1;
    var first := FirstSum(g, kernel, rows, agebins, bw);
    var indegree: seq<nat> := seq(|g|, _ => 0);
    if bw > 1 {
      st := [kernel[Cell(0, 0, rows)]];
    } else {
      st := [kernel[Cell(0, 1, rows)]];
    }
    var node := 1;
    while node < |g|
      invariant 1 <= node <= |g| && |st| == node && |indegree| == |g|
      invariant forall v :: 0 <= v < |g| ==> indegree[v] == Count(Flat(g, node), v)
      invariant forall t :: 1 <= t <= node ==> Below(Ages(g, t, rows, bw), |kernel|) && st[t - 1] == Weigh(kernel, Ages(g, t, rows, bw))
      decreases |g| - node
    {
      var cur;
      cur, indegree := StructuralNodeAD(g, kernel, rows, agebins, bw, node, indegree, st[node - 1]);
      ghost var before := st;
      st := st + [cur];
      forall t | 1 <= t <= node + 1
        ensures Below(Ages(g, t, rows, bw), |kernel|) && st[t - 1] == Weigh(kernel, Ages(g, t, rows, bw))
      {
        if t <= node {
          assert st[t - 1] == before[t - 1];
        }
      }
      node := node + 1;
    }
    SumsOnTimeline(g, kernel, rows, agebins, bw, st);
  }

  /** The structural sum of node 0 alone: its cell at time 1 is (0, 0), or
      (0, 1) when every age is a bin of its own. */
  lemma FirstSum(g: Graph, kernel: seq<real>, rows: nat, agebins: nat, bw: nat) returns (c: nat)
    requires WellFormed(g) && |g| >= 1 && agebins >= 1 && rows > MaxInDeg(g) && |kernel| == Grid(rows, agebins)
    requires bw == BinWidth(|g|, agebins)
    ensures c == if bw > 1 then Cell(0, 0, rows) else Cell(0, 1, rows)
    ensures c < |kernel| && Below(Ages(g, 1, rows, bw), |kernel|)
    ensures kernel[c] == Weigh(kernel, Ages(g, 1, rows, bw))
  {
    NewcomerUncited(g, 0);
    FirstBin(bw);
    AgesBelow(g, 1, rows - 1, agebins);
    var cells := Ages(g, 1, rows, bw);
    c := cells[0];
    assert cells == [] + [c];
    WeighAppend(kernel, [], c);
  }

  /** The cells of the nodes present at time `t` are cells of the matrix. */
  lemma AgesBelow(g: Graph, t: nat, maxind: nat, agebins: nat)
    requires WellFormed(g) && maxind >= MaxInDeg(g) && agebins >= 1 && t <= |g|
    ensures Below(Ages(g, t, maxind + 1, BinWidth(|g|, agebins)), Grid(maxind + 1, agebins))
  {
    var cells := Ages(g, t, maxind + 1, BinWidth(|g|, agebins));
    forall v | 0 <= v < t
      ensures cells[v] < Grid(maxind + 1, agebins)
    {
      AgeCellBound(g, t, v, maxind, agebins);
    }
  }

  /** Sums of the cells at every time are structural sums on the timeline. */
  lemma SumsOnTimeline(g: Graph, kernel: seq<real>, rows: nat, agebins: nat, bw: nat, st: seq<real>)
    requires WellFormed(g) && agebins >= 1 && rows > MaxInDeg(g) && |kernel| == Grid(rows, agebins)
    requires bw == BinWidth(|g|, agebins) && |st| == |g|
    requires forall t :: 1 <= t <= |g| ==> Below(Ages(g, t, rows, bw), |kernel|) && st[t - 1] == Weigh(kernel, Ages(g, t, rows, bw))
    ensures Keyed(HistAD(g, rows, bw), |kernel|)
    ensures StructuralSum(kernel, HistAD(g, rows, bw), st)
  {
    HistADTimeline(g, rows - 1, agebins);
    forall t | 0 <= t < |st|
      ensures st[t] == Weigh(kernel, HistAD(g, rows, bw)[t + 1])
    {
      var u := t + 1;
      assert st[u - 1] == Weigh(kernel, Ages(g, u, rows, bw));
    }
  }

  /** The structural sum after node `node`, from the one before it: the
      newcomer's weight, then a trade of cells for every citation, then one
      for every node that moves up a bin. */
  method StructuralNodeAD(g: Graph, kernel: seq<real>, rows: nat, agebins: nat, bw: nat, node: nat,
                          indegree: seq<nat>, prev: real) returns (cur: real, indegree': seq<nat>)
    requires WellFormed(g) && agebins >= 1 && rows > MaxInDeg(g) && |kernel| == Grid(rows, agebins)
    requires bw == BinWidth(|g|, agebins) && 1 <= node < |g| && |indegree| == |g|
    requires forall v :: 0 <= v < |g| ==> indegree[v] == Count(Flat(g, node), v)
    requires Below(Ages(g, node, rows, bw), |kernel|) && prev == Weigh(kernel, Ages(g, node, rows, bw))
    ensures |indegree'| == |g|
    ensures forall v :: 0 <= v < |g| ==> indegree'[v] == Count(Flat(g, node + 1), v)
    ensures Below(Ages(g, node + 1, rows, bw), |kernel|)
    ensures cur == Weigh(kernel, Ages(g, node + 1, rows, bw))
  {
    CellBound(0, 0, rows, agebins);
    cur := prev + kernel[Cell(0, 0, rows)];
    cur, indegree' := CiteWeighAD(g, kernel, rows, agebins, bw, node, indegree, cur);
    cur := AgeWeighAD(g, kernel, rows, agebins, bw, node, indegree', cur);
  }

  /** A citation changes the weight of the cells by the cited node's trade
      of cell `(x, y)` for cell `(x + 1, y)`. */
  lemma WeighCite(g: Graph, kernel: seq<real>, rows: nat, agebins: nat, bw: nat, t: nat, i: nat, x: nat, y: nat)
    requires WellFormed(g) && agebins >= 1 && rows > MaxInDeg(g) && |kernel| == Grid(rows, agebins)
    requires bw == BinWidth(|g|, agebins) && t < |g| && i < |g[t]| && g[t][i] < t
    requires x == Count(Cited(g, t, i), g[t][i]) && y == (t - g[t][i]) / bw
    requires Below(Citing(g, t, i, rows, bw), |kernel|)
    ensures Cell(x, y, rows) < |kernel| && Cell(x + 1, y, rows) < |kernel|
    ensures Below(Citing(g, t, i + 1, rows, bw), |kernel|)
    ensures Weigh(kernel, Citing(g, t, i + 1, rows, bw))
         == Weigh(kernel, Citing(g, t, i, rows, bw)) - kernel[Cell(x, y, rows)] + kernel[Cell(x + 1, y, rows)]
  {
    var a := Citing(g, t, i, rows, bw);
    var to := g[t][i];
    var moved := Cell(x + 1, y, rows);
    CitingStep(g, t, i, rows, bw);
    CitingBounds(g, t, i, rows - 1, agebins);
    assert a[to] == Cell(x, y, rows);
    assert Citing(g, t, i + 1, rows, bw) == a[to := moved];
    WeighUpdate(kernel, a, to, moved);
  }

  /** The citations of node `node`: each trades the cited node's cell for the
      one a row further down. */
  method CiteWeighAD(g: Graph, kernel: seq<real>, rows: nat, agebins: nat, bw: nat, node: nat,
                     indegree: seq<nat>, prev: real) returns (cur: real, indegree': seq<nat>)
    requires WellFormed(g) && agebins >= 1 && rows > MaxInDeg(g) && |kernel| == Grid(rows, agebins)
    requires bw == BinWidth(|g|, agebins) && node < |g| && |indegree| == |g|
    requires forall v :: 0 <= v < |g| ==> indegree[v] == Count(Flat(g, node), v)
    requires Below(Ages(g, node, rows, bw), |kernel|) && Cell(0, 0, rows) < |kernel|
    requires prev == Weigh(kernel, Ages(g, node, rows, bw)) + kernel[Cell(0, 0, rows)]
    ensures |indegree'| == |g|
    ensures forall v :: 0 <= v < |g| ==> indegree'[v] == Count(Flat(g, node + 1), v)
    ensures Below(Aging(g, node, 1, rows, bw), |kernel|)
    ensures cur == Weigh(kernel, Aging(g, node, 1, rows, bw))
  {
    CitingStart(g, node, rows, bw);
    CitedAll(g, node);
    cur := prev;
    indegree' := indegree;
    var neis := g[node];
    var i := 0;
    while i < |neis|
      invariant i <= |neis| && |indegree'| == |g|
      invariant forall v :: 0 <= v < |g| ==> indegree'[v] == Count(Cited(g, node, i), v)
      invariant Below(Citing(g, node, i, rows, bw), |kernel|)
      invariant cur == Weigh(kernel, Citing(g, node, i, rows, bw)) + kernel[Cell(0, 0, rows)]
    {
      cur, indegree' := WeighOneAD(g, kernel, rows, agebins, bw, node, i, indegree', cur);
      i := i + 1;
    }
    WeighAppend(kernel, Citing(g, node, |neis|, rows, bw), Cell(0, 0, rows));
    ArriveAging(g, node, rows, bw);
  }

  /** The `i`-th citation of node `node` on the structural sum: the cited
      node's weight is traded for the one a row further down. */
  method WeighOneAD(g: Graph, kernel: seq<real>, rows: nat, agebins: nat, bw: nat, node: nat, i: nat,
                    indegree: seq<nat>, prev: real) returns (cur: real, indegree': seq<nat>)
    requires WellFormed(g) && agebins >= 1 && rows > MaxInDeg(g) && |kernel| == Grid(rows, agebins)
    requires bw == BinWidth(|g|, agebins) && node < |g| && i < |g[node]| && |indegree| == |g|
    requires forall v :: 0 <= v < |g| ==> indegree[v] == Count(Cited(g, node, i), v)
    requires Below(Citing(g, node, i, rows, bw), |kernel|) && Cell(0, 0, rows) < |kernel|
    requires prev == Weigh(kernel, Citing(g, node, i, rows, bw)) + kernel[Cell(0, 0, rows)]
    ensures |indegree'| == |g|
    ensures forall v :: 0 <= v < |g| ==> indegree'[v] == Count(Cited(g, node, i + 1), v)
    ensures Below(Citing(g, node, i + 1, rows, bw), |kernel|)
    ensures cur == Weigh(kernel, Citing(g, node, i + 1, rows, bw)) + kernel[Cell(0, 0, rows)]
  {
    var to := g[node][i];
    ghost var next := CiteStep(g, node, i, indegree);
    var xidx := indegree[to];
    var age: nat := node - to;
    var yidx: nat := age / bw;
    WeighCite(g, kernel, rows, agebins, bw, node, i, xidx, yidx);
    indegree' := indegree[to := xidx + 1];
    cur := prev + (-kernel[Cell(xidx, yidx, rows)] + kernel[Cell(xidx + 1, yidx, rows)]);
  }

  /** The aging of node `node`'s time step: each node whose age reaches a
      multiple of the bin width trades its cell for the one a bin further. */
  method AgeWeighAD(g: Graph, kernel: seq<real>, rows: nat, agebins: nat, bw: nat, node: nat,
                    indegree: seq<nat>, prev: real) returns (cur: real)
    requires WellFormed(g) && agebins >= 1 && rows > MaxInDeg(g) && |kernel| == Grid(rows, agebins)
    requires bw == BinWidth(|g|, agebins) && node < |g| && |indegree| == |g|
    requires forall v :: 0 <= v < |g| ==> indegree[v] == Count(Flat(g, node + 1), v)
    requires Below(Aging(g, node, 1, rows, bw), |kernel|)
    requires prev == Weigh(kernel, Aging(g, node, 1, rows, bw))
    ensures Below(Ages(g, node + 1, rows, bw), |kernel|)
    ensures cur == Weigh(kernel, Ages(g, node + 1, rows, bw))
  {
    ghost var keys := Aging(g, node, 1, rows, bw);
    cur := prev;
    var k := 1;
    while node - bw * k + 1 >= 0
      invariant k >= 1 && keys == Aging(g, node, k, rows, bw) && Below(keys, |kernel|)
      invariant cur == Weigh(kernel, keys)
      decreases node + 1 - bw * k
    {
      var shnode := node - bw * k + 1;
      var deg := indegree[shnode];
      AgingStep(g, node, k, rows, bw);
      AgingBounds(g, node, k, rows - 1, agebins);
      WeighUpdate(kernel, keys, shnode, Cell(deg, k, rows));
      keys := keys[shnode := Cell(deg, k, rows)];
      cur := cur + (-kernel[Cell(deg, k - 1, rows)] + kernel[Cell(deg, k, rows)]);
      AgingAdvances(bw, k);
      k := k + 1;
    }
    AgingEnd(g, node, k, rows, bw);
  }

  /** While node `t` cites, every cell is a cell of the matrix. */
  lemma CitingBelow(g: Graph, t: nat, i: nat, rows: nat, agebins: nat, bw: nat)
    requires WellFormed(g) && rows > MaxInDeg(g) && agebins >= 1 && bw == BinWidth(|g|, agebins)
    requires t < |g| && i <= |g[t]|
    ensures Below(Citing(g, t, i, rows, bw), Grid(rows, agebins))
  {
    var cells := Citing(g, t, i, rows, bw);
    forall v | 0 <= v < t
      ensures cells[v] < Grid(rows, agebins)
    {
      CitedBound(g, t, i, v);
      BinBound(|g|, agebins, t - v);
      CellBound(Count(Cited(g, t, i), v), (t - v) / bw, rows, agebins);
    }
  }

  /** While node `t`'s time step ages, every cell is a cell of the matrix. */
  lemma AgingBelow(g: Graph, t: nat, k: nat, rows: nat, agebins: nat, bw: nat)
    requires WellFormed(g) && rows > MaxInDeg(g) && agebins >= 1 && bw == BinWidth(|g|, agebins)
    requires t < |g|
    ensures Below(Aging(g, t, k, rows, bw), Grid(rows, agebins))
  {
    var cells := Aging(g, t, k, rows, bw);
    forall v | 0 <= v <= t
      ensures cells[v] < Grid(rows, agebins)
    {
      FlatBound(g, t + 1, v);
      BinBound(|g|, agebins, t + 1 - v);
      BinBound(|g|, agebins, t - v);
      CellBound(Count(Flat(g, t + 1), v), AgingBin(t + 1 - v, bw, k), rows, agebins);
    }
  }

  /** The counter matrices of the measure and likelihood passes have one
      age column more than the reported ones. */
  lemma WiderGrid(s: seq<nat>, rows: nat, agebins: nat)
    requires Below(s, Grid(rows, agebins))
    ensures Grid(rows, agebins) <= Grid(rows, agebins + 1)
    ensures Below(s, Grid(rows, agebins + 1))
  {
    assert Grid(rows, agebins + 1) == Grid(rows, agebins) + rows;
  }

  // ---------------------------------------------------------------------------
  // Measure pass (igraph_evolver_mes_ad)
  // ---------------------------------------------------------------------------

  /** The counters of the measure pass before node `node` is processed: the
      running in-degrees, the cell sizes of the timeline and the
      normalisation factors so far. */
  predicate CountStateAD(g: Graph, rows: nat, agebins: nat, bw: nat, node: nat, indegree: seq<nat>, tr: Tracker)
    requires WellFormed(g) && agebins >= 1 && bw >= 1
  {
    && node <= |g|
    && |indegree| == |g|
    && (forall v :: 0 <= v < |g| ==> indegree[v] == Count(Flat(g, node), v))
    && Sane(tr) && |tr.ntk| == Grid(rows, agebins + 1) && |tr.normfact| == Grid(rows, agebins)
    && tr.edges == |Flat(g, node)|
    && tr.ntk == Counts(Ages(g, node, rows, bw), Grid(rows, agebins + 1))
    && Timeline(g, HistAD(g, rows, bw))
    && forall c :: 0 <= c < Grid(rows, agebins) ==> Closed(tr, c) == NormFact(g, HistAD(g, rows, bw), node, c)
  }

  /** The running statistics before node `node` is processed. */
  predicate StatsStateAD(g: Graph, st: seq<real>, rows: nat, agebins: nat, bw: nat, node: nat, stats: seq<Running>)
    requires WellFormed(g) && |st| == |g| && bw >= 1 && node <= |g|
  {
    && |stats| == Grid(rows, agebins)
    && Timeline(g, HistAD(g, rows, bw))
    && forall c :: 0 <= c < Grid(rows, agebins) ==> stats[c] == Fold(Samples(g, st, HistAD(g, rows, bw), node, c))
  }

  /** The measure pass: for every (in-degree, age bin) cell, the mean over
      the possible citations of the structural sum shared out among the
      cell's members, with the squared deviation, the normalisation factor
      and the number of observed citations. */
  method MeasureAD(g: Graph, st: seq<real>, maxind: nat, agebins: nat) returns (e: Estimate)
    requires WellFormed(g) && |st| == |g| && maxind >= MaxInDeg(g) && agebins >= 1
    ensures Estimates(g, st, HistAD(g, maxind + 1, BinWidth(|g|, agebins)), Grid(maxind + 1, agebins), e)
  {
    var rows := maxind + 1;
    var bw := |g| / agebins + 1;
    var indegree, tr, stats := MeasureStartAD(g, st, maxind, agebins);
    var node := 0;
    while node < |g|
      invariant CountStateAD(g, rows, agebins, bw, node, indegree, tr)
      invariant StatsStateAD(g, st, rows, agebins, bw, node, stats)
      decreases |g| - node
    {
      stats := SampleNodeAD(g, st, rows, agebins, bw, node, indegree, tr, stats);
      indegree, tr := CountNodeAD(g, rows, agebins, bw, node, indegree, tr);
      node := node + 1;
    }
    var nf := Finish(tr);
    e := Report(stats, nf, Grid(rows, agebins));
    ReportEstimates(g, st, HistAD(g, rows, bw), Grid(rows, agebins), stats, nf);
  }

  /** The counters and statistics of the measure pass before any node has arrived. */
  method MeasureStartAD(g: Graph, st: seq<real>, maxind: nat, agebins: nat)
    returns (indegree: seq<nat>, tr: Tracker, stats: seq<Running>)
    requires WellFormed(g) && |st| == |g| && maxind >= MaxInDeg(g) && agebins >= 1
    ensures CountStateAD(g, maxind + 1, agebins, BinWidth(|g|, agebins), 0, indegree, tr)
    ensures StatsStateAD(g, st, maxind + 1, agebins, BinWidth(|g|, agebins), 0, stats)
  {
    var rows := maxind + 1;
    var bw := |g| / agebins + 1;
    HistADTimeline(g, maxind, agebins);
    indegree := seq(|g|, _ => 0);
    tr := Empty(Grid(rows, agebins + 1), Grid(rows, agebins));
    stats := seq(Grid(rows, agebins), _ => Fresh);
    assert Ages(g, 0, rows, bw) == [];
    assert tr.ntk == Counts(Ages(g, 0, rows, bw), Grid(rows, agebins + 1));
  }

  /** The estimation loop of one node: every citation of node `node` folds
      the structural sum before the node arrived, divided by the size of the
      cited node's cell, into that cell's running statistics. */
  method SampleNodeAD(g: Graph, st: seq<real>, rows: nat, agebins: nat, bw: nat, node: nat,
                      indegree: seq<nat>, tr: Tracker, stats: seq<Running>) returns (stats': seq<Running>)
    requires WellFormed(g) && |st| == |g| && rows > MaxInDeg(g) && agebins >= 1 && bw == BinWidth(|g|, agebins)
    requires node < |g| && CountStateAD(g, rows, agebins, bw, node, indegree, tr)
    requires StatsStateAD(g, st, rows, agebins, bw, node, stats)
    ensures StatsStateAD(g, st, rows, agebins, bw, node + 1, stats')
  {
    ghost var hist := HistAD(g, rows, bw);
    AgesBelow(g, node, rows - 1, agebins);
    var neis := g[node];
    stats' := stats;
    forall c | 0 <= c < Grid(rows, agebins)
      ensures stats'[c] == Fold(Samples(g, st, hist, node, c) + NodeSamples(g, st, hist, node, 0, c))
    {
      SamplesStart(g, st, hist, node, c);
    }
    var i := 0;
    while i < |neis|
      invariant i <= |neis| && |stats'| == Grid(rows, agebins)
      invariant forall c :: 0 <= c < Grid(rows, agebins) ==>
        stats'[c] == Fold(Samples(g, st, hist, node, c) + NodeSamples(g, st, hist, node, i, c))
    {
      stats' := SampleOneAD(g, st, rows, agebins, bw, node, i, indegree, tr, stats');
      i := i + 1;
    }
    forall c | 0 <= c < Grid(rows, agebins)
      ensures stats'[c] == Fold(Samples(g, st, hist, node + 1, c))
    {
      SamplesNext(g, st, hist, node, c);
    }
  }

  /** The sample of edge `i` of node `node`, pushed onto its cell's running mean. */
  method SampleOneAD(g: Graph, st: seq<real>, rows: nat, agebins: nat, bw: nat, node: nat, i: nat,
                     indegree: seq<nat>, tr: Tracker, stats: seq<Running>) returns (stats': seq<Running>)
    requires WellFormed(g) && |st| == |g| && rows > MaxInDeg(g) && agebins >= 1 && bw == BinWidth(|g|, agebins)
    requires node < |g| && i < |g[node]| && CountStateAD(g, rows, agebins, bw, node, indegree, tr)
    requires Below(Ages(g, node, rows, bw), Grid(rows, agebins)) && |stats| == Grid(rows, agebins)
    requires forall c :: 0 <= c < |stats| ==>
      stats[c] == Fold(Samples(g, st, HistAD(g, rows, bw), node, c) + NodeSamples(g, st, HistAD(g, rows, bw), node, i, c))
    ensures |stats'| == |stats|
    ensures forall c :: 0 <= c < |stats'| ==>
      stats'[c] == Fold(Samples(g, st, HistAD(g, rows, bw), node, c) + NodeSamples(g, st, HistAD(g, rows, bw), node, i + 1, c))
  {
    ghost var hist := HistAD(g, rows, bw);
    var to := g[node][i];
    var xidx := indegree[to];
    var age: nat := node - to;
    var yidx: nat := age / bw;
    var c := Cell(xidx, yidx, rows);
    ghost var cells := Ages(g, node, rows, bw);
    assert cells[to] == c;
    WiderGrid(cells, rows, agebins);
    assert EdgeClass(g, hist, node, i) == c;
    EdgeClassOccupied(g, hist, node, i);
    assert Count(hist[node], c) == tr.ntk[c];
    var xk := st[node - 1] / (tr.ntk[c] as real);
    PushSample(g, st, hist, node, i, stats);
    stats' := stats[c := Push(stats[c], xk)];
  }

  /** The update loop of one node: each citation moves the cited node one
      row down in its bin, the node itself joins cell (0, 0), and the nodes
      whose age reaches a multiple of the bin width move one bin on. */
  method CountNodeAD(g: Graph, rows: nat, agebins: nat, bw: nat, node: nat, indegree: seq<nat>, tr: Tracker)
    returns (indegree': seq<nat>, tr': Tracker)
    requires WellFormed(g) && rows > MaxInDeg(g) && agebins >= 1 && bw == BinWidth(|g|, agebins) && node < |g|
    requires CountStateAD(g, rows, agebins, bw, node, indegree, tr)
    ensures CountStateAD(g, rows, agebins, bw, node + 1, indegree', tr')
  {
    ghost var hist := HistAD(g, rows, bw);
    var neis := g[node];
    AdvanceAdds(tr, |neis|);
    tr' := Advance(tr, |neis|);
    indegree', tr' := CiteCountAD(g, rows, agebins, bw, node, indegree, tr');
    tr' := AgeCountAD(g, rows, agebins, bw, node, indegree', tr');
  }

  /** A citation, as a move of the cited node from cell `(x, y)` to cell
      `(x + 1, y)`, keeps the counters on the cells and every factor so far. */
  lemma CiteMoveKeeps(g: Graph, rows: nat, agebins: nat, bw: nat, t: nat, i: nat, x: nat, y: nat, tr: Tracker)
    requires WellFormed(g) && rows > MaxInDeg(g) && agebins >= 1 && bw == BinWidth(|g|, agebins)
    requires t < |g| && i < |g[t]| && g[t][i] < t
    requires x == Count(Cited(g, t, i), g[t][i]) && y == (t - g[t][i]) / bw
    requires Sane(tr) && |tr.ntk| == Grid(rows, agebins + 1) && |tr.normfact| == Grid(rows, agebins)
    requires tr.ntk == Counts(Citing(g, t, i, rows, bw), Grid(rows, agebins + 1))
    ensures Cell(x, y, rows) < Grid(rows, agebins) && Cell(x + 1, y, rows) < Grid(rows, agebins + 1)
    ensures tr.ntk[Cell(x, y, rows)] > 0
    ensures var r := Move(tr, Cell(x, y, rows), Cell(x + 1, y, rows));
            && Sane(r) && |r.ntk| == Grid(rows, agebins + 1) && |r.normfact| == Grid(rows, agebins)
            && r.edges == tr.edges
            && r.ntk == Counts(Citing(g, t, i + 1, rows, bw), Grid(rows, agebins + 1))
            && forall c :: 0 <= c < Grid(rows, agebins) ==> Closed(r, c) == Closed(tr, c)
  {
    var keys := Citing(g, t, i, rows, bw);
    CitingStep(g, t, i, rows, bw);
    CitingBounds(g, t, i, rows - 1, agebins);
    CitingBelow(g, t, i, rows, agebins, bw);
    WiderGrid(keys, rows, agebins);
    MoveKeeps(tr, keys, g[t][i], Cell(x + 1, y, rows));
  }

  /** The arrival of node `t` in cell (0, 0) keeps the counters on the cells
      and every factor so far. */
  lemma ArriveCountKeeps(g: Graph, rows: nat, agebins: nat, bw: nat, t: nat, tr: Tracker)
    requires WellFormed(g) && rows > MaxInDeg(g) && agebins >= 1 && bw == BinWidth(|g|, agebins) && t < |g|
    requires Sane(tr) && |tr.ntk| == Grid(rows, agebins + 1) && |tr.normfact| == Grid(rows, agebins)
    requires tr.ntk == Counts(Citing(g, t, |g[t]|, rows, bw), Grid(rows, agebins + 1))
    ensures Cell(0, 0, rows) < Grid(rows, agebins)
    ensures var r := Enter(tr, Cell(0, 0, rows));
            && Sane(r) && |r.ntk| == Grid(rows, agebins + 1) && |r.normfact| == Grid(rows, agebins)
            && r.edges == tr.edges
            && r.ntk == Counts(Aging(g, t, 1, rows, bw), Grid(rows, agebins + 1))
            && forall c :: 0 <= c < Grid(rows, agebins) ==> Closed(r, c) == Closed(tr, c)
  {
    var keys := Citing(g, t, |g[t]|, rows, bw);
    CitingBelow(g, t, |g[t]|, rows, agebins, bw);
    WiderGrid(keys, rows, agebins);
    CellBound(0, 0, rows, agebins);
    ArriveKeeps(tr, keys, Cell(0, 0, rows));
    ArriveAging(g, t, rows, bw);
  }

  /** The citations of node `node` and its arrival, on the counters. */
  method CiteCountAD(g: Graph, rows: nat, agebins: nat, bw: nat, node: nat, indegree: seq<nat>, tr: Tracker)
    returns (indegree': seq<nat>, tr': Tracker)
    requires WellFormed(g) && rows > MaxInDeg(g) && agebins >= 1 && bw == BinWidth(|g|, agebins) && node < |g|
    requires |indegree| == |g| && forall v :: 0 <= v < |g| ==> indegree[v] == Count(Flat(g, node), v)
    requires Sane(tr) && |tr.ntk| == Grid(rows, agebins + 1) && |tr.normfact| == Grid(rows, agebins)
    requires tr.ntk == Counts(Ages(g, node, rows, bw), Grid(rows, agebins + 1))
    ensures |indegree'| == |g| && forall v :: 0 <= v < |g| ==> indegree'[v] == Count(Flat(g, node + 1), v)
    ensures Sane(tr') && |tr'.ntk| == Grid(rows, agebins + 1) && |tr'.normfact| == Grid(rows, agebins)
    ensures tr'.edges == tr.edges
    ensures tr'.ntk == Counts(Aging(g, node, 1, rows, bw), Grid(rows, agebins + 1))
    ensures forall c :: 0 <= c < Grid(rows, agebins) ==> Closed(tr', c) == Closed(tr, c)
  {
    CitingStart(g, node, rows, bw);
    CitedAll(g, node);
    indegree' := indegree;
    tr' := tr;
    var neis := g[node];
    var i := 0;
    while i < |neis|
      invariant i <= |neis| && |indegree'| == |g|
      invariant forall v :: 0 <= v < |g| ==> indegree'[v] == Count(Cited(g, node, i), v)
      invariant Sane(tr') && |tr'.ntk| == Grid(rows, agebins + 1) && |tr'.normfact| == Grid(rows, agebins)
      invariant tr'.edges == tr.edges
      invariant tr'.ntk == Counts(Citing(g, node, i, rows, bw), Grid(rows, agebins + 1))
      invariant forall c :: 0 <= c < Grid(rows, agebins) ==> Closed(tr', c) == Closed(tr, c)
    {
      indegree', tr' := CiteOneAD(g, rows, agebins, bw, node, i, indegree', tr');
      i := i + 1;
    }
    ArriveCountKeeps(g, rows, agebins, bw, node, tr');
    tr' := Enter(tr', Cell(0, 0, rows));
  }

  /** The `i`-th citation of node `node`: the cited node moves one row up
      within its age column. */
  method CiteOneAD(g: Graph, rows: nat, agebins: nat, bw: nat, node: nat, i: nat, indegree: seq<nat>, tr: Tracker)
    returns (indegree': seq<nat>, tr': Tracker)
    requires WellFormed(g) && rows > MaxInDeg(g) && agebins >= 1 && bw == BinWidth(|g|, agebins) && node < |g|
    requires i < |g[node]| && |indegree| == |g|
    requires forall v :: 0 <= v < |g| ==> indegree[v] == Count(Cited(g, node, i), v)
    requires Sane(tr) && |tr.ntk| == Grid(rows, agebins + 1) && |tr.normfact| == Grid(rows, agebins)
    requires tr.ntk == Counts(Citing(g, node, i, rows, bw), Grid(rows, agebins + 1))
    ensures |indegree'| == |g| && forall v :: 0 <= v < |g| ==> indegree'[v] == Count(Cited(g, node, i + 1), v)
    ensures Sane(tr') && |tr'.ntk| == Grid(rows, agebins + 1) && |tr'.normfact| == Grid(rows, agebins)
    ensures tr'.edges == tr.edges
    ensures tr'.ntk == Counts(Citing(g, node, i + 1, rows, bw), Grid(rows, agebins + 1))
    ensures forall c :: 0 <= c < Grid(rows, agebins) ==> Closed(tr', c) == Closed(tr, c)
  {
    var to := g[node][i];
    ghost var next := CiteStep(g, node, i, indegree);
    var xidx := indegree[to];
    var age: nat := node - to;
    var yidx: nat := age / bw;
    CiteMoveKeeps(g, rows, agebins, bw, node, i, xidx, yidx, tr);
    tr' := Move(tr, Cell(xidx, yidx, rows), Cell(xidx + 1, yidx, rows));
    indegree' := indegree[to := xidx + 1];
  }

  /** The aging of node `node`'s time step, on the counters. */
  method AgeCountAD(g: Graph, rows: nat, agebins: nat, bw: nat, node: nat, indegree: seq<nat>, tr: Tracker)
    returns (tr': Tracker)
    requires WellFormed(g) && rows > MaxInDeg(g) && agebins >= 1 && bw == BinWidth(|g|, agebins) && node < |g|
    requires |indegree| == |g| && forall v :: 0 <= v < |g| ==> indegree[v] == Count(Flat(g, node + 1), v)
    requires Sane(tr) && |tr.ntk| == Grid(rows, agebins + 1) && |tr.normfact| == Grid(rows, agebins)
    requires tr.ntk == Counts(Aging(g, node, 1, rows, bw), Grid(rows, agebins + 1))
    ensures Sane(tr') && |tr'.ntk| == Grid(rows, agebins + 1) && |tr'.normfact| == Grid(rows, agebins)
    ensures tr'.edges == tr.edges
    ensures tr'.ntk == Counts(Ages(g, node + 1, rows, bw), Grid(rows, agebins + 1))
    ensures forall c :: 0 <= c < Grid(rows, agebins) ==> Closed(tr', c) == Closed(tr, c)
  {
    tr' := tr;
    var k := 1;
    while node - bw * k + 1 >= 0
      invariant k >= 1
      invariant Sane(tr') && |tr'.ntk| == Grid(rows, agebins + 1) && |tr'.normfact| == Grid(rows, agebins)
      invariant tr'.edges == tr.edges
      invariant tr'.ntk == Counts(Aging(g, node, k, rows, bw), Grid(rows, agebins + 1))
      invariant forall c :: 0 <= c < Grid(rows, agebins) ==> Closed(tr', c) == Closed(tr, c)
      decreases node + 1 - bw * k
    {
      var shnode := node - bw * k + 1;
      var deg := indegree[shnode];
      ghost var keys := Aging(g, node, k, rows, bw);
      AgingStep(g, node, k, rows, bw);
      AgingBounds(g, node, k, rows - 1, agebins);
      AgingBelow(g, node, k, rows, agebins, bw);
      WiderGrid(keys, rows, agebins);
      MoveKeeps(tr', keys, shnode, Cell(deg, k, rows));
      tr' := Move(tr', Cell(deg, k - 1, rows), Cell(deg, k, rows));
      AgingAdvances(bw, k);
      k := k + 1;
    }
    AgingEnd(g, node, k, rows, bw);
  }

  // ---------------------------------------------------------------------------
  // Expected citations (igraph_evolver_exp_ad)
  // ---------------------------------------------------------------------------

  /** The expected number of citations of every cell: its size integrated
      over the citation clock, times its kernel value. */
  method ExpectedAD(g: Graph, kernel: seq<real>, st: seq<real>, maxind: nat, agebins: nat) returns (expected: seq<real>)
    requires WellFormed(g) && |st| == |g| && NonZero(st) && maxind >= MaxInDeg(g) && agebins >= 1
    requires |kernel| == Grid(maxind + 1, agebins)
    ensures Timeline(g, HistAD(g, maxind + 1, BinWidth(|g|, agebins)))
    ensures ExpectedCites(g, st, HistAD(g, maxind + 1, BinWidth(|g|, agebins)), kernel, expected)
  {
    var rows := maxind + 1;
    var bw := |g| / agebins + 1;
    HistADTimeline(g, maxind, agebins);
    ghost var hist := HistAD(g, rows, bw);
    var cumst := CumulativeSt(g, st);
    var indegree: seq<nat> := seq(|g|, _ => 0);
    var m := Idle(Grid(rows, agebins));
    IdleTracks(g, st, hist, cumst, Grid(rows, agebins));
    assert Ages(g, 0, rows, bw) == [];
    var node := 0;
    while node < |g|
      invariant node <= |g| && |indegree| == |g|
      invariant forall v :: 0 <= v < |g| ==> indegree[v] == Count(Flat(g, node), v)
      invariant |m.ntk| == Grid(rows, agebins) && m.ntk == Counts(Ages(g, node, rows, bw), Grid(rows, agebins))
      invariant Tracks(g, st, hist, cumst, m, node)
      decreases |g| - node
    {
      indegree, m := ExposeNodeAD(g, st, hist, rows, agebins, bw, cumst, node, indegree, m);
      TickTracks(g, st, hist, cumst, m, node);
      node := node + 1;
    }
    expected := Expect(g, st, hist, cumst, m, kernel);
  }

  /** The cell changes of one node, each settled on the meter at the node's
      time step. */
  method ExposeNodeAD(g: Graph, st: seq<real>, ghost hist: seq<seq<nat>>, rows: nat, agebins: nat, bw: nat,
                      cumst: seq<real>, node: nat, indegree: seq<nat>, m: Meter) returns (indegree': seq<nat>, m': Meter)
    requires WellFormed(g) && rows > MaxInDeg(g) && agebins >= 1 && bw == BinWidth(|g|, agebins) && node < |g|
    requires |st| == |g| && NonZero(st) && Readings(g, st, cumst) && hist == HistAD(g, rows, bw) && Timeline(g, hist)
    requires |indegree| == |g| && forall v :: 0 <= v < |g| ==> indegree[v] == Count(Flat(g, node), v)
    requires |m.ntk| == Grid(rows, agebins) && m.ntk == Counts(Ages(g, node, rows, bw), Grid(rows, agebins))
    requires Tracks(g, st, hist, cumst, m, node)
    ensures |indegree'| == |g| && forall v :: 0 <= v < |g| ==> indegree'[v] == Count(Flat(g, node + 1), v)
    ensures |m'.ntk| == Grid(rows, agebins) && m'.ntk == Counts(hist[node + 1], Grid(rows, agebins))
    ensures Tracks(g, st, hist, cumst, m', node)
  {
    indegree', m' := CiteExposeAD(g, rows, agebins, bw, cumst, node, indegree, m);
    m' := AgeExposeAD(g, rows, agebins, bw, cumst, node, indegree', m');
  }

  /** A citation, as a move of the cited node from cell `(x, y)` to cell
      `(x + 1, y)`, keeps the meter on the cells and every exposure so far. */
  lemma CiteMeterKeeps(g: Graph, rows: nat, agebins: nat, bw: nat, cumst: seq<real>, t: nat, i: nat, x: nat, y: nat, m: Meter)
    requires WellFormed(g) && rows > MaxInDeg(g) && agebins >= 1 && bw == BinWidth(|g|, agebins)
    requires t < |g| && i < |g[t]| && g[t][i] < t
    requires x == Count(Cited(g, t, i), g[t][i]) && y == (t - g[t][i]) / bw
    requires Steady(m, t) && t < |cumst| && |m.ntk| == Grid(rows, agebins)
    requires m.ntk == Counts(Citing(g, t, i, rows, bw), Grid(rows, agebins))
    ensures Cell(x, y, rows) < Grid(rows, agebins) && Cell(x + 1, y, rows) < Grid(rows, agebins)
    ensures m.ntk[Cell(x, y, rows)] > 0
    ensures var r := MeterMove(m, cumst, t, Cell(x, y, rows), Cell(x + 1, y, rows));
            && |r.ntk| == Grid(rows, agebins)
            && r.ntk == Counts(Citing(g, t, i + 1, rows, bw), Grid(rows, agebins))
            && forall c :: 0 <= c < Grid(rows, agebins) ==> Pending(r, cumst, t, c) == Pending(m, cumst, t, c)
  {
    var keys := Citing(g, t, i, rows, bw);
    CitingStep(g, t, i, rows, bw);
    CitingBounds(g, t, i, rows - 1, agebins);
    CitingBelow(g, t, i, rows, agebins, bw);
    MeterMoveKeeps(m, cumst, t, keys, g[t][i], Cell(x + 1, y, rows));
  }

  /** The arrival of node `t` in cell (0, 0) keeps the meter on the cells and
      every exposure so far. */
  lemma ArriveMeterKeeps(g: Graph, rows: nat, agebins: nat, bw: nat, cumst: seq<real>, t: nat, m: Meter)
    requires WellFormed(g) && rows > MaxInDeg(g) && agebins >= 1 && bw == BinWidth(|g|, agebins) && t < |g|
    requires Steady(m, t) && t < |cumst| && |m.ntk| == Grid(rows, agebins)
    requires m.ntk == Counts(Citing(g, t, |g[t]|, rows, bw), Grid(rows, agebins))
    ensures Cell(0, 0, rows) < Grid(rows, agebins)
    ensures var r := MeterEnter(m, cumst, t, Cell(0, 0, rows));
            && |r.ntk| == Grid(rows, agebins)
            && r.ntk == Counts(Aging(g, t, 1, rows, bw), Grid(rows, agebins))
            && forall c :: 0 <= c < Grid(rows, agebins) ==> Pending(r, cumst, t, c) == Pending(m, cumst, t, c)
  {
    var keys := Citing(g, t, |g[t]|, rows, bw);
    CitingBelow(g, t, |g[t]|, rows, agebins, bw);
    CellBound(0, 0, rows, agebins);
    MeterArriveKeeps(m, cumst, t, keys, Cell(0, 0, rows));
    ArriveAging(g, t, rows, bw);
  }

  /** The citations of node `node` and its arrival, on the meter. */
  method CiteExposeAD(g: Graph, rows: nat, agebins: nat, bw: nat, cumst: seq<real>, node: nat,
                      indegree: seq<nat>, m: Meter) returns (indegree': seq<nat>, m': Meter)
    requires WellFormed(g) && rows > MaxInDeg(g) && agebins >= 1 && bw == BinWidth(|g|, agebins) && node < |g|
    requires |indegree| == |g| && forall v :: 0 <= v < |g| ==> indegree[v] == Count(Flat(g, node), v)
    requires Steady(m, node) && node < |cumst| && |m.ntk| == Grid(rows, agebins)
    requires m.ntk == Counts(Ages(g, node, rows, bw), Grid(rows, agebins))
    ensures |indegree'| == |g| && forall v :: 0 <= v < |g| ==> indegree'[v] == Count(Flat(g, node + 1), v)
    ensures Steady(m', node) && |m'.ntk| == Grid(rows, agebins)
    ensures m'.ntk == Counts(Aging(g, node, 1, rows, bw), Grid(rows, agebins))
    ensures forall c :: 0 <= c < Grid(rows, agebins) ==> Pending(m', cumst, node, c) == Pending(m, cumst, node, c)
  {
    CitingStart(g, node, rows, bw);
    CitedAll(g, node);
    indegree' := indegree;
    m' := m;
    var neis := g[node];
    var i := 0;
    while i < |neis|
      invariant i <= |neis| && |indegree'| == |g|
      invariant forall v :: 0 <= v < |g| ==> indegree'[v] == Count(Cited(g, node, i), v)
      invariant Steady(m', node) && |m'.ntk| == Grid(rows, agebins)
      invariant m'.ntk == Counts(Citing(g, node, i, rows, bw), Grid(rows, agebins))
      invariant forall c :: 0 <= c < Grid(rows, agebins) ==> Pending(m', cumst, node, c) == Pending(m, cumst, node, c)
    {
      indegree', m' := CiteExposeOne(g, rows, agebins, bw, cumst, node, i, indegree', m');
      i := i + 1;
    }
    ArriveMeterKeeps(g, rows, agebins, bw, cumst, node, m');
    m' := MeterEnter(m', cumst, node, Cell(0, 0, rows));
  }

  /** The `i`-th citation of node `node` on the meter: the cited node leaves
      its cell and enters the one a row further down. */
  method CiteExposeOne(g: Graph, rows: nat, agebins: nat, bw: nat, cumst: seq<real>, node: nat, i: nat,
                       indegree: seq<nat>, m: Meter) returns (indegree': seq<nat>, m': Meter)
    requires WellFormed(g) && rows > MaxInDeg(g) && agebins >= 1 && bw == BinWidth(|g|, agebins) && node < |g|
    requires i < |g[node]| && |indegree| == |g|
    requires forall v :: 0 <= v < |g| ==> indegree[v] == Count(Cited(g, node, i), v)
    requires Steady(m, node) && node < |cumst| && |m.ntk| == Grid(rows, agebins)
    requires m.ntk == Counts(Citing(g, node, i, rows, bw), Grid(rows, agebins))
    ensures |indegree'| == |g| && forall v :: 0 <= v < |g| ==> indegree'[v] == Count(Cited(g, node, i + 1), v)
    ensures Steady(m', node) && |m'.ntk| == Grid(rows, agebins)
    ensures m'.ntk == Counts(Citing(g, node, i + 1, rows, bw), Grid(rows, agebins))
    ensures forall c :: 0 <= c < Grid(rows, agebins) ==> Pending(m', cumst, node, c) == Pending(m, cumst, node, c)
  {
    var to := g[node][i];
    ghost var next := CiteStep(g, node, i, indegree);
    var xidx := indegree[to];
    var age: nat := node - to;
    var yidx: nat := age / bw;
    CiteMeterKeeps(g, rows, agebins, bw, cumst, node, i, xidx, yidx, m);
    m' := MeterMove(m, cumst, node, Cell(xidx, yidx, rows), Cell(xidx + 1, yidx, rows));
    indegree' := indegree[to := xidx + 1];
  }

  /** The aging of node `node`'s time step, on the meter. */
  method AgeExposeAD(g: Graph, rows: nat, agebins: nat, bw: nat, cumst: seq<real>, node: nat,
                     indegree: seq<nat>, m: Meter) returns (m': Meter)
    requires WellFormed(g) && rows > MaxInDeg(g) && agebins >= 1 && bw == BinWidth(|g|, agebins) && node < |g|
    requires |indegree| == |g| && forall v :: 0 <= v < |g| ==> indegree[v] == Count(Flat(g, node + 1), v)
    requires Steady(m, node) && node < |cumst| && |m.ntk| == Grid(rows, agebins)
    requires m.ntk == Counts(Aging(g, node, 1, rows, bw), Grid(rows, agebins))
    ensures Steady(m', node) && |m'.ntk| == Grid(rows, agebins)
    ensures m'.ntk == Counts(Ages(g, node + 1, rows, bw), Grid(rows, agebins))
    ensures forall c :: 0 <= c < Grid(rows, agebins) ==> Pending(m', cumst, node, c) == Pending(m, cumst, node, c)
  {
    m' := m;
    var k := 1;
    while node - bw * k + 1 >= 0
      invariant k >= 1
      invariant Steady(m', node) && |m'.ntk| == Grid(rows, agebins)
      invariant m'.ntk == Counts(Aging(g, node, k, rows, bw), Grid(rows, agebins))
      invariant forall c :: 0 <= c < Grid(rows, agebins) ==> Pending(m', cumst, node, c) == Pending(m, cumst, node, c)
      decreases node + 1 - bw * k
    {
      var shnode := node - bw * k + 1;
      var deg := indegree[shnode];
      ghost var keys := Aging(g, node, k, rows, bw);
      AgingStep(g, node, k, rows, bw);
      AgingBounds(g, node, k, rows - 1, agebins);
      AgingBelow(g, node, k, rows, agebins, bw);
      MeterMoveKeeps(m', cumst, node, keys, shnode, Cell(deg, k, rows));
      m' := MeterMove(m', cumst, node, Cell(deg, k - 1, rows), Cell(deg, k, rows));
      AgingAdvances(bw, k);
      k := k + 1;
    }
    AgingEnd(g, node, k, rows, bw);
  }

  // ---------------------------------------------------------------------------
  // Likelihood (igraph_evolver_error_ad)
  // ---------------------------------------------------------------------------

  /** The arguments of the logarithms the likelihood pass sums, one pair per
      citation in citation order: the cited cell's kernel value times its
      size over the structural sum, and its size over the number of present
      nodes.  The counters start from the cell of node 0 alone, as the
      likelihood pass places it, and every later node reads them, cites and
      ages. */
  method LikelihoodAD(g: Graph, kernel: seq<real>, st: seq<real>, maxind: nat, agebins: nat) returns (terms: seq<Term>)
    requires WellFormed(g) && |st| == |g| && Divisible(g, st) && maxind >= MaxInDeg(g) && agebins >= 1
    requires |kernel| == Grid(maxind + 1, agebins)
    ensures Timeline(g, HistAD(g, maxind + 1, BinWidth(|g|, agebins)))
    ensures Keyed(HistAD(g, maxind + 1, BinWidth(|g|, agebins)), |kernel|)
    ensures terms == Terms(g, kernel, st, HistAD(g, maxind + 1, BinWidth(|g|, agebins)), |g|)
  {
    var rows := maxind + 1;
    var bw := |g| / agebins + 1;
    HistADTimeline(g, maxind, agebins);
    ghost var hist := HistAD(g, rows, bw);
    terms := [];
    if |g| == 0 {
      return;
    }
    var size := Grid(rows, agebins + 1);
    var indegree: seq<nat> := seq(|g|, _ => 0);
    var ntk: seq<nat> := seq(size, _ => 0);
    var first := FirstCell(g, rows, agebins, bw);
    if bw > 1 {
      ntk := ntk[Cell(0, 0, rows) := 1];
    } else {
      ntk := ntk[Cell(0, 1, rows) := 1];
    }
    assert ntk == Counts(Ages(g, 1, rows, bw), size);
    assert terms == Terms(g, kernel, st, hist, 1);
    var node := 1;
    while node < |g|
      invariant 1 <= node <= |g| && |indegree| == |g|
      invariant forall v :: 0 <= v < |g| ==> indegree[v] == Count(Flat(g, node), v)
      invariant ntk == Counts(Ages(g, node, rows, bw), size)
      invariant terms == Terms(g, kernel, st, hist, node)
      decreases |g| - node
    {
      var more := NodeTermsAD(g, kernel, st, hist, rows, agebins, bw, node, indegree, ntk);
      terms := terms + more;
      indegree, ntk := RecountNodeAD(g, rows, agebins, bw, node, indegree, ntk);
      node := node + 1;
    }
  }

  /** Node 0 alone: no in-degree yet, and its cell at time 1 is (0, 0), or
      (0, 1) when every age is a bin of its own.  No node has been cited. */
  lemma FirstCell(g: Graph, rows: nat, agebins: nat, bw: nat) returns (c: nat)
    requires WellFormed(g) && |g| >= 1 && agebins >= 1 && rows > MaxInDeg(g) && bw == BinWidth(|g|, agebins)
    ensures c == if bw > 1 then Cell(0, 0, rows) else Cell(0, 1, rows)
    ensures c < Grid(rows, agebins + 1)
    ensures Ages(g, 1, rows, bw) == [c]
    ensures Counts(Ages(g, 1, rows, bw), Grid(rows, agebins + 1)) == seq(Grid(rows, agebins + 1), _ => 0)[c := 1]
    ensures |g[0]| == 0 && forall v :: 0 <= v < |g| ==> Count(Flat(g, 1), v) == 0
  {
    NewcomerUncited(g, 0);
    FirstBin(bw);
    AgesBelow(g, 1, rows - 1, agebins);
    c := Ages(g, 1, rows, bw)[0];
    WiderGrid(Ages(g, 1, rows, bw), rows, agebins);
    assert Ages(g, 1, rows, bw) == [] + [c];
    CountsAppend([], c, Grid(rows, agebins + 1));
    assert Counts([], Grid(rows, agebins + 1)) == seq(Grid(rows, agebins + 1), _ => 0);
    FirstCitesNothing(g);
    CitedAll(g, 0);
    forall v | 0 <= v < |g|
      ensures Count(Flat(g, 1), v) == 0
    {
      CitedBelow(g, 0, |g[0]|, v);
    }
  }

  /** The terms of the citations of one node, read off the cell sizes before
      the node cites. */
  method NodeTermsAD(g: Graph, kernel: seq<real>, st: seq<real>, ghost hist: seq<seq<nat>>, rows: nat, agebins: nat,
                     bw: nat, node: nat, indegree: seq<nat>, ntk: seq<nat>) returns (more: seq<Term>)
    requires WellFormed(g) && |st| == |g| && Divisible(g, st) && rows > MaxInDeg(g) && agebins >= 1
    requires bw == BinWidth(|g|, agebins) && |kernel| == Grid(rows, agebins)
    requires hist == HistAD(g, rows, bw) && Timeline(g, hist) && Keyed(hist, |kernel|)
    requires 1 <= node < |g| && |indegree| == |g|
    requires forall v :: 0 <= v < |g| ==> indegree[v] == Count(Flat(g, node), v)
    requires ntk == Counts(Ages(g, node, rows, bw), Grid(rows, agebins + 1))
    ensures more == NodeTerms(g, kernel, st, hist, node, |g[node]|)
  {
    var neis := g[node];
    more := [];
    var i := 0;
    while i < |neis|
      invariant i <= |neis| && more == NodeTerms(g, kernel, st, hist, node, i)
    {
      var term := EdgeTermAD(g, kernel, st, hist, rows, agebins, bw, node, i, indegree, ntk);
      more := more + [term];
      i := i + 1;
    }
  }

  /** The term of edge `i` of node `node`, read off the counters at the cited
      node's cell. */
  method EdgeTermAD(g: Graph, kernel: seq<real>, st: seq<real>, ghost hist: seq<seq<nat>>, rows: nat, agebins: nat,
                    bw: nat, node: nat, i: nat, indegree: seq<nat>, ntk: seq<nat>) returns (term: Term)
    requires WellFormed(g) && |st| == |g| && Divisible(g, st) && rows > MaxInDeg(g) && agebins >= 1
    requires bw == BinWidth(|g|, agebins) && |kernel| == Grid(rows, agebins)
    requires Timeline(g, hist) && Keyed(hist, |kernel|)
    requires 1 <= node < |g| && i < |g[node]| && |indegree| == |g| && hist[node] == Ages(g, node, rows, bw)
    requires forall v :: 0 <= v < |g| ==> indegree[v] == Count(Flat(g, node), v)
    requires ntk == Counts(Ages(g, node, rows, bw), Grid(rows, agebins + 1))
    ensures term == EdgeTerm(g, kernel, st, hist, node, i)
  {
    var to := g[node][i];
    var xidx := indegree[to];
    var age: nat := node - to;
    var yidx: nat := age / bw;
    var c := Cell(xidx, yidx, rows);
    var cells := Ages(g, node, rows, bw);
    assert cells[to] == c;
    WiderGrid(cells, rows, agebins);
    assert EdgeClass(g, hist, node, i) == c;
    assert Count(hist[node], c) == ntk[c];
    var n: nat := ntk[c];
    EdgeTermOf(g, kernel, st, hist, node, i, c, n);
    term := Term(kernel[c] * (n as real) / st[node - 1], (n as real) / (node as real));
  }

  /** The cell-size update of one node, without any bookkeeping. */
  method RecountNodeAD(g: Graph, rows: nat, agebins: nat, bw: nat, node: nat, indegree: seq<nat>, ntk: seq<nat>)
    returns (indegree': seq<nat>, ntk': seq<nat>)
    requires WellFormed(g) && rows > MaxInDeg(g) && agebins >= 1 && bw == BinWidth(|g|, agebins) && node < |g|
    requires |indegree| == |g| && forall v :: 0 <= v < |g| ==> indegree[v] == Count(Flat(g, node), v)
    requires ntk == Counts(Ages(g, node, rows, bw), Grid(rows, agebins + 1))
    ensures |indegree'| == |g| && forall v :: 0 <= v < |g| ==> indegree'[v] == Count(Flat(g, node + 1), v)
    ensures ntk' == Counts(Ages(g, node + 1, rows, bw), Grid(rows, agebins + 1))
  {
    indegree', ntk' := CiteRecountAD(g, rows, agebins, bw, node, indegree, ntk);
    ntk' := AgeRecountAD(g, rows, agebins, bw, node, indegree', ntk');
  }

  /** A citation, as a move of the cited node from cell `(x, y)` to cell
      `(x + 1, y)`, keeps the counters on the cells. */
  lemma CiteRecountKeeps(g: Graph, rows: nat, agebins: nat, bw: nat, t: nat, i: nat, x: nat, y: nat, ntk: seq<nat>)
    requires WellFormed(g) && rows > MaxInDeg(g) && agebins >= 1 && bw == BinWidth(|g|, agebins)
    requires t < |g| && i < |g[t]| && g[t][i] < t
    requires x == Count(Cited(g, t, i), g[t][i]) && y == (t - g[t][i]) / bw
    requires ntk == Counts(Citing(g, t, i, rows, bw), Grid(rows, agebins + 1))
    ensures Cell(x, y, rows) < Grid(rows, agebins + 1) && Cell(x + 1, y, rows) < Grid(rows, agebins + 1)
    ensures ntk[Cell(x, y, rows)] >= 1
    ensures var left := ntk[Cell(x, y, rows) := ntk[Cell(x, y, rows)] - 1];
            left[Cell(x + 1, y, rows) := left[Cell(x + 1, y, rows)] + 1]
              == Counts(Citing(g, t, i + 1, rows, bw), Grid(rows, agebins + 1))
  {
    var keys := Citing(g, t, i, rows, bw);
    CitingStep(g, t, i, rows, bw);
    CitingBounds(g, t, i, rows - 1, agebins);
    CitingBelow(g, t, i, rows, agebins, bw);
    WiderGrid(keys, rows, agebins);
    CountsMove(keys, g[t][i], Cell(x + 1, y, rows), Grid(rows, agebins + 1));
  }

  /** The citations of node `node` and its arrival, on the counters. */
  method CiteRecountAD(g: Graph, rows: nat, agebins: nat, bw: nat, node: nat, indegree: seq<nat>, ntk: seq<nat>)
    returns (indegree': seq<nat>, ntk': seq<nat>)
    requires WellFormed(g) && rows > MaxInDeg(g) && agebins >= 1 && bw == BinWidth(|g|, agebins) && node < |g|
    requires |indegree| == |g| && forall v :: 0 <= v < |g| ==> indegree[v] == Count(Flat(g, node), v)
    requires ntk == Counts(Ages(g, node, rows, bw), Grid(rows, agebins + 1))
    ensures |indegree'| == |g| && forall v :: 0 <= v < |g| ==> indegree'[v] == Count(Flat(g, node + 1), v)
    ensures ntk' == Counts(Aging(g, node, 1, rows, bw), Grid(rows, agebins + 1))
  {
    CitingStart(g, node, rows, bw);
    CitedAll(g, node);
    indegree' := indegree;
    ntk' := ntk;
    var neis := g[node];
    var i := 0;
    while i < |neis|
      invariant i <= |neis| && |indegree'| == |g|
      invariant forall v :: 0 <= v < |g| ==> indegree'[v] == Count(Cited(g, node, i), v)
      invariant ntk' == Counts(Citing(g, node, i, rows, bw), Grid(rows, agebins + 1))
    {
      indegree', ntk' := CiteRecountOne(g, rows, agebins, bw, node, i, indegree', ntk');
      i := i + 1;
    }
    var keys := Citing(g, node, |neis|, rows, bw);
    CitingBelow(g, node, |neis|, rows, agebins, bw);
    WiderGrid(keys, rows, agebins);
    CellBound(0, 0, rows, agebins);
    CountsAppend(keys, Cell(0, 0, rows), Grid(rows, agebins + 1));
    ArriveAging(g, node, rows, bw);
    ntk' := ntk'[Cell(0, 0, rows) := ntk'[Cell(0, 0, rows)] + 1];
  }

  /** The `i`-th citation of node `node` on the counters. */
  method CiteRecountOne(g: Graph, rows: nat, agebins: nat, bw: nat, node: nat, i: nat, indegree: seq<nat>, ntk: seq<nat>)
    returns (indegree': seq<nat>, ntk': seq<nat>)
    requires WellFormed(g) && rows > MaxInDeg(g) && agebins >= 1 && bw == BinWidth(|g|, agebins) && node < |g|
    requires i < |g[node]| && |indegree| == |g|
    requires forall v :: 0 <= v < |g| ==> indegree[v] == Count(Cited(g, node, i), v)
    requires ntk == Counts(Citing(g, node, i, rows, bw), Grid(rows, agebins + 1))
    ensures |indegree'| == |g| && forall v :: 0 <= v < |g| ==> indegree'[v] == Count(Cited(g, node, i + 1), v)
    ensures ntk' == Counts(Citing(g, node, i + 1, rows, bw), Grid(rows, agebins + 1))
  {
    var to := g[node][i];
    ghost var next := CiteStep(g, node, i, indegree);
    var xidx := indegree[to];
    var age: nat := node - to;
    var yidx: nat := age / bw;
    CiteRecountKeeps(g, rows, agebins, bw, node, i, xidx, yidx, ntk);
    indegree' := indegree[to := xidx + 1];
    ntk' := ntk[Cell(xidx, yidx, rows) := ntk[Cell(xidx, yidx, rows)] - 1];
    ntk' := ntk'[Cell(xidx + 1, yidx, rows) := ntk'[Cell(xidx + 1, yidx, rows)] + 1];
  }

  /** The aging of node `node`'s time step, on the counters. */
  method AgeRecountAD(g: Graph, rows: nat, agebins: nat, bw: nat, node: nat, indegree: seq<nat>, ntk: seq<nat>)
    returns (ntk': seq<nat>)
    requires WellFormed(g) && rows > MaxInDeg(g) && agebins >= 1 && bw == BinWidth(|g|, agebins) && node < |g|
    requires |indegree| == |g| && forall v :: 0 <= v < |g| ==> indegree[v] == Count(Flat(g, node + 1), v)
    requires ntk == Counts(Aging(g, node, 1, rows, bw), Grid(rows, agebins + 1))
    ensures ntk' == Counts(Ages(g, node + 1, rows, bw), Grid(rows, agebins + 1))
  {
    ntk' := ntk;
    var k := 1;
    while node - bw * k + 1 >= 0
      invariant k >= 1
      invariant ntk' == Counts(Aging(g, node, k, rows, bw), Grid(rows, agebins + 1))
      decreases node + 1 - bw * k
    {
      var shnode := node - bw * k + 1;
      var deg := indegree[shnode];
      ghost var keys := Aging(g, node, k, rows, bw);
      AgingStep(g, node, k, rows, bw);
      AgingBounds(g, node, k, rows - 1, agebins);
      AgingBelow(g, node, k, rows, agebins, bw);
      WiderGrid(keys, rows, agebins);
      CountsMove(keys, shnode, Cell(deg, k, rows), Grid(rows, agebins + 1));
      ntk' := ntk'[Cell(deg, k - 1, rows) := ntk'[Cell(deg, k - 1, rows)] - 1];
      ntk' := ntk'[Cell(deg, k, rows) := ntk'[Cell(deg, k, rows)] + 1];
      AgingAdvances(bw, k);
      k := k + 1;
    }
    AgingEnd(g, node, k, rows, bw);
  }
}

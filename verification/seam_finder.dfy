/** The seam finder of seam/SeamCarver.java (findSeam, dagSP, relax,
    traceSeam): a single-pass shortest path over the energy matrix seen as a
    layered DAG in which cell (r, c) has edges to (r + 1, c - 1), (r + 1, c)
    and (r + 1, c + 1).  The functional definitions below (`Dist`, `Pred`,
    `Seam`) are the reference; `FindSeam` is the imperative dynamic program,
    proved equal to it, and the lemmas give the reference its meaning:
    minimum-cost paths with a leftmost tie-break. */
module SeamFinder {
  import opened Matrix
  import opened SeamEnergy

  /** A `double` distance that may still be `POSITIVE_INFINITY`. */
  datatype Ext = Inf | Fin(v: real)

  /** `distTo > dist` in relax, and `distTo[rows-1][i] < min` in traceSeam. */
  predicate Improves(cand: real, d: Ext)
  {
    d.Inf? || cand < d.v
  }

  /** A distance together with the column it was reached from. */
  datatype Relax = Relax(dist: Ext, edge: int)

  /** An energy matrix with at least one row and one column. */
  predicate IsEnergy(e: seq<seq<real>>)
  {
    IsMatrix(e) && |e[0]| > 0
  }

  /** Columns `s` and `t` of consecutive rows are joined by an edge. */
  predicate Adjacent(s: int, t: int)
  {
    -1 <= s - t <= 1
  }

  /** The sources that reach column `t` of the next row form the range
      [Lo(t), Lo(t) + Count(t, cols)), and dagSP relaxes them in increasing
      column order. */
  function Lo(t: nat): nat
  {
    if t == 0 then 0 else t - 1
  }

  function Count(t: nat, cols: nat): (n: nat)
    requires t < cols
    ensures 0 < n && Lo(t) + n <= cols
  {
    (if t + 1 < cols then t + 1 else t) - Lo(t) + 1
  }

  /** The source range of a column is exactly its adjacent columns. */
  lemma SourcesAreAdjacent(t: nat, cols: nat)
    requires t < cols
    ensures forall s :: Lo(t) <= s < Lo(t) + Count(t, cols) <==> 0 <= s < cols && Adjacent(s, t)
  {
    var n := Count(t, cols);
    assert n == (if t + 1 < cols then t + 1 else t) - Lo(t) + 1;
  }

  /** Distance of cell (r, t) once dagSP is done: 1000 in row 0, otherwise
      what relaxing all its sources left in it. */
  function Dist(e: seq<seq<real>>, r: nat, t: nat): real
    requires IsEnergy(e) && r < |e| && t < |e[0]|
    decreases r, 1, 0
  {
    if r == 0 then BorderEnergy else Relaxed(e, r - 1, t, Count(t, |e[0]|)).dist.v
  }

  /** The state of target (q + 1, t) after its first `k` sources Lo(t),
      Lo(t) + 1, ... of row q were relaxed, starting from (+infinity, 0) as
      findSeam initialises it: a finite distance with one of them as its edge. */
  function Relaxed(e: seq<seq<real>>, q: nat, t: nat, k: nat): (x: Relax)
    requires IsEnergy(e) && q + 1 < |e| && t < |e[0]| && k <= Count(t, |e[0]|)
    ensures k == 0 ==> x == Relax(Inf, 0)
    ensures k > 0 ==> x.dist.Fin? && Lo(t) <= x.edge < Lo(t) + k
    decreases q + 1, 0, k
  {
    if k == 0 then Relax(Inf, 0)
    else
      RelaxEdge(Dist(e, q, Lo(t) + k - 1), e[q + 1][t], Relaxed(e, q, t, k - 1), Lo(t) + k - 1)
  }

  /** The stored distance is that of the edge's source plus the cell's
      energy, and only a strictly smaller candidate replaces it, so it is the
      minimum over the sources, reached from the leftmost source attaining it. */
  lemma {:induction false} RelaxedIsLeftmostMin(e: seq<seq<real>>, q: nat, t: nat, k: nat)
    requires IsEnergy(e) && q + 1 < |e| && t < |e[0]| && 0 < k <= Count(t, |e[0]|)
    ensures Relaxed(e, q, t, k).dist.v == Dist(e, q, Relaxed(e, q, t, k).edge) + e[q + 1][t]
    ensures forall s :: Lo(t) <= s < Lo(t) + k ==>
      Relaxed(e, q, t, k).dist.v <= Dist(e, q, s) + e[q + 1][t]
    ensures forall s :: Lo(t) <= s < Relaxed(e, q, t, k).edge ==>
      Dist(e, q, s) + e[q + 1][t] > Relaxed(e, q, t, k).dist.v
    decreases k
  {
    if k > 1 {
      RelaxedIsLeftmostMin(e, q, t, k - 1);
    }
  }

  /** A row of distTo once dagSP is done. */
  function DistRow(e: seq<seq<real>>, r: nat): (d: seq<real>)
    requires IsEnergy(e) && r < |e|
    ensures |d| == |e[0]| && forall t :: 0 <= t < |e[0]| ==> d[t] == Dist(e, r, t)
  {
    seq(|e[0]|, t requires 0 <= t < |e[0]| => Dist(e, r, t))
  }

  /** edgeTo[r][t] once dagSP is done. */
  function Pred(e: seq<seq<real>>, r: nat, t: nat): (p: int)
    requires IsEnergy(e) && 1 <= r < |e| && t < |e[0]|
    ensures 0 <= p < |e[0]| && Adjacent(p, t)
  {
    Relaxed(e, r - 1, t, Count(t, |e[0]|)).edge
  }

  /** The predecessor of (q + 1, t) is an adjacent column of row q holding the
      smallest distance among the adjacent ones, and the leftmost such column;
      the distance of (q + 1, t) is that one plus the energy of the cell. */
  lemma PredIsLeftmostMin(e: seq<seq<real>>, q: nat, t: nat)
    requires IsEnergy(e) && q + 1 < |e| && t < |e[0]|
    ensures Dist(e, q + 1, t) == Dist(e, q, Pred(e, q + 1, t)) + e[q + 1][t]
    ensures forall s :: 0 <= s < |e[0]| && Adjacent(s, t) ==>
      Dist(e, q, Pred(e, q + 1, t)) <= Dist(e, q, s)
    ensures forall s :: 0 <= s < Pred(e, q + 1, t) && Adjacent(s, t) ==>
      Dist(e, q, s) > Dist(e, q, Pred(e, q + 1, t))
  {
    RelaxedIsLeftmostMin(e, q, t, Count(t, |e[0]|));
    SourcesAreAdjacent(t, |e[0]|);
  }

  /** The distance of (r, t) is that of its predecessor plus its energy. */
  lemma DistViaPred(e: seq<seq<real>>, r: nat, t: nat)
    requires IsEnergy(e) && 1 <= r < |e| && t < |e[0]|
    ensures Dist(e, r, t) == Dist(e, r - 1, Pred(e, r, t)) + e[r][t]
  {
    RelaxedIsLeftmostMin(e, r - 1, t, Count(t, |e[0]|));
  }

  /** The same relaxation over a row of distances `prev` given as a sequence,
      with `w` the target's energy: the form the imperative pass maintains. */
  function RelaxRow(prev: seq<real>, w: real, t: nat, k: nat): (x: Relax)
    requires t < |prev| && k <= Count(t, |prev|)
    decreases k
  {
    if k == 0 then Relax(Inf, 0)
    else
      RelaxEdge(prev[Lo(t) + k - 1], w, RelaxRow(prev, w, t, k - 1), Lo(t) + k - 1)
  }

  /** Relaxing against the finished previous row is the reference relaxation. */
  lemma {:induction false} RelaxRowIsRelaxed(e: seq<seq<real>>, q: nat, t: nat, k: nat)
    requires IsEnergy(e) && q + 1 < |e| && t < |e[0]| && k <= Count(t, |e[0]|)
    ensures RelaxRow(DistRow(e, q), e[q + 1][t], t, k) == Relaxed(e, q, t, k)
    decreases k
  {
    if k > 0 {
      RelaxRowIsRelaxed(e, q, t, k - 1);
    }
  }

  /** Every entry names a column. */
  predicate InColumns(s: seq<int>, cols: nat)
  {
    forall i :: 0 <= i < |s| ==> 0 <= s[i] < cols
  }

  /** Entry i is adjacent to entry i - 1. */
  predicate StepsAt(s: seq<int>, i: nat)
    requires 0 < i < |s|
  {
    Adjacent(s[i - 1], s[i])
  }

  /** Consecutive entries differ by at most one. */
  predicate Connected(s: seq<int>)
  {
    forall i :: 0 < i < |s| ==> StepsAt(s, i)
  }

  /** A path through the first |s| rows: columns in range, steps of at most one. */
  predicate IsPath(s: seq<int>, cols: nat)
  {
    InColumns(s, cols) && Connected(s)
  }

  /** A seam: one column per row, 8-connected. */
  predicate IsSeam(s: seq<int>, rows: nat, cols: nat)
  {
    |s| == rows && IsPath(s, cols)
  }

  lemma ConnectedPrefix(s: seq<int>, n: nat)
    requires Connected(s) && n <= |s|
    ensures Connected(s[..n])
  {
    forall i | 0 < i < n
      ensures StepsAt(s[..n], i)
    {
      assert StepsAt(s, i);
    }
  }

  lemma ConnectedSnoc(s: seq<int>, t: int)
    requires Connected(s) && (|s| > 0 ==> Adjacent(s[|s| - 1], t))
    ensures Connected(s + [t])
  {
    forall i | 0 < i < |s| + 1
      ensures StepsAt(s + [t], i)
    {
      if i < |s| {
        assert StepsAt(s, i);
      }
    }
  }

  /** Total energy along a path, with row 0 valued at 1000 as in findSeam. */
  function PathCost(e: seq<seq<real>>, s: seq<int>): real
    requires IsEnergy(e) && 1 <= |s| <= |e| && InColumns(s, |e[0]|)
    decreases |s|
  {
    if |s| == 1 then BorderEnergy
    else PathCost(e, s[..|s| - 1]) + e[|s| - 1][s[|s| - 1]]
  }

  /** Extending a path by one cell adds that cell's energy. */
  lemma PathCostSnoc(e: seq<seq<real>>, s: seq<int>, t: int)
    requires IsEnergy(e) && 1 <= |s| < |e| && InColumns(s, |e[0]|) && 0 <= t < |e[0]|
    ensures InColumns(s + [t], |e[0]|)
    ensures PathCost(e, s + [t]) == PathCost(e, s) + e[|s|][t]
  {
    assert (s + [t])[..|s|] == s;
  }

  /** distTo is a lower bound: no path to (r, t) is cheaper than Dist(e, r, t). */
  lemma {:induction false} DistIsLowerBound(e: seq<seq<real>>, s: seq<int>)
    requires IsEnergy(e) && 1 <= |s| <= |e| && IsPath(s, |e[0]|)
    ensures Dist(e, |s| - 1, s[|s| - 1]) <= PathCost(e, s)
    decreases |s|
  {
    if |s| > 1 {
      var r := |s| - 1;
      var front := s[..r];
      ConnectedPrefix(s, r);
      DistIsLowerBound(e, front);
      assert front[r - 1] == s[r - 1];
      assert StepsAt(s, r);
      PredIsLeftmostMin(e, r - 1, s[r]);
    }
  }

  /** The path traced back from (r, t) through the predecessors. */
  function TraceFrom(e: seq<seq<real>>, r: nat, t: nat): (s: seq<int>)
    requires IsEnergy(e) && r < |e| && t < |e[0]|
    ensures |s| == r + 1 && s[r] == t && IsPath(s, |e[0]|)
    decreases r
  {
    if r == 0 then [t]
    else
      var front := TraceFrom(e, r - 1, Pred(e, r, t));
      ConnectedSnoc(front, t);
      front + [t]
  }

  /** Dropping the last entry of a trace gives the trace from the predecessor. */
  lemma TraceFromPrefix(e: seq<seq<real>>, r: nat, t: nat)
    requires IsEnergy(e) && 0 < r < |e| && t < |e[0]|
    ensures TraceFrom(e, r, t)[..r] == TraceFrom(e, r - 1, Pred(e, r, t))
  {
    var front := TraceFrom(e, r - 1, Pred(e, r, t));
    assert (front + [t])[..r] == front;
  }

  /** Each entry of a trace is the recorded predecessor of the entry after it. */
  lemma {:induction false} TraceFollowsPred(e: seq<seq<real>>, r: nat, t: nat, i: nat)
    requires IsEnergy(e) && r < |e| && t < |e[0]| && 0 < i <= r
    ensures TraceFrom(e, r, t)[i - 1] == Pred(e, i, TraceFrom(e, r, t)[i])
    decreases r
  {
    var s := TraceFrom(e, r, t);
    var front := TraceFrom(e, r - 1, Pred(e, r, t));
    TraceFromPrefix(e, r, t);
    if i < r {
      TraceFollowsPred(e, r - 1, Pred(e, r, t), i);
      assert s[i - 1] == front[i - 1] && s[i] == front[i];
    } else {
      assert s[r - 1] == front[r - 1];
    }
  }

  /** Tracing back from (r, t) costs the trace from its predecessor plus the
      energy of (r, t). */
  lemma TraceCostStep(e: seq<seq<real>>, r: nat, t: nat)
    requires IsEnergy(e) && 0 < r < |e| && t < |e[0]|
    ensures PathCost(e, TraceFrom(e, r, t)) == PathCost(e, TraceFrom(e, r - 1, Pred(e, r, t))) + e[r][t]
  {
    PathCostSnoc(e, TraceFrom(e, r - 1, Pred(e, r, t)), t);
  }

  /** The inductive step of TraceFromAttains. */
  lemma TraceAttainsStep(e: seq<seq<real>>, r: nat, t: nat)
    requires IsEnergy(e) && 0 < r < |e| && t < |e[0]|
    requires PathCost(e, TraceFrom(e, r - 1, Pred(e, r, t))) == Dist(e, r - 1, Pred(e, r, t))
    ensures PathCost(e, TraceFrom(e, r, t)) == Dist(e, r, t)
  {
    DistViaPred(e, r, t);
    TraceCostStep(e, r, t);
  }

  /** The traced path reaches (r, t) at exactly the distance distTo holds for it. */
  lemma {:induction false} TraceFromAttains(e: seq<seq<real>>, r: nat, t: nat)
    requires IsEnergy(e) && r < |e| && t < |e[0]|
    ensures PathCost(e, TraceFrom(e, r, t)) == Dist(e, r, t)
    decreases r
  {
    if r > 0 {
      TraceFromAttains(e, r - 1, Pred(e, r, t));
      TraceAttainsStep(e, r, t);
    }
  }

  /** traceSeam's scan of the last row: the leftmost strictly smallest entry
      among the first k, starting from (+infinity, -1). */
  function ScanMin(d: seq<real>, k: nat): (r: Relax)
    requires k <= |d|
    ensures k == 0 ==> r == Relax(Inf, -1)
    ensures k > 0 ==> 0 <= r.edge < k && r.dist == Fin(d[r.edge])
    decreases k
  {
    if k == 0 then Relax(Inf, -1)
    else
      var before := ScanMin(d, k - 1);
      if Improves(d[k - 1], before.dist) then Relax(Fin(d[k - 1]), k - 1) else before
  }

  /** The scan keeps the first of several equal minima. */
  lemma {:induction false} ScanMinIsLeftmostMin(d: seq<real>, k: nat)
    requires 0 < k <= |d|
    ensures forall i :: 0 <= i < k ==> d[ScanMin(d, k).edge] <= d[i]
    ensures forall i :: 0 <= i < ScanMin(d, k).edge ==> d[i] > d[ScanMin(d, k).edge]
    decreases k
  {
    if k > 1 {
      ScanMinIsLeftmostMin(d, k - 1);
    }
  }

  /** The column where the returned seam ends. */
  function LastColumn(e: seq<seq<real>>): (c: nat)
    requires IsEnergy(e)
    ensures c < |e[0]|
  {
    ScanMin(DistRow(e, |e| - 1), |e[0]|).edge
  }

  /** The seam findSeam returns, as a reference definition. */
  function Seam(e: seq<seq<real>>): seq<int>
    requires IsEnergy(e)
  {
    TraceFrom(e, |e| - 1, LastColumn(e))
  }

  /** The returned seam is a seam of minimum total energy. */
  lemma SeamIsOptimal(e: seq<seq<real>>)
    requires IsEnergy(e)
    ensures IsSeam(Seam(e), |e|, |e[0]|)
    ensures forall s :: IsSeam(s, |e|, |e[0]|) ==> PathCost(e, Seam(e)) <= PathCost(e, s)
  {
    var last := DistRow(e, |e| - 1);
    TraceFromAttains(e, |e| - 1, LastColumn(e));
    ScanMinIsLeftmostMin(last, |e[0]|);
    forall s | IsSeam(s, |e|, |e[0]|)
      ensures PathCost(e, Seam(e)) <= PathCost(e, s)
    {
      DistIsLowerBound(e, s);
      assert last[LastColumn(e)] <= last[s[|e| - 1]];
    }
  }

  /** Ties are broken deterministically: the seam ends in the leftmost column
      of minimum distance, and (TraceFollowsPred, PredIsLeftmostMin) every
      other entry is the leftmost minimal adjacent predecessor of the next. */
  lemma SeamEndsAtLeftmostMin(e: seq<seq<real>>)
    requires IsEnergy(e)
    ensures var c := Seam(e)[|e| - 1]; var last := DistRow(e, |e| - 1);
      && c == LastColumn(e)
      && (forall i :: 0 <= i < c ==> last[i] > last[c])
      && (forall i :: 0 <= i < |e[0]| ==> last[c] <= last[i])
  {
    ScanMinIsLeftmostMin(DistRow(e, |e| - 1), |e[0]|);
  }

  /** Rows of distTo and edgeTo as findSeam initialises and dagSP leaves them. */
  function FinRow(d: seq<real>): (x: seq<Ext>)
    ensures |x| == |d| && forall i :: 0 <= i < |d| ==> x[i] == Fin(d[i])
  {
    seq(|d|, i requires 0 <= i < |d| => Fin(d[i]))
  }

  function InfRow(n: nat): (x: seq<Ext>)
    ensures |x| == n && forall i :: 0 <= i < n ==> x[i] == Inf
  {
    seq(n, _ => Inf)
  }

  function ZeroRow(n: nat): (x: seq<int>)
    ensures |x| == n && forall i :: 0 <= i < n ==> x[i] == 0
  {
    seq(n, _ => 0)
  }

  function IdRow(n: nat): (x: seq<int>)
    ensures |x| == n && forall i :: 0 <= i < n ==> x[i] == i
  {
    seq(n, i => i)
  }

  function PredRow(e: seq<seq<real>>, r: nat): (x: seq<int>)
    requires IsEnergy(e) && 1 <= r < |e|
    ensures |x| == |e[0]| && forall t :: 0 <= t < |e[0]| ==> x[t] == Pred(e, r, t)
  {
    seq(|e[0]|, t requires 0 <= t < |e[0]| => Pred(e, r, t))
  }

  /** How many of the sources of column t lie left of column `col`. */
  function Seen(t: nat, col: nat, cols: nat): nat
    requires t < cols
  {
    if col <= Lo(t) then 0
    else if col - Lo(t) < Count(t, cols) then col - Lo(t)
    else Count(t, cols)
  }

  /** Scanning column `col` advances exactly its adjacent targets. */
  lemma SeenStep(t: nat, col: nat, cols: nat)
    requires t < cols && col < cols
    ensures Adjacent(col, t) ==> Lo(t) + Seen(t, col, cols) == col
    ensures Seen(t, col + 1, cols) == Seen(t, col, cols) + (if Adjacent(col, t) then 1 else 0)
  {
  }

  /** relax(row1, col1, col2) on one target cell: the candidate is the
      source's distance `src` plus the target's energy `w`; only a strictly
      smaller candidate replaces the target's (distTo, edgeTo). */
  function RelaxEdge(src: real, w: real, cur: Relax, col1: int): (x: Relax)
    ensures x == cur || x == Relax(Fin(src + w), col1)
    ensures x.dist.Fin? && (cur.dist.Fin? ==> x.dist.v <= cur.dist.v)
    ensures x.dist.v <= src + w
  {
    if Improves(src + w, cur.dist) then Relax(Fin(src + w), col1) else cur
  }

  /** The row being filled while dagSP scans the previous one (distances
      `prev`, energies `w` of the row being filled): every target has seen
      exactly its sources left of column `col`. */
  ghost predicate InProgress(prev: seq<real>, w: seq<real>, dist: seq<Ext>, edge: seq<int>, col: nat)
  {
    && |w| == |prev| && |dist| == |prev| && |edge| == |prev|
    && forall t :: 0 <= t < |prev| ==>
         Relax(dist[t], edge[t]) == RelaxRow(prev, w[t], t, Seen(t, col, |prev|))
  }

  /** Scanning column `col` of the finished row `src`: relax to the same
      column of the row being filled, then the left one, then the right one,
      exactly as dagSP does.  Each adjacent target is relaxed once from
      `col`; every other target is left alone. */
  method ScanColumn(src: seq<Ext>, w: seq<real>, dist: seq<Ext>, edge: seq<int>, col: nat)
    returns (dist': seq<Ext>, edge': seq<int>)
    requires col < |src| && src[col].Fin?
    requires |w| == |src| && |dist| == |src| && |edge| == |src|
    ensures |dist'| == |src| && |edge'| == |src|
    ensures forall t :: 0 <= t < |src| && !Adjacent(col, t) ==> dist'[t] == dist[t] && edge'[t] == edge[t]
    ensures forall t :: 0 <= t < |src| && Adjacent(col, t) ==>
      Relax(dist'[t], edge'[t]) == RelaxEdge(src[col].v, w[t], Relax(dist[t], edge[t]), col)
  {
    var cols := |src|;
    var x := RelaxEdge(src[col].v, w[col], Relax(dist[col], edge[col]), col);
    dist', edge' := dist[col := x.dist], edge[col := x.edge];
    if col != 0 {
      x := RelaxEdge(src[col].v, w[col - 1], Relax(dist'[col - 1], edge'[col - 1]), col);
      dist', edge' := dist'[col - 1 := x.dist], edge'[col - 1 := x.edge];
    }
    if col != cols - 1 {
      x := RelaxEdge(src[col].v, w[col + 1], Relax(dist'[col + 1], edge'[col + 1]), col);
      dist', edge' := dist'[col + 1 := x.dist], edge'[col + 1 := x.edge];
    }
  }

  /** Scanning column `col` advances every target that has `col` among its
      sources by exactly that source, so the row moves from `col` to `col + 1`. */
  lemma ScanColumnAdvances(prev: seq<real>, w: seq<real>, dist: seq<Ext>, edge: seq<int>,
                           dist': seq<Ext>, edge': seq<int>, col: nat)
    requires col < |prev| && InProgress(prev, w, dist, edge, col)
    requires |dist'| == |prev| && |edge'| == |prev|
    requires forall t :: 0 <= t < |prev| && !Adjacent(col, t) ==> dist'[t] == dist[t] && edge'[t] == edge[t]
    requires forall t :: 0 <= t < |prev| && Adjacent(col, t) ==>
      Relax(dist'[t], edge'[t]) == RelaxEdge(prev[col], w[t], Relax(dist[t], edge[t]), col)
    ensures InProgress(prev, w, dist', edge', col + 1)
  {
    forall t | 0 <= t < |prev|
      ensures Relax(dist'[t], edge'[t]) == RelaxRow(prev, w[t], t, Seen(t, col + 1, |prev|))
    {
      SeenStep(t, col, |prev|);
      assert Relax(dist[t], edge[t]) == RelaxRow(prev, w[t], t, Seen(t, col, |prev|));
    }
  }

  /** The column loop of dagSP for one row: every target has seen all its sources. */
  method RelaxPass(src: seq<Ext>, w: seq<real>, dist0: seq<Ext>, edge0: seq<int>, ghost prev: seq<real>)
    returns (dist: seq<Ext>, edge: seq<int>)
    requires src == FinRow(prev) && |prev| > 0
    requires |w| == |prev| && dist0 == InfRow(|prev|) && edge0 == ZeroRow(|prev|)
    ensures InProgress(prev, w, dist, edge, |prev|)
  {
    dist, edge := dist0, edge0;
    assert InProgress(prev, w, dist, edge, 0);
    var col := 0;
    while col < |src|
      invariant 0 <= col <= |src|
      invariant InProgress(prev, w, dist, edge, col)
    {
      var dist', edge' := ScanColumn(src, w, dist, edge, col);
      ScanColumnAdvances(prev, w, dist, edge, dist', edge', col);
      dist, edge := dist', edge';
      col := col + 1;
    }
  }

  /** Once every source of row `row` was scanned, the next row holds the
      reference distances and predecessors. */
  lemma FinishedRow(e: seq<seq<real>>, row: nat, dist: seq<Ext>, edge: seq<int>)
    requires IsEnergy(e) && row + 1 < |e|
    requires InProgress(DistRow(e, row), e[row + 1], dist, edge, |e[0]|)
    ensures dist == FinRow(DistRow(e, row + 1)) && edge == PredRow(e, row + 1)
  {
    var cols := |e[0]|;
    forall t | 0 <= t < cols
      ensures dist[t] == Fin(DistRow(e, row + 1)[t]) && edge[t] == Pred(e, row + 1, t)
    {
      assert Seen(t, cols, cols) == Count(t, cols);
      RelaxRowIsRelaxed(e, row, t, Count(t, cols));
    }
  }

  /** Row `r` of distTo and edgeTo is as dagSP leaves it. */
  ghost predicate RowDone(e: seq<seq<real>>, distTo: seq<seq<Ext>>, edgeTo: seq<seq<int>>, r: nat)
    requires IsEnergy(e) && r < |e| && |distTo| == |e| && |edgeTo| == |e|
  {
    distTo[r] == FinRow(DistRow(e, r)) && (r > 0 ==> edgeTo[r] == PredRow(e, r))
  }

  /** Row `r` of distTo and edgeTo is as findSeam initialises it. */
  ghost predicate RowFresh(e: seq<seq<real>>, distTo: seq<seq<Ext>>, edgeTo: seq<seq<int>>, r: nat)
    requires IsEnergy(e) && r < |e| && |distTo| == |e| && |edgeTo| == |e|
  {
    distTo[r] == InfRow(|e[0]|) && edgeTo[r] == ZeroRow(|e[0]|)
  }

  /** dagSP: after the pass, distTo holds DistRow and edgeTo holds Pred in
      every row but the first, where edgeTo keeps its initial contents. */
  method DagSP(e: seq<seq<real>>, distTo: seq<seq<Ext>>, edgeTo: seq<seq<int>>)
    returns (distTo': seq<seq<Ext>>, edgeTo': seq<seq<int>>)
    requires IsEnergy(e)
    requires IsRect(distTo, |e|, |e[0]|) && IsRect(edgeTo, |e|, |e[0]|)
    requires distTo[0] == FinRow(DistRow(e, 0))
    requires forall r :: 1 <= r < |e| ==> distTo[r] == InfRow(|e[0]|) && edgeTo[r] == ZeroRow(|e[0]|)
    ensures IsRect(distTo', |e|, |e[0]|) && IsRect(edgeTo', |e|, |e[0]|)
    ensures forall r :: 0 <= r < |e| ==> distTo'[r] == FinRow(DistRow(e, r))
    ensures forall r :: 1 <= r < |e| ==> edgeTo'[r] == PredRow(e, r)
    ensures edgeTo'[0] == edgeTo[0]
  {
    var rows, cols := |e|, |e[0]|;
    distTo', edgeTo' := distTo, edgeTo;
    var row := 0;
    assert forall r :: 1 <= r < rows ==> RowFresh(e, distTo', edgeTo', r);
    while row < rows - 1
      invariant 0 <= row <= rows - 1
      invariant IsRect(distTo', rows, cols) && IsRect(edgeTo', rows, cols)
      invariant forall r :: 0 <= r <= row ==> RowDone(e, distTo', edgeTo', r)
      invariant forall r :: row < r < rows ==> RowFresh(e, distTo', edgeTo', r)
      invariant edgeTo'[0] == edgeTo[0]
    {
      var next := row + 1;
      assert RowDone(e, distTo', edgeTo', row) && RowFresh(e, distTo', edgeTo', next);
      var dist, edge := RelaxPass(distTo'[row], e[next], distTo'[next], edgeTo'[next], DistRow(e, row));
      FinishedRow(e, row, dist, edge);
      ghost var d0, e0 := distTo', edgeTo';
      distTo', edgeTo' := distTo'[next := dist], edgeTo'[next := edge];
      forall r | 0 <= r < rows && r != next
        ensures r <= row ==> RowDone(e, distTo', edgeTo', r)
        ensures r > next ==> RowFresh(e, distTo', edgeTo', r)
      {
        assert distTo'[r] == d0[r] && edgeTo'[r] == e0[r];
        if r <= row {
          assert RowDone(e, d0, e0, r);
        } else {
          assert RowFresh(e, d0, e0, r);
        }
      }
      assert RowDone(e, distTo', edgeTo', next);
      row := row + 1;
    }
    forall r | 0 <= r < rows
      ensures distTo'[r] == FinRow(DistRow(e, r)) && (r > 0 ==> edgeTo'[r] == PredRow(e, r))
    {
      assert RowDone(e, distTo', edgeTo', r);
    }
  }

  /** The first loop of traceSeam: the leftmost strictly smallest entry of a
      finished row, scanning from (+infinity, -1). */
  method MinIndex(d: seq<Ext>, ghost last: seq<real>) returns (index: int)
    requires d == FinRow(last)
    ensures index == ScanMin(last, |last|).edge
  {
    index := -1;
    var min := Inf;
    var i := 0;
    while i < |d|
      invariant 0 <= i <= |d|
      invariant Relax(min, index) == ScanMin(last, i)
    {
      if Improves(d[i].v, min) {
        min := d[i];
        index := i;
      }
      i := i + 1;
    }
  }

  /** The second loop of traceSeam: follow edgeTo back from column `c0` of
      the last row down to row 0, where edgeTo holds the identity. */
  method FollowEdges(e: seq<seq<real>>, edgeTo: seq<seq<int>>, c0: nat) returns (seam: seq<int>)
    requires IsEnergy(e) && c0 < |e[0]|
    requires IsRect(edgeTo, |e|, |e[0]|)
    requires forall r :: 1 <= r < |e| ==> edgeTo[r] == PredRow(e, r)
    ensures seam == TraceFrom(e, |e| - 1, c0)
  {
    var rows, cols := |e|, |e[0]|;
    ghost var target := TraceFrom(e, rows - 1, c0);
    seam := ZeroRow(rows);
    var r := rows - 1;
    var c := c0;
    assert target[..r + 1] == target;
    while r >= 0
      invariant -1 <= r < rows
      invariant |seam| == rows
      invariant forall k :: r < k < rows ==> seam[k] == target[k]
      invariant r >= 0 ==> 0 <= c < cols && target[..r + 1] == TraceFrom(e, r, c)
    {
      seam := seam[r := c];
      if r > 0 {
        TraceFromPrefix(e, r, c);
        assert target[..r] == target[..r + 1][..r];
        c := edgeTo[r][c];
      }
      r := r - 1;
    }
  }

  /** traceSeam: pick the leftmost minimum of the last row, then follow edgeTo
      back to row 0. */
  method TraceSeam(e: seq<seq<real>>, edgeTo: seq<seq<int>>, distTo: seq<seq<Ext>>)
    returns (seam: seq<int>)
    requires IsEnergy(e)
    requires IsRect(distTo, |e|, |e[0]|) && IsRect(edgeTo, |e|, |e[0]|)
    requires distTo[|e| - 1] == FinRow(DistRow(e, |e| - 1))
    requires forall r :: 1 <= r < |e| ==> edgeTo[r] == PredRow(e, r)
    ensures seam == Seam(e)
  {
    var index := MinIndex(distTo[|e| - 1], DistRow(e, |e| - 1));
    seam := FollowEdges(e, edgeTo, index);
  }

  /** findSeam: initialise distTo (row 0 at 1000, the rest at +infinity) and
      edgeTo (row 0 the identity), run dagSP, trace the seam back.  The result
      is a minimum-energy seam with the deterministic tie-break. */
  method FindSeam(e: seq<seq<real>>) returns (seam: seq<int>)
    requires IsEnergy(e)
    ensures seam == Seam(e)
    ensures IsSeam(seam, |e|, |e[0]|)
    ensures forall s :: IsSeam(s, |e|, |e[0]|) ==> PathCost(e, seam) <= PathCost(e, s)
  {
    var rows, cols := |e|, |e[0]|;
    var edgeTo := seq(rows, r => if r == 0 then IdRow(cols) else ZeroRow(cols));
    var distTo := seq(rows, r => if r == 0 then FinRow(DistRow(e, 0)) else InfRow(cols));
    forall r | 0 <= r < rows
      ensures |edgeTo[r]| == cols && |distTo[r]| == cols
    {
      if r == 0 {
        assert edgeTo[r] == IdRow(cols) && distTo[r] == FinRow(DistRow(e, 0));
      } else {
        assert edgeTo[r] == ZeroRow(cols) && distTo[r] == InfRow(cols);
      }
    }
    distTo, edgeTo := DagSP(e, distTo, edgeTo);
    seam := TraceSeam(e, edgeTo, distTo);
    SeamIsOptimal(e);
  }
}

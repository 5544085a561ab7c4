/**
 Lloyd's iteration of ai/mod2/k-means-tree/kmeans.py over exact reals. The centroids are listed in the
 order of the dictionary; a label is a position in that list.
 */
module KMeans {
  import opened Ranges
  import opened Counting

  type Vector = seq<real>

  datatype Outcome = Converged(centroids: seq<Vector>) | EmptyCluster

  ghost predicate Rows(rows: seq<Vector>, d: nat) {
    forall i :: 0 <= i < |rows| ==> |rows[i]| == d
  }

  // ----- Distances, labels and clusters

  function SquareTerm(a: Vector, b: Vector): int --> real
    requires |a| == |b|
  {
    t requires 0 <= t < |a| => Times(a[t] - b[t], a[t] - b[t])
  }

  /** The square of the Euclidean distance. */
  function SqDist(a: Vector, b: Vector): real
    requires |a| == |b|
  {
    Sum(SquareTerm(a, b), 0, |a|)
  }

  /** The first of the nearest centroids. */
  ghost predicate IsNearest(row: Vector, cents: seq<Vector>, n: nat, j: nat)
    requires Rows(cents, |row|) && n <= |cents|
  {
    && j < n
    && (forall i :: 0 <= i < n ==> SqDist(row, cents[j]) <= SqDist(row, cents[i]))
    && (forall i :: 0 <= i < j ==> SqDist(row, cents[j]) < SqDist(row, cents[i]))
  }

  function NearestOf(row: Vector, cents: seq<Vector>, n: nat): (j: nat)
    requires Rows(cents, |row|) && 1 <= n <= |cents|
    ensures IsNearest(row, cents, n, j)
  {
    if n == 1 then 0
    else
      var j := NearestOf(row, cents, n - 1);
      if SqDist(row, cents[n - 1]) < SqDist(row, cents[j]) then n - 1 else j
  }

  function Nearest(row: Vector, cents: seq<Vector>): (j: nat)
    requires Rows(cents, |row|) && |cents| >= 1
    ensures IsNearest(row, cents, |cents|, j)
  {
    NearestOf(row, cents, |cents|)
  }

  /** The list of distances and the minimum by its second component. */
  method NearestCentroid(row: Vector, cents: seq<Vector>) returns (j: nat)
    requires Rows(cents, |row|) && |cents| >= 1
    ensures j == Nearest(row, cents)
  {
    var distances := seq(|cents|, i requires 0 <= i < |cents| => SqDist(row, cents[i]));
    j := 0;
    for i := 1 to |cents|
      invariant j < |cents| && j == NearestOf(row, cents, i)
    {
      if distances[i] < distances[j] { j := i; }
    }
  }

  ghost predicate Labelling(labels: seq<nat>, n: nat, k: nat) {
    |labels| == n && forall i :: 0 <= i < n ==> labels[i] < k
  }

  function Labels(data: seq<Vector>, cents: seq<Vector>, d: nat): (labels: seq<nat>)
    requires Rows(data, d) && Rows(cents, d) && |cents| >= 1
    ensures Labelling(labels, |data|, |cents|)
  {
    seq(|data|, i requires 0 <= i < |data| => Nearest(data[i], cents))
  }

  /** The rows among the first n that carry label j, in order. */
  function ClusterRows(data: seq<Vector>, labels: seq<nat>, j: nat, n: nat): (rows: seq<Vector>)
    requires |labels| == |data| && n <= |data|
    ensures forall d: nat :: Rows(data, d) ==> Rows(rows, d)
  {
    if n == 0 then []
    else if labels[n - 1] == j then ClusterRows(data, labels, j, n - 1) + [data[n - 1]]
    else ClusterRows(data, labels, j, n - 1)
  }

  function Clusters(data: seq<Vector>, labels: seq<nat>, k: nat, n: nat): (cs: seq<seq<Vector>>)
    requires |labels| == |data| && n <= |data|
    ensures |cs| == k
  {
    seq(k, j requires 0 <= j < k => ClusterRows(data, labels, j, n))
  }

  ghost predicate NoneEmpty(cs: seq<seq<Vector>>) {
    forall j :: 0 <= j < |cs| ==> cs[j] != []
  }

  // ----- Means and the sum of squared errors

  function ColumnTerm(rows: seq<Vector>, t: nat, d: nat): int --> real
    requires Rows(rows, d) && t < d
  {
    i requires 0 <= i < |rows| => rows[i][t]
  }

  function ColumnSum(rows: seq<Vector>, t: nat, d: nat): real
    requires Rows(rows, d) && t < d
  {
    Sum(ColumnTerm(rows, t, d), 0, |rows|)
  }

  function Mean(rows: seq<Vector>, d: nat): (m: Vector)
    requires Rows(rows, d) && rows != []
    ensures |m| == d
  {
    seq(d, t requires 0 <= t < d => ColumnSum(rows, t, d) / |rows| as real)
  }

  function RowTerm(rows: seq<Vector>, c: Vector): int --> real
    requires Rows(rows, |c|)
  {
    i requires 0 <= i < |rows| => SqDist(rows[i], c)
  }

  /** The squared errors of the rows of one cluster around c. */
  function RowsSse(rows: seq<Vector>, c: Vector): real
    requires Rows(rows, |c|)
  {
    Sum(RowTerm(rows, c), 0, |rows|)
  }

  function SseTerm(data: seq<Vector>, labels: seq<nat>, cents: seq<Vector>, d: nat): int --> real
    requires Rows(data, d) && Rows(cents, d) && Labelling(labels, |data|, |cents|)
  {
    i requires 0 <= i < |data| => SqDist(data[i], cents[labels[i]])
  }

  /** The sum of squared errors of an assignment. */
  function Sse(data: seq<Vector>, labels: seq<nat>, cents: seq<Vector>, d: nat): real
    requires Rows(data, d) && Rows(cents, d) && Labelling(labels, |data|, |cents|)
  {
    Sum(SseTerm(data, labels, cents, d), 0, |data|)
  }

  // ----- The mean is the unique minimiser

  /** What moving the centre from m to c costs one row, coordinate by coordinate. */
  function ShiftTerm(m: Vector, c: Vector, x: Vector): int --> real
    requires |m| == |c| == |x|
  {
    t requires 0 <= t < |c| => Times(c[t] - m[t], c[t] + m[t] - 2.0 * x[t])
  }

  lemma RowShift(m: Vector, c: Vector, x: Vector)
    requires |m| == |c| == |x|
    ensures SqDist(x, c) == SqDist(x, m) + Sum(ShiftTerm(m, c, x), 0, |c|)
  {
    hide Times, Sum;
    forall t | 0 <= t < |c| ensures SquareTerm(x, c)(t) == SquareTerm(x, m)(t) + ShiftTerm(m, c, x)(t) {
      SquareShift(x[t], m[t], c[t]);
    }
    SumPlus(SquareTerm(x, m), ShiftTerm(m, c, x), SquareTerm(x, c), 0, |c|);
  }

  lemma SquareShift(x: real, m: real, c: real)
    ensures Times(x - c, x - c) == Times(x - m, x - m) + Times(c - m, c + m - 2.0 * x)
  {
  }

  /** The same for n rows, with s the sum of their coordinates. */
  function TotalShiftTerm(m: Vector, c: Vector, rows: seq<Vector>, n: nat): int --> real
    requires |m| == |c| && Rows(rows, |c|) && n <= |rows|
  {
    t requires 0 <= t < |c| =>
      Times(c[t] - m[t], Times(n as real, c[t] + m[t]) - 2.0 * Sum(ColumnTerm(rows, t, |c|), 0, n))
  }

  lemma {:induction false} RowsShift(m: Vector, c: Vector, rows: seq<Vector>, n: nat)
    requires |m| == |c| && Rows(rows, |c|) && n <= |rows|
    ensures Sum(RowTerm(rows, c), 0, n) == Sum(RowTerm(rows, m), 0, n) + Sum(TotalShiftTerm(m, c, rows, n), 0, |c|)
    decreases n
  {
    hide Times, Sum, SqDist;
    if n == 0 {
      NoRowsShift(m, c, rows);
    } else {
      RowsShift(m, c, rows, n - 1);
      RowShift(m, c, rows[n - 1]);
      OneMoreRow(m, c, rows, n);
      SumLast(RowTerm(rows, c), 0, n);
      SumLast(RowTerm(rows, m), 0, n);
    }
  }

  lemma NoRowsShift(m: Vector, c: Vector, rows: seq<Vector>)
    requires |m| == |c| && Rows(rows, |c|)
    ensures Sum(RowTerm(rows, c), 0, 0) == Sum(RowTerm(rows, m), 0, 0) + Sum(TotalShiftTerm(m, c, rows, 0), 0, |c|)
  {
    forall t | 0 <= t < |c| ensures TotalShiftTerm(m, c, rows, 0)(t) == 0.0 { NoShift(c[t], m[t]); }
    SumNonNegative(TotalShiftTerm(m, c, rows, 0), 0, |c|);
  }

  lemma NoShift(c: real, m: real)
    ensures Times(c - m, Times(0.0, c + m) - 2.0 * 0.0) == 0.0
  {
  }

  lemma OneMoreRow(m: Vector, c: Vector, rows: seq<Vector>, n: nat)
    requires |m| == |c| && Rows(rows, |c|) && 1 <= n <= |rows|
    ensures Sum(TotalShiftTerm(m, c, rows, n), 0, |c|)
         == Sum(TotalShiftTerm(m, c, rows, n - 1), 0, |c|) + Sum(ShiftTerm(m, c, rows[n - 1]), 0, |c|)
  {
    hide Times, Sum;
    forall t | 0 <= t < |c|
      ensures TotalShiftTerm(m, c, rows, n)(t) == TotalShiftTerm(m, c, rows, n - 1)(t) + ShiftTerm(m, c, rows[n - 1])(t)
    {
      SumLast(ColumnTerm(rows, t, |c|), 0, n);
      OneMoreShift(c[t], m[t], (n - 1) as real, n as real, Sum(ColumnTerm(rows, t, |c|), 0, n - 1), rows[n - 1][t],
                   Sum(ColumnTerm(rows, t, |c|), 0, n));
    }
    SumPlus(TotalShiftTerm(m, c, rows, n - 1), ShiftTerm(m, c, rows[n - 1]), TotalShiftTerm(m, c, rows, n), 0, |c|);
  }

  lemma OneMoreShift(c: real, m: real, n1: real, n: real, s1: real, x: real, s: real)
    requires n == n1 + 1.0 && s == s1 + x
    ensures Times(c - m, Times(n, c + m) - 2.0 * s)
         == Times(c - m, Times(n1, c + m) - 2.0 * s1) + Times(c - m, c + m - 2.0 * x)
  {
  }

  /** Around any centre the errors exceed those around the mean by the number of rows times the squared distance. */
  lemma ParallelAxis(rows: seq<Vector>, c: Vector)
    requires Rows(rows, |c|) && rows != []
    ensures RowsSse(rows, c) == RowsSse(rows, Mean(rows, |c|)) + Times(|rows| as real, SqDist(c, Mean(rows, |c|)))
  {
    hide Times, Sum;
    var m, r := Mean(rows, |c|), |rows| as real;
    RowsShift(m, c, rows, |rows|);
    forall t | 0 <= t < |c| ensures TotalShiftTerm(m, c, rows, |rows|)(t) == Times(r, SquareTerm(c, m)(t)) {
      AtTheMean(c[t], m[t], r, ColumnSum(rows, t, |c|));
    }
    SumTimesConstant(r, SquareTerm(c, m), TotalShiftTerm(m, c, rows, |rows|), 0, |c|);
  }

  lemma AtTheMean(c: real, m: real, r: real, s: real)
    requires r != 0.0 && m == s / r
    ensures Times(c - m, Times(r, c + m) - 2.0 * s) == Times(r, Times(c - m, c - m))
  {
    assert s == r * m;
  }

  lemma SqDistSign(a: Vector, b: Vector)
    requires |a| == |b|
    ensures SqDist(a, b) >= 0.0 && (SqDist(a, b) == 0.0 <==> a == b)
  {
    hide Times;
    forall t | 0 <= t < |a| ensures SquareTerm(a, b)(t) >= 0.0 && (SquareTerm(a, b)(t) == 0.0 <==> a[t] == b[t]) {
      SquareSign(a[t] - b[t]);
    }
    SumNonNegative(SquareTerm(a, b), 0, |a|);
  }

  lemma MeanMinimises(rows: seq<Vector>, c: Vector)
    requires Rows(rows, |c|) && rows != []
    ensures RowsSse(rows, Mean(rows, |c|)) <= RowsSse(rows, c)
    ensures RowsSse(rows, Mean(rows, |c|)) == RowsSse(rows, c) <==> c == Mean(rows, |c|)
  {
    hide Times, RowsSse, SqDist;
    var m := Mean(rows, |c|);
    ParallelAxis(rows, c);
    SqDistSign(c, m);
    if SqDist(c, m) > 0.0 { TimesPositive(|rows| as real, SqDist(c, m)); } else { TimesZero(|rows| as real); }
  }

  // ----- One round

  function ClusterTerm(data: seq<Vector>, labels: seq<nat>, cents: seq<Vector>, d: nat, n: nat): int --> real
    requires Rows(data, d) && Rows(cents, d) && |labels| == |data| && n <= |data|
  {
    j requires 0 <= j < |cents| => RowsSse(ClusterRows(data, labels, j, n), cents[j])
  }

  function NewRowTerm(row: Vector, chosen: nat, cents: seq<Vector>): int --> real
    requires Rows(cents, |row|)
  {
    j requires 0 <= j < |cents| => if j == chosen then SqDist(row, cents[j]) else 0.0
  }

  /** The squared errors row by row are those cluster by cluster. */
  lemma {:induction false} Regroup(data: seq<Vector>, labels: seq<nat>, cents: seq<Vector>, d: nat, n: nat)
    requires Rows(data, d) && Rows(cents, d) && Labelling(labels, |data|, |cents|) && n <= |data|
    ensures Sum(SseTerm(data, labels, cents, d), 0, n) == Sum(ClusterTerm(data, labels, cents, d, n), 0, |cents|)
    decreases n
  {
    hide SqDist, Sum, RowsSse, ClusterRows;
    if n == 0 {
      NoRows(data, labels, cents, d);
    } else {
      Regroup(data, labels, cents, d, n - 1);
      RegroupStep(data, labels, cents, d, n);
      SumLast(SseTerm(data, labels, cents, d), 0, n);
    }
  }

  lemma NoRows(data: seq<Vector>, labels: seq<nat>, cents: seq<Vector>, d: nat)
    requires Rows(data, d) && Rows(cents, d) && Labelling(labels, |data|, |cents|)
    ensures Sum(SseTerm(data, labels, cents, d), 0, 0) == Sum(ClusterTerm(data, labels, cents, d, 0), 0, |cents|)
  {
    SumNonNegative(ClusterTerm(data, labels, cents, d, 0), 0, |cents|);
  }

  lemma RegroupStep(data: seq<Vector>, labels: seq<nat>, cents: seq<Vector>, d: nat, n: nat)
    requires Rows(data, d) && Rows(cents, d) && Labelling(labels, |data|, |cents|) && 1 <= n <= |data|
    ensures Sum(ClusterTerm(data, labels, cents, d, n), 0, |cents|)
         == Sum(ClusterTerm(data, labels, cents, d, n - 1), 0, |cents|) + SqDist(data[n - 1], cents[labels[n - 1]])
  {
    hide SqDist, Sum, RowsSse;
    var row, l := data[n - 1], labels[n - 1];
    var now, before, added := ClusterTerm(data, labels, cents, d, n), ClusterTerm(data, labels, cents, d, n - 1), NewRowTerm(row, l, cents);
    forall j | 0 <= j < |cents| ensures now(j) == before(j) + added(j) {
      if j == l { AppendRow(ClusterRows(data, labels, j, n - 1), row, cents[j]); }
    }
    SumPlus(before, added, now, 0, |cents|);
    SumSingle(added, 0, |cents|, l);
  }

  lemma AppendRow(rows: seq<Vector>, row: Vector, c: Vector)
    requires Rows(rows, |c|) && |row| == |c|
    ensures Rows(rows + [row], |c|)
    ensures RowsSse(rows + [row], c) == RowsSse(rows, c) + SqDist(row, c)
  {
    hide SqDist;
    SumLast(RowTerm(rows + [row], c), 0, |rows| + 1);
    SumCongruent(RowTerm(rows + [row], c), RowTerm(rows, c), 0, |rows|);
  }

  /** The means of the clusters of an assignment. */
  function Means(data: seq<Vector>, labels: seq<nat>, k: nat, d: nat): (ms: seq<Vector>)
    requires Rows(data, d) && |labels| == |data| && NoneEmpty(Clusters(data, labels, k, |data|))
    ensures |ms| == k && Rows(ms, d)
  {
    seq(k, j requires 0 <= j < k => (assert Clusters(data, labels, k, |data|)[j] != [];
                                     Mean(ClusterRows(data, labels, j, |data|), d)))
  }

  /** Replacing the centroids by the means lowers the error, and strictly so unless no centroid moves. */
  lemma MeansDescend(data: seq<Vector>, labels: seq<nat>, cents: seq<Vector>, d: nat)
    requires Rows(data, d) && Rows(cents, d) && Labelling(labels, |data|, |cents|)
    requires NoneEmpty(Clusters(data, labels, |cents|, |data|))
    ensures Sse(data, labels, Means(data, labels, |cents|, d), d) <= Sse(data, labels, cents, d)
    ensures Sse(data, labels, Means(data, labels, |cents|, d), d) == Sse(data, labels, cents, d)
       <==> Means(data, labels, |cents|, d) == cents
  {
    var n, k := |data|, |cents|;
    var ms := Means(data, labels, k, d);
    Regroup(data, labels, cents, d, n);
    Regroup(data, labels, ms, d, n);
    var was, now := ClusterTerm(data, labels, cents, d, n), ClusterTerm(data, labels, ms, d, n);
    forall j | 0 <= j < k ensures now(j) <= was(j) && (now(j) == was(j) ==> ms[j] == cents[j]) {
      assert Clusters(data, labels, k, n)[j] != [];
      MeanMinimises(ClusterRows(data, labels, j, n), cents[j]);
    }
    hide Sum, RowsSse, SqDist;
    SumMonotoneStrict(now, was, 0, k);
  }

  /** A pointwise smaller sum is smaller, and equal only if equal pointwise. */
  lemma {:induction false} SumMonotoneStrict(f: int --> real, g: int --> real, lo: int, hi: int)
    requires DefinedOn(f, lo, hi) && DefinedOn(g, lo, hi) && forall i :: lo <= i < hi ==> f(i) <= g(i)
    ensures Sum(f, lo, hi) <= Sum(g, lo, hi)
    ensures Sum(f, lo, hi) == Sum(g, lo, hi) ==> forall i :: lo <= i < hi ==> f(i) == g(i)
    decreases hi - lo
  {
    if lo < hi { SumMonotoneStrict(f, g, lo, hi - 1); }
  }

  /** No assignment has a smaller error for given centroids than that to the nearest ones. */
  lemma LabelsDescend(data: seq<Vector>, labels: seq<nat>, cents: seq<Vector>, d: nat)
    requires Rows(data, d) && Rows(cents, d) && |cents| >= 1 && Labelling(labels, |data|, |cents|)
    ensures Sse(data, Labels(data, cents, d), cents, d) <= Sse(data, labels, cents, d)
  {
    hide SqDist;
    var f, g := SseTerm(data, Labels(data, cents, d), cents, d), SseTerm(data, labels, cents, d);
    forall i | 0 <= i < |data| ensures f(i) <= g(i) {
      assert IsNearest(data[i], cents, |cents|, Nearest(data[i], cents));
    }
    SumMonotone(f, g, 0, |data|);
  }

  // ----- The iteration

  /** The error that an assignment has around its own means. */
  function Energy(data: seq<Vector>, labels: seq<nat>, k: nat, d: nat): real
    requires Rows(data, d) && Labelling(labels, |data|, k) && NoneEmpty(Clusters(data, labels, k, |data|))
  {
    Sse(data, labels, Means(data, labels, k, d), d)
  }

  ghost predicate Usable(data: seq<Vector>, labels: seq<nat>, k: nat) {
    Labelling(labels, |data|, k) && NoneEmpty(Clusters(data, labels, k, |data|))
  }

  /** Assignments whose energies fall from each to the next. */
  ghost predicate Falling(data: seq<Vector>, history: seq<seq<nat>>, k: nat, d: nat)
    requires Rows(data, d)
  {
    && (forall i :: 0 <= i < |history| ==> Usable(data, history[i], k))
    && (forall i, j :: 0 <= i < j < |history| ==> Energy(data, history[i], k, d) > Energy(data, history[j], k, d))
  }

  /** There are at most as many of them as there are ways to assign the rows. */
  lemma FallingIsShort(data: seq<Vector>, history: seq<seq<nat>>, k: nat, d: nat)
    requires Rows(data, d) && Falling(data, history, k, d)
    ensures |history| <= Pow(k, |data|)
  {
    hide Energy;
    forall i | 0 <= i < |history| ensures |history[i]| == |data| && forall m :: 0 <= m < |data| ==> history[i][m] < k {
      assert Usable(data, history[i], k);
    }
    DistinctDigitSequences(history, k, |data|);
  }

  /** A round that moves a centroid extends the history. */
  lemma FallsFurther(data: seq<Vector>, history: seq<seq<nat>>, cents: seq<Vector>, d: nat)
    requires Rows(data, d) && Rows(cents, d) && |cents| >= 1 && Falling(data, history, |cents|, d)
    requires history != [] ==> cents == Means(data, history[|history| - 1], |cents|, d)
    requires Usable(data, Labels(data, cents, d), |cents|)
    requires Means(data, Labels(data, cents, d), |cents|, d) != cents
    ensures Falling(data, history + [Labels(data, cents, d)], |cents|, d)
  {
    var k, labels := |cents|, Labels(data, cents, d);
    MeansDescend(data, labels, cents, d);
    if history != [] {
      var last := history[|history| - 1];
      assert Usable(data, last, k);
      LabelsDescend(data, last, cents, d);
      assert Energy(data, labels, k, d) < Energy(data, last, k, d);
    }
    hide Energy, Labels, Means, Usable;
    var longer := history + [labels];
    forall i, j | 0 <= i < j < |longer| ensures Energy(data, longer[i], k, d) > Energy(data, longer[j], k, d) {
    }
  }

  /** The rows of the data, each appended to the cluster of its nearest centroid. */
  method Assign(data: seq<Vector>, cents: seq<Vector>, d: nat) returns (clusters: seq<seq<Vector>>)
    requires Rows(data, d) && Rows(cents, d) && |cents| >= 1
    ensures clusters == Clusters(data, Labels(data, cents, d), |cents|, |data|)
  {
    hide Nearest;
    ghost var labels := Labels(data, cents, d);
    clusters := seq(|cents|, _ => []);
    for i := 0 to |data|
      invariant clusters == Clusters(data, labels, |cents|, i)
    {
      var j := NearestCentroid(data[i], cents);
      clusters := clusters[j := clusters[j] + [data[i]]];
    }
  }

  /** Each centroid becomes the mean of its cluster. */
  method Update(cents: seq<Vector>, clusters: seq<seq<Vector>>, d: nat) returns (moved: seq<Vector>)
    requires |clusters| == |cents| && Rows(cents, d) && forall j :: 0 <= j < |clusters| ==> Rows(clusters[j], d)
    ensures |moved| == |cents| && Rows(moved, d)
    ensures forall j :: 0 <= j < |cents| ==> moved[j] == if clusters[j] != [] then Mean(clusters[j], d) else cents[j]
  {
    hide Mean;
    moved := cents;
    for j := 0 to |clusters|
      invariant |moved| == |cents| && Rows(moved, d)
      invariant forall i :: 0 <= i < |cents| ==>
        moved[i] == if i < j && clusters[i] != [] then Mean(clusters[i], d) else cents[i]
    {
      if |clusters[j]| != 0 { moved := moved[j := Mean(clusters[j], d)]; }
    }
  }

  /** One round of the loop; centroids around which a cluster is empty have no successor and stay. */
  ghost function Round(data: seq<Vector>, cents: seq<Vector>, d: nat): (next: seq<Vector>)
    requires Rows(data, d) && Rows(cents, d) && |cents| >= 1
    ensures |next| == |cents| && Rows(next, d)
  {
    if Usable(data, Labels(data, cents, d), |cents|) then Means(data, Labels(data, cents, d), |cents|, d) else cents
  }

  /** The centroids after n rounds. */
  ghost function CentroidsAfter(data: seq<Vector>, initial: seq<Vector>, d: nat, n: nat): (cents: seq<Vector>)
    requires Rows(data, d) && Rows(initial, d) && |initial| >= 1
    ensures |cents| == |initial| && Rows(cents, d)
  {
    if n == 0 then initial else Round(data, CentroidsAfter(data, initial, d, n - 1), d)
  }

  /** No cluster is empty in round n; the rounds are counted from 0. */
  ghost predicate AllFilled(data: seq<Vector>, initial: seq<Vector>, d: nat, n: nat)
    requires Rows(data, d) && Rows(initial, d) && |initial| >= 1
  {
    Usable(data, Labels(data, CentroidsAfter(data, initial, d, n), d), |initial|)
  }

  /** intracluster_distance, which divides by the size of each cluster and so fails on an empty one. */
  type Measure = (seq<Vector>, seq<seq<Vector>>) -> real

  /** In round n the move of the centroids hardly changes the measure of the clusters. */
  ghost predicate Settles(data: seq<Vector>, initial: seq<Vector>, d: nat, measure: Measure, n: nat)
    requires Rows(data, d) && Rows(initial, d) && |initial| >= 1
  {
    var was, now := CentroidsAfter(data, initial, d, n), CentroidsAfter(data, initial, d, n + 1);
    var clusters := Clusters(data, Labels(data, was, d), |initial|, |data|);
    Abs(measure(now, clusters) - measure(was, clusters)) < 0.001
  }

  /** The error after n rounds. */
  ghost function SseAfter(data: seq<Vector>, initial: seq<Vector>, d: nat, n: nat): real
    requires Rows(data, d) && Rows(initial, d) && |initial| >= 1
  {
    var cents := CentroidsAfter(data, initial, d, n);
    Sse(data, Labels(data, cents, d), cents, d)
  }

  /** The first n rounds neither met an empty cluster nor settled. */
  ghost predicate GoesOn(data: seq<Vector>, initial: seq<Vector>, d: nat, measure: Measure, n: nat)
    requires Rows(data, d) && Rows(initial, d) && |initial| >= 1
  {
    forall i: nat :: i < n ==> AllFilled(data, initial, d, i) && !Settles(data, initial, d, measure, i)
  }

  /** The loop stops in the first round that meets an empty cluster or settles, and there is one in time. */
  method ClusterCentroids(data: seq<Vector>, initial: seq<Vector>, d: nat, measure: Measure)
    returns (r: Outcome, rounds: nat)
    requires Rows(data, d) && Rows(initial, d) && |initial| >= 1
    ensures 1 <= rounds <= Pow(|initial|, |data|) + 1
    ensures GoesOn(data, initial, d, measure, rounds - 1)
    ensures r.EmptyCluster? <==> !AllFilled(data, initial, d, rounds - 1)
    ensures r.Converged? ==>
              Settles(data, initial, d, measure, rounds - 1) && r.centroids == CentroidsAfter(data, initial, d, rounds)
    ensures r.Converged? <==> exists n: nat :: n <= Pow(|initial|, |data|) && GoesOn(data, initial, d, measure, n)
                                 && AllFilled(data, initial, d, n) && Settles(data, initial, d, measure, n)
    ensures (forall n: nat :: AllFilled(data, initial, d, n)) ==> r.Converged?
    ensures r.Converged? ==> SseAfter(data, initial, d, rounds) <= SseAfter(data, initial, d, 0)
  {
    hide Labels, Means, Clusters, Energy, Falling, Settles, AllFilled, CentroidsAfter, SseAfter;
    var k := |initial|;
    var cents := initial;
    rounds := 0;
    ghost var history: seq<seq<nat>> := [];
    NothingFalls(data, k, d);
    FirstRound(data, initial, d);
    while true
      invariant |cents| == k && Rows(cents, d) && cents == CentroidsAfter(data, initial, d, rounds)
      invariant |history| == rounds <= Pow(k, |data|) && Falling(data, history, k, d)
      invariant history != [] ==> Usable(data, history[rounds - 1], k) && cents == Means(data, history[rounds - 1], k, d)
      invariant GoesOn(data, initial, d, measure, rounds)
      invariant SseAfter(data, initial, d, rounds) <= SseAfter(data, initial, d, 0)
      decreases Pow(k, |data|) - rounds
    {
      ghost var last, labels := cents, Labels(data, cents, d);
      NextRound(data, initial, d, measure, rounds);
      var clusters := Assign(data, cents, d);
      if exists j :: 0 <= j < |clusters| && clusters[j] == [] {
        return EmptyCluster, rounds + 1;
      }
      var under := measure(cents, clusters);
      cents := MoveAll(data, cents, clusters, d);
      var post := measure(cents, clusters);
      SseFalls(data, initial, d, rounds);
      if Abs(post - under) < 0.001 {
        return Converged(cents), rounds + 1;
      }
      FallsFurther(data, history, last, d);
      history := history + [labels];
      FallingIsShort(data, history, k, d);
      rounds := rounds + 1;
    }
  }

  lemma FirstRound(data: seq<Vector>, initial: seq<Vector>, d: nat)
    requires Rows(data, d) && Rows(initial, d) && |initial| >= 1
    ensures CentroidsAfter(data, initial, d, 0) == initial
  {
  }

  /** What round n does, in terms of the centroids with which it begins. */
  lemma NextRound(data: seq<Vector>, initial: seq<Vector>, d: nat, measure: Measure, n: nat)
    requires Rows(data, d) && Rows(initial, d) && |initial| >= 1
    ensures var was := CentroidsAfter(data, initial, d, n);
            var clusters := Clusters(data, Labels(data, was, d), |initial|, |data|);
            && (AllFilled(data, initial, d, n) <==> Usable(data, Labels(data, was, d), |initial|))
            && (AllFilled(data, initial, d, n) ==>
                  var now := Means(data, Labels(data, was, d), |initial|, d);
                  && CentroidsAfter(data, initial, d, n + 1) == now
                  && (Settles(data, initial, d, measure, n) <==> Abs(measure(now, clusters) - measure(was, clusters)) < 0.001))
  {
    hide Labels, Means, Clusters;
  }

  /** As long as no cluster is empty the error falls from round to round until no centroid moves, and then stays. */
  lemma SseFalls(data: seq<Vector>, initial: seq<Vector>, d: nat, n: nat)
    requires Rows(data, d) && Rows(initial, d) && |initial| >= 1 && AllFilled(data, initial, d, n)
    ensures SseAfter(data, initial, d, n + 1) <= SseAfter(data, initial, d, n)
    ensures SseAfter(data, initial, d, n + 1) == SseAfter(data, initial, d, n)
       <==> CentroidsAfter(data, initial, d, n + 1) == CentroidsAfter(data, initial, d, n)
  {
    hide Labels, Means, Clusters, Sse;
    RoundDescends(data, CentroidsAfter(data, initial, d, n), d);
  }

  lemma NothingFalls(data: seq<Vector>, k: nat, d: nat)
    requires Rows(data, d)
    ensures Falling(data, [], k, d)
  {
  }

  method MoveAll(data: seq<Vector>, cents: seq<Vector>, clusters: seq<seq<Vector>>, d: nat) returns (moved: seq<Vector>)
    requires Rows(data, d) && Rows(cents, d) && |cents| >= 1
    requires clusters == Clusters(data, Labels(data, cents, d), |cents|, |data|) && NoneEmpty(clusters)
    ensures moved == Means(data, Labels(data, cents, d), |cents|, d)
  {
    hide Mean, Labels;
    moved := Update(cents, clusters, d);
  }

  /** A whole round never raises the error, and lowers it unless no centroid moves. */
  lemma RoundDescends(data: seq<Vector>, cents: seq<Vector>, d: nat)
    requires Rows(data, d) && Rows(cents, d) && |cents| >= 1 && Usable(data, Labels(data, cents, d), |cents|)
    ensures Sse(data, Labels(data, Means(data, Labels(data, cents, d), |cents|, d), d),
                Means(data, Labels(data, cents, d), |cents|, d), d)
         <= Sse(data, Labels(data, cents, d), cents, d)
    ensures Sse(data, Labels(data, Means(data, Labels(data, cents, d), |cents|, d), d),
                Means(data, Labels(data, cents, d), |cents|, d), d)
         == Sse(data, Labels(data, cents, d), cents, d)
       <==> Means(data, Labels(data, cents, d), |cents|, d) == cents
  {
    hide Sse, Means, Labels;
    MeansDescend(data, Labels(data, cents, d), cents, d);
    LabelsDescend(data, Labels(data, cents, d), Means(data, Labels(data, cents, d), |cents|, d), d);
  }

  method Predict(data: seq<Vector>, cents: seq<Vector>, d: nat) returns (prediction: seq<nat>)
    requires Rows(data, d) && Rows(cents, d) && |cents| >= 1
    ensures prediction == Labels(data, cents, d)
  {
    hide Nearest;
    prediction := [];
    for i := 0 to |data|
      invariant prediction == Labels(data, cents, d)[..i]
    {
      var j := NearestCentroid(data[i], cents);
      prediction := prediction + [j];
    }
  }
}

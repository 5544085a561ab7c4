/** Gauss's form Pn of vmath/vmath5/interpolate.py, including what its left branch really computes. */
module GaussInterpolation {
  import opened Ranges
  import opened Interpolation
  import opened EquispacedInterpolation

  /** The distance of x, in steps, from the k-th node taken around the middle one. */
  function Shift(left: bool, u: real, k: nat): real {
    if (k % 2 == 0) == left then u + (k / 2) as real else u - (k / 2) as real
  }

  function GaussFactorRec(left: bool, u: real, k: nat): real {
    if k == 0 then 1.0 else GaussFactorRec(left, u, k - 1) * Shift(left, u, k) / k as real
  }

  /** The k-th entry of the list t of Pn, for the scaled position u. */
  function GaussFactor(left: bool, u: real, k: nat): real {
    GaussFactorRec(left, u, k)
  }

  lemma GaussFactorNext(left: bool, u: real, k: nat, c: real, s: real)
    requires k >= 1 && c == GaussFactor(left, u, k - 1) && s == Shift(left, u, k)
    ensures GaussFactor(left, u, k) == c * s / k as real
  {
    hide Shift;
  }

  lemma GaussFactorsBegin(left: bool, u: real)
    ensures GaussFactor(left, u, 0) == 1.0 && GaussFactor(left, u, 1) == u
  {
    assert Shift(left, u, 1) == u;
  }

  /** The first of the k nodes around a, taken alternately on both sides, the left side first or not. */
  function FirstNode(a: int, left: bool, k: int): int
    requires k >= 1
  {
    if left then a - k / 2 else a - (k - 1) / 2
  }

  lemma {:induction false} GaussFactorIsProduct(t: Table, h: real, a: int, left: bool, k: nat, x: real)
    requires Equispaced(t, h) && 0 <= a < |t.x| && k >= 1
    requires Window(t, FirstNode(a, left, k), FirstNode(a, left, k) + k)
    ensures Times(GaussFactor(left, (x - t.x[a]) / h, k), Scale(h, k))
         == NodeProduct(t, FirstNode(a, left, k), FirstNode(a, left, k) + k, x)
    decreases k
  {
    hide Equispaced, GaussFactor, Scale, NodeProduct, Times;
    var lo := FirstNode(a, left, k);
    var u := (x - t.x[a]) / h;
    if k == 1 {
      GaussFactorStart(t, h, a, x, left, u);
      OffsetOf(t, h, a, a, x);
      GaussFactorGrows(t, h, a, a, a, a + 1, a, x, left, u, 1, a);
    } else {
      var lo1 := FirstNode(a, left, k - 1);
      var e := if (k % 2 == 0) == left then a - k / 2 else a + k / 2;
      GaussFactorIsProduct(t, h, a, left, k - 1, x);
      OffsetOf(t, h, a, e, x);
      GaussFactorGrows(t, h, lo1, lo1 + k - 1, lo, lo + k, e, x, left, u, k, a);
    }
  }

  lemma GaussFactorStart(t: Table, h: real, lo: int, x: real, left: bool, u: real)
    requires Window(t, lo, lo)
    ensures Times(GaussFactor(left, u, 0), Scale(h, 0)) == NodeProduct(t, lo, lo, x)
  {
    EmptyWindow(t, h, lo, x);
  }

  lemma GaussFactorGrows(t: Table, h: real, lo: int, hi: int, lo': int, hi': int, e: int, x: real,
                         left: bool, u: real, k: nat, a: int)
    requires Equispaced(t, h) && Grows(t, lo, hi, lo', hi', e) && k == hi - lo + 1
    requires Times(GaussFactor(left, u, k - 1), Scale(h, hi - lo)) == NodeProduct(t, lo, hi, x)
    requires x - t.x[e] == (u - (e - a) as real) * h
    requires e == if (k % 2 == 0) == left then a - k / 2 else a + k / 2
    ensures Times(GaussFactor(left, u, k), Scale(h, k)) == NodeProduct(t, lo', hi', x)
  {
    hide Equispaced, GaussFactor, Scale, NodeProduct, Times;
    var c, s := GaussFactor(left, u, k - 1), u - (e - a) as real;
    GaussFactorNext(left, u, k, c, s);
    CoefficientGrows(t, h, lo, hi, lo', hi', e, x, c, s, GaussFactor(left, u, k));
  }

  // ----- The defect of the left branch

  /** Left of the middle node the rows a - k/2 belong to the other branch; each odd order leaves this much. */
  function DefectTerm(t: Table, u: real): int --> real
    requires |t.x| == |t.y|
  {
    i requires 1 <= i <= (|t.x| - 1) / 2 => Times(GaussFactor(true, u, 2 * i - 1), Delta(t.y, |t.x| / 2 - i, 2 * i))
  }

  /** The sum of what the first m odd orders leave. */
  function Defect(t: Table, u: real, m: int): real
    requires |t.x| == |t.y| && m <= (|t.x| - 1) / 2
  {
    Sum(DefectTerm(t, u), 1, m + 1)
  }

  /** The value of Pn after the orders below m, m >= 1. */
  function Partial(t: Table, left: bool, u: real, x: real, m: int): real
    requires Valid(t) && |t.x| >= 2 && 1 <= m <= 2 * ((|t.x| - 1) / 2) + 1
  {
    var lo := FirstNode(|t.x| / 2, left, m);
    Ln(t, lo, lo + m, x) + if left then Defect(t, u, m / 2) else 0.0
  }

  /** One order more: the row a - k/2 of the difference table times the k-th factor. */
  lemma PartialStep(t: Table, h: real, left: bool, x: real, k: int)
    requires Equispaced(t, h) && |t.x| >= 2 && 1 <= k <= 2 * ((|t.x| - 1) / 2)
    ensures var a := |t.x| / 2; var u := (x - t.x[a]) / h;
            Partial(t, left, u, x, k + 1) == Partial(t, left, u, x, k) + Times(GaussFactor(left, u, k), Delta(t.y, a - k / 2, k))
  {
    hide Equispaced, GaussFactor, Scale, NodeProduct, Ln, Delta, Defect, Times;
    var a := |t.x| / 2;
    var u := (x - t.x[a]) / h;
    var lo, lo' := FirstNode(a, left, k), FirstNode(a, left, k + 1);
    GaussFactorIsProduct(t, h, a, left, k, x);
    TableTerm(t, h, lo, lo + k, lo', lo' + k + 1, if lo' < lo then lo' else lo + k, x, GaussFactor(left, u, k));
    if left { DefectStep(t, u, k); }
  }

  lemma DefectStep(t: Table, u: real, k: int)
    requires |t.x| == |t.y| && |t.x| >= 2 && 1 <= k <= 2 * ((|t.x| - 1) / 2)
    ensures var a := |t.x| / 2; var c := GaussFactor(true, u, k);
            Defect(t, u, (k + 1) / 2) + Times(c, Delta(t.y, a - (k + 1) / 2, k)) == Defect(t, u, k / 2) + Times(c, Delta(t.y, a - k / 2, k))
  {
    hide GaussFactor, Delta, Times;
    var a := |t.x| / 2;
    if k % 2 == 1 {
      var i := (k + 1) / 2;
      SumLast(DefectTerm(t, u), 1, i + 1);
      DeltaNext(t.y, a - i, k + 1);
      SumTimes(GaussFactor(true, u, k), Delta(t.y, a - i, k), Delta(t.y, a - i, k + 1), Delta(t.y, a - k / 2, k));
    }
  }

  lemma SumTimes(c: real, a: real, b: real, ab: real)
    requires ab == a + b
    ensures Times(c, ab) == Times(c, a) + Times(c, b)
  {
  }

  /** The error of the left branch of Pn. */
  function LeftDefect(t: Table, h: real, x: real): real
    requires |t.x| == |t.y| && |t.x| >= 2 && h != 0.0
  {
    Defect(t, (x - t.x[|t.x| / 2]) / h, (|t.x| - 1) / 2)
  }

  method GaussFactors(left: bool, u: real, n: nat) returns (f: seq<real>)
    requires n >= 2
    ensures |f| == 2 * n - 2 && forall k :: 0 <= k < |f| ==> f[k] == GaussFactor(left, u, k)
  {
    hide GaussFactor, Shift;
    f := [1.0, u];
    GaussFactorsBegin(left, u);
    for i := 2 to n
      invariant |f| == 2 * i - 2
      invariant forall k :: 0 <= k < |f| ==> f[k] == GaussFactor(left, u, k)
    {
      var p, q := u - i as real + 1.0, u + i as real - 1.0;
      if left { p, q := q, p; }
      var c := f[|f| - 1];
      var c1 := c * p / ((i - 1) * 2) as real;
      var c2 := c1 * q / ((i - 1) * 2 + 1) as real;
      GaussPair(left, u, i, c, p, q, c1, c2);
      f := f + [c1, c2];
    }
  }

  lemma GaussPair(left: bool, u: real, i: nat, c: real, p: real, q: real, c1: real, c2: real)
    requires i >= 2 && c == GaussFactor(left, u, 2 * i - 3)
    requires p == if left then u + i as real - 1.0 else u - i as real + 1.0
    requires q == if left then u - i as real + 1.0 else u + i as real - 1.0
    requires c1 == c * p / ((i - 1) * 2) as real && c2 == c1 * q / ((i - 1) * 2 + 1) as real
    ensures c1 == GaussFactor(left, u, 2 * i - 2) && c2 == GaussFactor(left, u, 2 * i - 1)
  {
    hide GaussFactor;
    ShiftPair(left, u, i);
    hide Shift;
    GaussFactorNext(left, u, (i - 1) * 2, c, p);
    GaussFactorNext(left, u, (i - 1) * 2 + 1, c1, q);
  }

  lemma ShiftPair(left: bool, u: real, i: nat)
    requires i >= 2
    ensures Shift(left, u, (i - 1) * 2) == if left then u + i as real - 1.0 else u - i as real + 1.0
    ensures Shift(left, u, (i - 1) * 2 + 1) == if left then u - i as real + 1.0 else u + i as real - 1.0
  {
  }

  /**
   From the middle node on, Pn is Lagrange's form on all nodes when their number is odd and on all
   but the first when it is even. Left of the middle node it misses that value by LeftDefect.
   */
  method Pn(t: Table, x: real, ghost step: real) returns (r: real)
    requires Equispaced(t, step) && |t.x| >= 2
    ensures x >= t.x[|t.x| / 2] ==> r == Ln(t, 1 - |t.x| % 2, |t.x|, x)
    ensures x < t.x[|t.x| / 2] ==> r == Ln(t, 1 - |t.x| % 2, |t.x|, x) + LeftDefect(t, step, x)
  {
    var n := |t.x|;
    var y := Dy(t);
    var a := n / 2;
    var isLeft := t.x[a] > x;
    hide Equispaced, Ln, GaussFactor, LeftDefect, Entry;
    var h := t.x[1] - t.x[0];
    StepIsFirstGap(t, step);
    var f := GaussFactors(isLeft, (x - t.x[a]) / h, n);
    r := GaussSum(t, h, x, y, isLeft, (x - t.x[a]) / h, f);
    hide PartialUpTo, Partial;
    PartialUpToEnd(t, h, x, isLeft);
  }

  /** Partial with the orders that the table does not hold left out. */
  function PartialUpTo(t: Table, left: bool, u: real, x: real, k: int): real
    requires Valid(t) && |t.x| >= 2 && 1 <= k <= |t.x|
  {
    var last := 2 * ((|t.x| - 1) / 2);
    Partial(t, left, u, x, if k <= last then k else last + 1)
  }

  lemma PartialUpToStart(t: Table, left: bool, u: real, x: real)
    requires Valid(t) && |t.x| >= 2
    ensures PartialUpTo(t, left, u, x, 1) == t.y[|t.x| / 2]
  {
    LagrangeOneNode(t, |t.x| / 2, x);
  }

  lemma PartialUpToStep(t: Table, h: real, left: bool, x: real, k: int, u: real, c: real, d: real)
    requires Equispaced(t, h) && |t.x| >= 2 && 1 <= k < |t.x|
    requires u == (x - t.x[|t.x| / 2]) / h
    requires c == GaussFactor(left, u, k) && d == Entry(t.y, |t.x| / 2 - k / 2, k)
    ensures PartialUpTo(t, left, u, x, k + 1) == PartialUpTo(t, left, u, x, k) + Times(c, d)
  {
    hide Equispaced, GaussFactor, Partial, Delta;
    if k <= 2 * ((|t.x| - 1) / 2) {
      PartialStep(t, h, left, x, k);
    } else {
      assert d == 0.0;
    }
  }

  lemma PartialUpToEnd(t: Table, h: real, x: real, left: bool)
    requires Valid(t) && |t.x| >= 2 && h != 0.0
    ensures PartialUpTo(t, left, (x - t.x[|t.x| / 2]) / h, x, |t.x|)
         == Ln(t, 1 - |t.x| % 2, |t.x|, x) + if left then LeftDefect(t, h, x) else 0.0
  {
    hide Ln, Defect;
    assert FirstNode(|t.x| / 2, left, 2 * ((|t.x| - 1) / 2) + 1) == 1 - |t.x| % 2;
  }

  method GaussSum(t: Table, ghost h: real, x: real, y: array2<real>, left: bool, ghost u: real, f: seq<real>)
    returns (r: real)
    requires Equispaced(t, h) && |t.x| >= 2 && IsDifferenceTable(y, t)
    requires u == (x - t.x[|t.x| / 2]) / h
    requires |f| >= |t.x| && forall k :: 0 <= k < |f| ==> f[k] == GaussFactor(left, u, k)
    ensures r == PartialUpTo(t, left, u, x, |t.x|)
  {
    hide Equispaced, GaussFactor, PartialUpTo, Entry;
    var n := |t.x|;
    var a := n / 2;
    r := t.y[a];
    PartialUpToStart(t, left, u, x);
    for k := 1 to n
      invariant r == PartialUpTo(t, left, u, x, k)
    {
      var c, d := f[k], y[a - k / 2, k];
      PartialUpToStep(t, h, left, x, k, u, c, d);
      r := r + c * d;
    }
  }

  // ----- When the left branch is right

  /** On three or four nodes the left branch is right exactly when the central second difference is zero. */
  lemma LeftDefectFewNodes(t: Table, h: real, x: real)
    requires |t.x| == |t.y| && 3 <= |t.x| <= 4 && h != 0.0 && x != t.x[|t.x| / 2]
    ensures LeftDefect(t, h, x) == 0.0 <==> Delta(t.y, |t.x| / 2 - 1, 2) == 0.0
  {
    var u := (x - t.x[|t.x| / 2]) / h;
    assert u != 0.0 by { assert u * h == x - t.x[|t.x| / 2]; }
    SumLast(DefectTerm(t, u), 1, 2);
    assert Sum(DefectTerm(t, u), 1, 1) == 0.0;
    GaussFactorsBegin(true, u);
  }

  lemma OneStepBack(d: real, h: real)
    requires h != 0.0 && d == -1.0 * h
    ensures d / h == -1.0
  {
  }

  /** On three nodes the left branch returns 2 y_1 - y_2 at the first node. */
  lemma LeftValueThreeNodes(t: Table, h: real)
    requires Equispaced(t, h) && |t.x| == 3
    ensures Ln(t, 0, 3, t.x[0]) + LeftDefect(t, h, t.x[0]) == 2.0 * t.y[1] - t.y[2]
  {
    LagrangeReproduces(t, 0, 3, 0);
    hide Equispaced, Ln;
    SpanOf(t, h, 1, 0);
    var u := (t.x[0] - t.x[1]) / h;
    OneStepBack(t.x[0] - t.x[1], h);
    GaussFactorsBegin(true, u);
    SumLast(DefectTerm(t, u), 1, 2);
    assert Sum(DefectTerm(t, u), 1, 1) == 0.0;
    assert Delta(t.y, 0, 2) == (t.y[2] - t.y[1]) - (t.y[1] - t.y[0]) by {
      DeltaNext(t.y, 0, 2);
      DeltaNext(t.y, 0, 1);
      DeltaNext(t.y, 1, 1);
    }
  }

  /** It is enough that all central differences of even order vanish. */
  lemma LeftDefectVanishes(t: Table, h: real, x: real)
    requires |t.x| == |t.y| && |t.x| >= 2 && h != 0.0
    requires forall i :: 1 <= i <= (|t.x| - 1) / 2 ==> Delta(t.y, |t.x| / 2 - i, 2 * i) == 0.0
    ensures LeftDefect(t, h, x) == 0.0
  {
    hide GaussFactor, Delta;
    var u := (x - t.x[|t.x| / 2]) / h;
    SumNonNegative(DefectTerm(t, u), 1, (|t.x| - 1) / 2 + 1);
  }

  function Squares(n: nat): (y: seq<real>)
    ensures |y| == n
  {
    seq(n, j => j as real * j as real)
  }

  lemma {:induction false} DeltaOfSquares(n: nat, j: int, k: nat)
    requires 0 <= j && j + k < n && k >= 2
    ensures Delta(Squares(n), j, k) == if k == 2 then 2.0 else 0.0
    decreases k
  {
    var y := Squares(n);
    if k == 2 {
      assert y[j] == j as real * j as real;
      assert y[j + 1] == (j + 1) as real * (j + 1) as real;
      assert y[j + 2] == (j + 2) as real * (j + 2) as real;
      assert Delta(y, j, 1) == y[j + 1] - y[j] && Delta(y, j + 1, 1) == y[j + 2] - y[j + 1];
    } else {
      DeltaOfSquares(n, j + 1, k - 1);
      DeltaOfSquares(n, j, k - 1);
    }
  }

  lemma SquaresDefect(xs: seq<real>, h: real, x: real)
    requires |xs| >= 3 && h != 0.0 && x != xs[|xs| / 2]
    ensures LeftDefect(Table(xs, Squares(|xs|)), h, x) != 0.0
  {
    var t := Table(xs, Squares(|xs|));
    var n := |xs|;
    var u := (x - xs[n / 2]) / h;
    assert u != 0.0 by { assert u * h == x - xs[n / 2]; }
    var g := DefectTerm(t, u);
    GaussFactorsBegin(true, u);
    hide GaussFactor;
    forall i | 1 <= i <= (n - 1) / 2 ensures g(i) == if i == 1 then u * 2.0 else 0.0 {
      DeltaOfSquares(n, n / 2 - i, 2 * i);
    }
    SumSingle(g, 1, (n - 1) / 2 + 1, 1);
  }

  /** Left of the middle node the branch is right for every column of values just when there are at most two nodes. */
  lemma LeftBranchRightForAllValues(xs: seq<real>, h: real, x: real)
    requires |xs| >= 2 && h != 0.0 && x != xs[|xs| / 2]
    ensures (forall y: seq<real> :: |y| == |xs| ==> LeftDefect(Table(xs, y), h, x) == 0.0) <==> |xs| <= 2
  {
    if |xs| >= 3 {
      SquaresDefect(xs, h, x);
      assert |Squares(|xs|)| == |xs|;
    }
  }
}

/**
 The formulas for equally spaced nodes of vmath/vmath5/interpolate.py: the difference table dy,
 Newton's form Nnh and Gauss's form Pn. Each is proved against Lagrange's form.
 */
module EquispacedInterpolation {
  import opened Ranges
  import opened Interpolation

  ghost predicate Equispaced(t: Table, h: real): (b: bool)
    ensures b ==> h != 0.0 && Valid(t)
  {
    StepsDistinct(t, h);
    && h != 0.0 && |t.x| == |t.y|
    && forall j :: 0 <= j < |t.x| ==> t.x[j] == t.x[0] + j as real * h
  }

  lemma StepsDistinct(t: Table, h: real)
    ensures h != 0.0 && |t.x| == |t.y| && (forall j :: 0 <= j < |t.x| ==> t.x[j] == t.x[0] + j as real * h) ==> Valid(t)
  {
    if h != 0.0 && |t.x| == |t.y| && forall j :: 0 <= j < |t.x| ==> t.x[j] == t.x[0] + j as real * h {
      forall i, j | 0 <= i < j < |t.x| ensures t.x[i] != t.x[j] {
        assert (j - i) as real * h != 0.0;
      }
    }
  }

  // ----- Finite differences

  function DeltaRec(y: seq<real>, j: int, k: nat): real
    requires 0 <= j && j + k < |y|
    decreases k
  {
    if k == 0 then y[j] else DeltaRec(y, j + 1, k - 1) - DeltaRec(y, j, k - 1)
  }

  /** The k-th forward difference that starts at row j. */
  function Delta(y: seq<real>, j: int, k: nat): real
    requires 0 <= j && j + k < |y|
  {
    DeltaRec(y, j, k)
  }

  lemma DeltaNext(y: seq<real>, j: int, k: nat)
    requires 0 <= j && j + k < |y| && k > 0
    ensures Delta(y, j, k) == Delta(y, j + 1, k - 1) - Delta(y, j, k - 1)
  {
  }

  /** k! * h^k. */
  function Scale(h: real, k: nat): real {
    if k == 0 then 1.0 else Scale(h, k - 1) * (k as real * h)
  }

  /** What the finished difference table holds: zero where no difference exists. */
  function Entry(y: seq<real>, j: nat, k: nat): real {
    if j + k < |y| then Delta(y, j, k) else 0.0
  }

  /** The table of finite differences. */
  method Dy(t: Table) returns (y: array2<real>)
    requires |t.x| == |t.y|
    ensures IsDifferenceTable(y, t)
  {
    var n := |t.x|;
    y := new real[n, n]((i, j) => 0.0);
    for j := 0 to n
      invariant forall r, k :: 0 <= r < n && 0 <= k < n ==> y[r, k] == if k == 0 && r < j then t.y[r] else 0.0
    {
      y[j, 0] := t.y[j];
    }
    var i := 1;
    while i < n
      invariant 1 <= i && (n > 0 ==> i <= n)
      invariant forall r, k :: 0 <= r < n && 0 <= k < n ==> y[r, k] == if k < i then Entry(t.y, r, k) else 0.0
    {
      for j := 0 to n - i
        invariant forall r, k :: 0 <= r < n && 0 <= k < n ==>
          y[r, k] == if k < i || (k == i && r < j) then Entry(t.y, r, k) else 0.0
      {
        y[j, i] := y[j + 1, i - 1] - y[j, i - 1];
        assert y[j, i] == Entry(t.y, j, i);
      }
      i := i + 1;
    }
  }

  lemma {:induction false} ScaleNonZero(h: real, k: nat)
    requires h != 0.0
    ensures Scale(h, k) != 0.0
  {
    if k > 0 {
      ScaleNonZero(h, k - 1);
      assert k as real * h != 0.0;
    }
  }

  lemma ScaleNext(h: real, k: nat)
    ensures Scale(h, k + 1) == Times(Scale(h, k), Times((k + 1) as real, h))
  {
  }

  lemma LeadingStep(t: Table, lo: int, hi: int)
    requires Window(t, lo, hi) && lo + 1 < hi
    ensures Leading(t, lo, hi) == (Leading(t, lo + 1, hi) - Leading(t, lo, hi - 1)) / (t.x[hi - 1] - t.x[lo])
  {
  }

  /** The table entry is the divided difference up to k! h^k. */
  lemma {:induction false} DeltaIsDividedDifference(t: Table, h: real, lo: int, k: nat)
    requires Equispaced(t, h) && 0 <= lo && lo + k < |t.x|
    ensures Times(Leading(t, lo, lo + k + 1), Scale(h, k)) == Delta(t.y, lo, k)
    decreases k
  {
    hide Leading, Scale, Delta, Equispaced, Times;
    if k == 0 {
      DeltaBase(t, h, lo);
    } else {
      DeltaIsDividedDifference(t, h, lo + 1, k - 1);
      DeltaIsDividedDifference(t, h, lo, k - 1);
      DeltaInduct(t, h, lo, k);
    }
  }

  lemma DeltaBase(t: Table, h: real, lo: int)
    requires Window(t, lo, lo + 1)
    ensures Times(Leading(t, lo, lo + 1), Scale(h, 0)) == Delta(t.y, lo, 0)
  {
  }

  lemma DeltaInduct(t: Table, h: real, lo: int, k: nat)
    requires Equispaced(t, h) && 0 <= lo && 0 < k && lo + k < |t.x|
    requires Times(Leading(t, lo + 1, lo + k + 1), Scale(h, k - 1)) == Delta(t.y, lo + 1, k - 1)
    requires Times(Leading(t, lo, lo + k), Scale(h, k - 1)) == Delta(t.y, lo, k - 1)
    ensures Times(Leading(t, lo, lo + k + 1), Scale(h, k)) == Delta(t.y, lo, k)
  {
    hide Leading, Equispaced, Scale, Delta, Times;
    DeltaNext(t.y, lo, k);
    ScaleSpan(t, h, lo, k);
    LeadingStep(t, lo, lo + k + 1);
    DeltaStep(Leading(t, lo + 1, lo + k + 1), Leading(t, lo, lo + k),
              t.x[lo + k] - t.x[lo], Scale(h, k - 1), Leading(t, lo, lo + k + 1), Scale(h, k),
              Delta(t.y, lo + 1, k - 1), Delta(t.y, lo, k - 1));
  }

  lemma SpanOf(t: Table, h: real, i: int, j: int)
    requires Equispaced(t, h) && 0 <= i < |t.x| && 0 <= j < |t.x|
    ensures t.x[j] - t.x[i] == (j - i) as real * h
  {
    assert (j - i) as real * h == j as real * h - i as real * h;
  }

  lemma ScaleSpan(t: Table, h: real, lo: int, k: nat)
    requires Equispaced(t, h) && 0 <= lo && 0 < k && lo + k < |t.x|
    ensures Scale(h, k) == Times(Scale(h, k - 1), t.x[lo + k] - t.x[lo])
  {
    hide Equispaced;
    SpanOf(t, h, lo, lo + k);
  }

  lemma DeltaStep(p: real, q: real, d: real, s: real, r: real, s': real, dp: real, dq: real)
    requires d != 0.0 && r == (p - q) / d && s' == Times(s, d) && Times(p, s) == dp && Times(q, s) == dq
    ensures Times(r, s') == dp - dq
  {
    assert r * d == p - q;
    assert r * s' == (r * d) * s;
  }

  // ----- One step along any path of growing windows

  /** If c * k! h^k is the node product of [lo, hi), then the table entry times c is the next Newton term. */
  lemma TableTerm(t: Table, h: real, lo: int, hi: int, lo': int, hi': int, e: int, x: real, c: real)
    requires Equispaced(t, h) && Grows(t, lo, hi, lo', hi', e)
    requires Times(c, Scale(h, hi - lo)) == NodeProduct(t, lo, hi, x)
    ensures Ln(t, lo', hi', x) == Ln(t, lo, hi, x) + Times(c, Delta(t.y, lo', hi - lo))
  {
    hide Equispaced, Ln, NodeProduct, Leading, Scale, Delta, Times;
    GrowByDifference(t, lo, hi, lo', hi', e, x);
    DeltaIsDividedDifference(t, h, lo', hi - lo);
    Reassociate(Leading(t, lo', hi'), Scale(h, hi - lo), c, NodeProduct(t, lo, hi, x), Delta(t.y, lo', hi - lo));
  }

  lemma Reassociate(a: real, s: real, c: real, p: real, d: real)
    requires Times(a, s) == d && Times(c, s) == p
    ensures Times(a, p) == Times(c, d)
  {
    assert a * (c * s) == c * (a * s);
  }

  lemma NodeProductGrows(t: Table, lo: int, hi: int, lo': int, hi': int, e: int, x: real)
    requires Grows(t, lo, hi, lo', hi', e)
    ensures NodeProduct(t, lo', hi', x) == Times(NodeProduct(t, lo, hi, x), x - t.x[e])
  {
    var f := NodeFactor(t, x);
    if e == hi { ProdLast(f, lo', hi'); } else { ProdPeelLeft(f, lo', hi'); }
  }

  /** The coefficient c' = c * s / (k + 1) belongs to the grown window when x - x_e = s * h. */
  lemma CoefficientGrows(t: Table, h: real, lo: int, hi: int, lo': int, hi': int, e: int, x: real,
                         c: real, s: real, c': real)
    requires Equispaced(t, h) && Grows(t, lo, hi, lo', hi', e)
    requires Times(c, Scale(h, hi - lo)) == NodeProduct(t, lo, hi, x)
    requires x - t.x[e] == s * h && c' == c * s / (hi - lo + 1) as real
    ensures Times(c', Scale(h, hi' - lo')) == NodeProduct(t, lo', hi', x)
  {
    hide Equispaced, Scale, NodeProduct, Times;
    NodeProductGrows(t, lo, hi, lo', hi', e, x);
    var k1 := (hi - lo + 1) as real;
    ScaleNext(h, hi - lo);
    ScaleAlgebra(c, s, k1, Scale(h, hi - lo), h, c', Scale(h, hi' - lo'), NodeProduct(t, lo, hi, x), x - t.x[e]);
  }

  lemma ScaleAlgebra(c: real, s: real, k1: real, sc: real, h: real, c': real, sc': real, p: real, d: real)
    requires k1 != 0.0 && c' == c * s / k1 && sc' == Times(sc, Times(k1, h)) && Times(c, sc) == p && d == s * h
    ensures Times(c', sc') == Times(p, d)
  {
    assert c' * k1 == c * s;
    calc {
      c' * sc';
      (c' * k1) * (sc * h);
      (c * s) * (sc * h);
      (c * sc) * (s * h);
    }
  }

  lemma EmptyWindow(t: Table, h: real, lo: int, x: real)
    requires Window(t, lo, lo)
    ensures Ln(t, lo, lo, x) == 0.0 && NodeProduct(t, lo, lo, x) == 1.0 == Scale(h, 0)
  {
  }

  // ----- Newton's form for equally spaced nodes

  /** Where the search for the interval of x stops when it has come to s. */
  function Search(t: Table, x: real, s: nat): (r: nat)
    requires s + 2 <= |t.x|
    ensures s <= r <= |t.x| - 2
    ensures forall j :: s < j <= r ==> x > t.x[j]
    ensures r + 2 == |t.x| || x <= t.x[r + 1]
    decreases |t.x| - s
  {
    if s + 2 != |t.x| && x > t.x[s + 1] then Search(t, x, s + 1) else s
  }

  predicate NearLeftNode(t: Table, x: real)
    requires |t.x| >= 2
  {
    var s := Search(t, x, 0);
    (t.x[s] + t.x[s + 1]) / 2.0 >= x
  }

  function NewtonFactorRec(left: bool, u: real, k: nat): real {
    if k == 0 then 1.0
    else if k == 1 then u
    else NewtonFactorRec(left, u, k - 1) * (if left then u - k as real + 1.0 else u + k as real - 1.0) / k as real
  }

  /** The k-th entry of the list t of Nnh, for the scaled position u. */
  function NewtonFactor(left: bool, u: real, k: nat): real {
    NewtonFactorRec(left, u, k)
  }

  lemma NewtonFactorNext(left: bool, u: real, k: nat, c: real, s: real)
    requires k >= 1 && c == NewtonFactor(left, u, k - 1)
    requires s == if left then u - k as real + 1.0 else u + k as real - 1.0
    ensures NewtonFactor(left, u, k) == c * s / k as real
  {
  }

  lemma {:induction false} ForwardFactor(t: Table, h: real, start: int, k: nat, x: real)
    requires Equispaced(t, h) && Window(t, start, start + k) && start < |t.x|
    ensures Times(NewtonFactor(true, (x - t.x[start]) / h, k), Scale(h, k)) == NodeProduct(t, start, start + k, x)
    decreases k
  {
    hide Equispaced, NewtonFactor, Scale, NodeProduct, Times;
    if k == 0 {
      NewtonFactorStart(t, h, start, x, true, (x - t.x[start]) / h);
    } else {
      ForwardFactor(t, h, start, k - 1, x);
      OffsetOf(t, h, start, start + k - 1, x);
      NewtonFactorGrows(t, h, start, start + k - 1, start, start + k, start + k - 1, x, true, (x - t.x[start]) / h, k);
    }
  }

  lemma {:induction false} BackwardFactor(t: Table, h: real, k: nat, x: real)
    requires Equispaced(t, h) && Window(t, 0, |t.x|) && 1 <= |t.x| && k <= |t.x|
    ensures var n := |t.x|;
            Times(NewtonFactor(false, (x - t.x[n - 1]) / h, k), Scale(h, k)) == NodeProduct(t, n - k, n, x)
    decreases k
  {
    hide Equispaced, NewtonFactor, Scale, NodeProduct, Times;
    var n := |t.x|;
    if k == 0 {
      NewtonFactorStart(t, h, n, x, false, (x - t.x[n - 1]) / h);
    } else {
      BackwardFactor(t, h, k - 1, x);
      OffsetOf(t, h, n - 1, n - k, x);
      NewtonFactorGrows(t, h, n - k + 1, n, n - k, n, n - k, x, false, (x - t.x[n - 1]) / h, k);
    }
  }

  lemma NewtonFactorStart(t: Table, h: real, lo: int, x: real, left: bool, u: real)
    requires Window(t, lo, lo)
    ensures Times(NewtonFactor(left, u, 0), Scale(h, 0)) == NodeProduct(t, lo, lo, x)
  {
    EmptyWindow(t, h, lo, x);
  }

  lemma NewtonFactorGrows(t: Table, h: real, lo: int, hi: int, lo': int, hi': int, e: int, x: real,
                          left: bool, u: real, k: nat)
    requires Equispaced(t, h) && Grows(t, lo, hi, lo', hi', e) && k == hi - lo + 1
    requires Times(NewtonFactor(left, u, k - 1), Scale(h, hi - lo)) == NodeProduct(t, lo, hi, x)
    requires x - t.x[e] == (if left then u - (k - 1) as real else u + (k - 1) as real) * h
    ensures Times(NewtonFactor(left, u, k), Scale(h, k)) == NodeProduct(t, lo', hi', x)
  {
    hide Equispaced, NewtonFactor, Scale, NodeProduct, Times;
    var c, s := NewtonFactor(left, u, k - 1), if left then u - (k - 1) as real else u + (k - 1) as real;
    NewtonFactorNext(left, u, k, c, s);
    CoefficientGrows(t, h, lo, hi, lo', hi', e, x, c, s, NewtonFactor(left, u, k));
  }

  /** The offset of x from node e, in steps, seen from node o. */
  lemma OffsetOf(t: Table, h: real, o: int, e: int, x: real)
    requires Equispaced(t, h) && 0 <= o < |t.x| && 0 <= e < |t.x|
    ensures x - t.x[e] == ((x - t.x[o]) / h - (e - o) as real) * h
  {
    hide Equispaced;
    SpanOf(t, h, o, e);
    var u := (x - t.x[o]) / h;
    assert u * h == x - t.x[o];
    assert (u - (e - o) as real) * h == u * h - (e - o) as real * h;
  }

  /** What Nnh returns, said with Lagrange's form. */
  function NnhMeaning(t: Table, x: real): real
    requires Valid(t) && |t.x| >= 2
  {
    if NearLeftNode(t, x) then Ln(t, Search(t, x, 0), |t.x|, x) else Ln(t, 0, |t.x|, x)
  }

  method NewtonFactors(left: bool, u: real, n: nat) returns (f: array<real>)
    requires n >= 2
    ensures f.Length == n && forall k :: 0 <= k < n ==> f[k] == NewtonFactor(left, u, k)
  {
    f := new real[n](i => 0.0);
    f[0] := 1.0;
    f[1] := u;
    assert NewtonFactor(left, u, 0) == 1.0 && NewtonFactor(left, u, 1) == u;
    hide NewtonFactor;
    for i := 2 to n
      invariant f[1] == u
      invariant forall k :: 0 <= k < i ==> f[k] == NewtonFactor(left, u, k)
    {
      var c, s := f[i - 1], if left then f[1] - i as real + 1.0 else f[1] + i as real - 1.0;
      NewtonFactorNext(left, u, i, c, s);
      f[i] := c * s / i as real;
    }
  }

  /** Left of the middle of the interval found, Lagrange's form on the nodes from there on; otherwise on all nodes. */
  method Nnh(t: Table, x: real, ghost step: real) returns (r: real)
    requires Equispaced(t, step) && |t.x| >= 2
    ensures r == NnhMeaning(t, x)
  {
    var n := |t.x|;
    var y := Dy(t);
    var start := 0;
    while start + 2 != n && x > t.x[start + 1]
      invariant 0 <= start <= n - 2
      invariant Search(t, x, 0) == Search(t, x, start)
      decreases n - start
    {
      start := start + 1;
    }
    var isLeft := (t.x[start] + t.x[start + 1]) / 2.0 >= x;
    hide Equispaced, Ln, NodeProduct, NewtonFactor, Scale;
    var h := t.x[1] - t.x[0];
    StepIsFirstGap(t, step);
    var f := NewtonFactors(isLeft, if isLeft then (x - t.x[start]) / h else (x - t.x[n - 1]) / h, n);
    if isLeft {
      r := ForwardSum(t, h, x, start, y, (x - t.x[start]) / h, f);
    } else {
      r := BackwardSum(t, h, x, y, (x - t.x[n - 1]) / h, f);
    }
  }

  ghost predicate IsDifferenceTable(y: array2<real>, t: Table)
    reads y
  {
    && y.Length0 == |t.x| && y.Length1 == |t.x|
    && forall j, k :: 0 <= j < |t.x| && 0 <= k < |t.x| ==> y[j, k] == Entry(t.y, j, k)
  }

  method ForwardSum(t: Table, ghost h: real, x: real, start: nat, y: array2<real>, ghost u: real, f: array<real>)
    returns (r: real)
    requires Equispaced(t, h) && start < |t.x| && IsDifferenceTable(y, t)
    requires u == (x - t.x[start]) / h
    requires f.Length == |t.x| && forall k :: 0 <= k < |t.x| ==> f[k] == NewtonFactor(true, u, k)
    ensures r == Ln(t, start, |t.x|, x)
  {
    r := 0.0;
    EmptyWindow(t, h, start, x);
    hide Equispaced, Ln, NewtonFactor, Delta;
    for k := 0 to |t.x| - start
      invariant r == Ln(t, start, start + k, x)
    {
      var c, d := f[k], y[start, k];
      ForwardTerm(t, h, x, start, k, u, c, d);
      r := r + d * c;
    }
  }

  lemma ForwardTerm(t: Table, h: real, x: real, start: int, k: int, u: real, c: real, d: real)
    requires Equispaced(t, h) && 0 <= start && 0 <= k && start + k < |t.x|
    requires u == (x - t.x[start]) / h && c == NewtonFactor(true, u, k) && d == Delta(t.y, start, k)
    ensures Ln(t, start, start + k + 1, x) == Ln(t, start, start + k, x) + Times(c, d)
  {
    hide Equispaced, Ln, NodeProduct, NewtonFactor, Scale, Delta, Times;
    ForwardFactor(t, h, start, k, x);
    TableTerm(t, h, start, start + k, start, start + k + 1, start + k, x, NewtonFactor(true, u, k));
  }

  method BackwardSum(t: Table, ghost h: real, x: real, y: array2<real>, ghost u: real, f: array<real>)
    returns (r: real)
    requires Equispaced(t, h) && 1 <= |t.x| && IsDifferenceTable(y, t)
    requires u == (x - t.x[|t.x| - 1]) / h
    requires f.Length == |t.x| && forall k :: 0 <= k < |t.x| ==> f[k] == NewtonFactor(false, u, k)
    ensures r == Ln(t, 0, |t.x|, x)
  {
    r := 0.0;
    var n := |t.x|;
    EmptyWindow(t, h, n, x);
    hide Equispaced, Ln, NewtonFactor, Delta;
    for k := 0 to n
      invariant r == Ln(t, n - k, n, x)
    {
      var c, d := f[k], y[n - k - 1, k];
      BackwardTerm(t, h, x, k, u, c, d);
      r := r + d * c;
    }
  }

  lemma BackwardTerm(t: Table, h: real, x: real, k: int, u: real, c: real, d: real)
    requires Equispaced(t, h) && 0 <= k < |t.x|
    requires u == (x - t.x[|t.x| - 1]) / h && c == NewtonFactor(false, u, k) && d == Delta(t.y, |t.x| - k - 1, k)
    ensures Ln(t, |t.x| - k - 1, |t.x|, x) == Ln(t, |t.x| - k, |t.x|, x) + Times(c, d)
  {
    hide Equispaced, Ln, NodeProduct, NewtonFactor, Scale, Delta, Times;
    var n := |t.x|;
    BackwardFactor(t, h, k, x);
    TableTerm(t, h, n - k, n, n - k - 1, n, n - k - 1, x, NewtonFactor(false, u, k));
  }

  lemma StepIsFirstGap(t: Table, h: real)
    requires Equispaced(t, h) && |t.x| >= 2
    ensures t.x[1] - t.x[0] == h
  {
    SpanOf(t, h, 0, 1);
  }

  /** Nnh reproduces every value of the table, whichever way the nodes run. */
  lemma NnhReproduces(t: Table, h: real, i: int)
    requires Equispaced(t, h) && |t.x| >= 2 && 0 <= i < |t.x|
    ensures NnhMeaning(t, t.x[i]) == t.y[i]
  {
    var n, x := |t.x|, t.x[i];
    var s := Search(t, x, 0);
    LagrangeReproduces(t, 0, n, i);
    if NearLeftNode(t, x) {
      StartsBefore(t, h, i);
      LagrangeReproduces(t, s, n, i);
    }
  }

  lemma StartsBefore(t: Table, h: real, i: int)
    requires Equispaced(t, h) && |t.x| >= 2 && 0 <= i < |t.x|
    requires NearLeftNode(t, t.x[i])
    ensures Search(t, t.x[i], 0) <= i
  {
    var s := Search(t, t.x[i], 0);
    if h > 0.0 {
      if s > 0 { NodesRun(t, h, s, i); }
    } else {
      if i == 0 { NodesRun(t, h, s + 1, 0); NodesRun(t, h, s, 0); }
      NodesRun(t, h, 1, i);
    }
  }

  /** Nodes run in the direction of the step. */
  lemma NodesRun(t: Table, h: real, i: int, j: int)
    requires Equispaced(t, h) && 0 <= i < |t.x| && 0 <= j < |t.x|
    ensures h > 0.0 ==> (t.x[i] < t.x[j] <==> i < j)
    ensures h < 0.0 ==> (t.x[i] > t.x[j] <==> i < j)
  {
    SpanOf(t, h, i, j);
    hide Equispaced;
    SignOfProduct((j - i) as real, h);
  }

  lemma SignOfProduct(a: real, h: real)
    ensures h > 0.0 ==> (a * h > 0.0 <==> a > 0.0)
    ensures h < 0.0 ==> (a * h < 0.0 <==> a > 0.0)
  {
  }
}

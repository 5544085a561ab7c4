/** Right sides that are cubic polynomials of x alone: which solvers integrate them without error. */
module DifferentialExactness {
  import opened Ranges
  import opened Differential

  datatype Cubic = Cubic(c0: real, c1: real, c2: real, c3: real)

  function Rate(c: Cubic, x: real): real {
    c.c0 + c.c1 * x + c.c2 * (x * x) + c.c3 * (x * x * x)
  }

  /** An antiderivative of Rate. */
  function Primitive(c: Cubic, x: real): real {
    c.c0 * x + c.c1 * (x * x) / 2.0 + c.c2 * (x * x * x) / 3.0 + c.c3 * (x * x * x * x) / 4.0
  }

  ghost predicate IsCubic(f: RightSide, c: Cubic) {
    forall x: real, y: real :: f(x, y) == Rate(c, x)
  }

  ghost predicate Uniform(x: seq<real>, h: real) {
    forall i :: 1 <= i < |x| ==> x[i] == x[i - 1] + h
  }

  /** The exact solution through the first node. */
  ghost predicate Exact(c: Cubic, x: seq<real>, y: seq<real>, n: int)
    requires n <= |x| && n <= |y|
  {
    forall i :: 0 <= i < n ==> y[i] == y[0] + Primitive(c, x[i]) - Primitive(c, x[0])
  }

  // ----- The quadrature rules behind the solvers

  /** The coefficients of the cubic around a, scaled by the step h. */
  function Around(c: Cubic, a: real, h: real): Cubic {
    Cubic(Rate(c, a),
          (c.c1 + 2.0 * c.c2 * a + 3.0 * c.c3 * (a * a)) * h,
          (c.c2 + 3.0 * c.c3 * a) * (h * h),
          c.c3 * (h * h * h))
  }

  /** The rate k steps away from a, and the exact gain up to there. */
  lemma Sample(c: Cubic, a: real, h: real, k: real, x: real)
    requires x == a + k * h
    ensures Rate(c, x) == Rate(Around(c, a, h), k)
  {
  }

  lemma Gain(c: Cubic, a: real, h: real, k: real, x: real)
    requires x == a + k * h
    ensures Primitive(c, x) - Primitive(c, a) == Times(h, Primitive(Around(c, a, h), k))
  {
    hide Around, Primitive;
    GainExpanded(c, a, h, k);
    PrimitiveTerms(Around(c, a, h), k);
  }

  lemma PrimitiveTerms(e: Cubic, k: real)
    ensures Primitive(e, k) == k * e.c0 + k * k / 2.0 * e.c1 + k * k * k / 3.0 * e.c2 + k * k * k * k / 4.0 * e.c3
  {
  }

  lemma GainExpanded(c: Cubic, a: real, h: real, k: real)
    ensures
      var e := Around(c, a, h);
      Primitive(c, a + k * h) - Primitive(c, a)
      == h * (k * e.c0 + k * k / 2.0 * e.c1 + k * k * k / 3.0 * e.c2 + k * k * k * k / 4.0 * e.c3)
  {
  }

  /** The weights of each rule are exact on cubics in steps. */
  lemma Weights(e: Cubic)
    ensures Rate(e, 0.0) + 4.0 * Rate(e, 0.5) + Rate(e, 1.0) == 6.0 * Primitive(e, 1.0)
    ensures Rate(e, 0.0) + 4.0 * Rate(e, 1.0) + Rate(e, 2.0) == 3.0 * Primitive(e, 2.0)
    ensures 55.0 * Rate(e, 0.0) - 59.0 * Rate(e, -1.0) + 37.0 * Rate(e, -2.0) - 9.0 * Rate(e, -3.0) == 24.0 * Primitive(e, 1.0)
    ensures 9.0 * Rate(e, 1.0) + 19.0 * Rate(e, 0.0) - 5.0 * Rate(e, -1.0) + Rate(e, -2.0) == 24.0 * Primitive(e, 1.0)
  {
  }

  lemma SimpsonHalfStep(c: Cubic, a: real, h: real)
    ensures Times(h, Rate(c, a) + 4.0 * Rate(c, a + h / 2.0) + Rate(c, a + h)) / 6.0 == Primitive(c, a + h) - Primitive(c, a)
  {
    hide Around, Rate, Primitive, Times;
    Sample(c, a, h, 0.0, a);
    Sample(c, a, h, 0.5, a + h / 2.0);
    Sample(c, a, h, 1.0, a + h);
    Gain(c, a, h, 1.0, a + h);
    var e := Around(c, a, h);
    Weights(e);
    ScaleRule(h, 6.0, Primitive(e, 1.0), 6.0 * Primitive(e, 1.0));
  }

  lemma ScaleRule(h: real, d: real, p: real, q: real)
    requires d != 0.0 && q == d * p
    ensures Times(h, q) / d == Times(h, p)
  {
  }

  lemma SimpsonTwoSteps(c: Cubic, a: real, h: real)
    ensures Times(h, Rate(c, a) + 4.0 * Rate(c, a + h) + Rate(c, a + h + h)) / 3.0 == Primitive(c, a + h + h) - Primitive(c, a)
  {
    hide Around, Rate, Primitive, Times;
    Sample(c, a, h, 0.0, a);
    Sample(c, a, h, 1.0, a + h);
    Sample(c, a, h, 2.0, a + h + h);
    Gain(c, a, h, 2.0, a + h + h);
    var e := Around(c, a, h);
    Weights(e);
    ScaleRule(h, 3.0, Primitive(e, 2.0), 3.0 * Primitive(e, 2.0));
  }

  /** Extrapolation from a, a - h, a - 2h, a - 3h. */
  lemma BashforthRule(c: Cubic, a: real, h: real)
    ensures Times(h, 55.0 * Rate(c, a) - 59.0 * Rate(c, a - h) + 37.0 * Rate(c, a - h - h) - 9.0 * Rate(c, a - h - h - h)) / 24.0
         == Primitive(c, a + h) - Primitive(c, a)
  {
    hide Around, Rate, Primitive, Times;
    Sample(c, a, h, 0.0, a);
    Sample(c, a, h, -1.0, a - h);
    Sample(c, a, h, -2.0, a - h - h);
    Sample(c, a, h, -3.0, a - h - h - h);
    Gain(c, a, h, 1.0, a + h);
    var e := Around(c, a, h);
    Weights(e);
    ScaleRule(h, 24.0, Primitive(e, 1.0), 24.0 * Primitive(e, 1.0));
  }

  lemma MoultonRule(c: Cubic, a: real, h: real)
    ensures Times(h, 9.0 * Rate(c, a + h) + 19.0 * Rate(c, a) - 5.0 * Rate(c, a - h) + Rate(c, a - h - h)) / 24.0
         == Primitive(c, a + h) - Primitive(c, a)
  {
    hide Around, Rate, Primitive, Times;
    Sample(c, a, h, 1.0, a + h);
    Sample(c, a, h, 0.0, a);
    Sample(c, a, h, -1.0, a - h);
    Sample(c, a, h, -2.0, a - h - h);
    Gain(c, a, h, 1.0, a + h);
    var e := Around(c, a, h);
    Weights(e);
    ScaleRule(h, 24.0, Primitive(e, 1.0), 24.0 * Primitive(e, 1.0));
  }

  // ----- The solvers

  /** The four stages of a step. */
  lemma RKStages(f: RightSide, x0: real, x1: real, y: real) returns (k1: real, k2: real, k3: real, k4: real)
    ensures var h := x1 - x0;
            && k1 == Times(h, f(x0, y)) && k2 == Times(h, f(x0 + h / 2.0, y + k1 / 2.0))
            && k3 == Times(h, f(x0 + h / 2.0, y + k2 / 2.0)) && k4 == Times(h, f(x1, y + k3))
    ensures RKNext(f, x0, x1, y) == y + (k1 + 2.0 * (k2 + k3) + k4) / 6.0
  {
    var h := x1 - x0;
    hide Times;
    k1 := Times(h, f(x0, y));
    k2 := Times(h, f(x0 + h / 2.0, y + k1 / 2.0));
    k3 := Times(h, f(x0 + h / 2.0, y + k2 / 2.0));
    k4 := Times(h, f(x0 + h, y + k3));
    assert x0 + h == x1;
  }

  lemma RKStepExact(f: RightSide, c: Cubic, x0: real, x1: real, y: real)
    requires IsCubic(f, c)
    ensures RKNext(f, x0, x1, y) == y + Primitive(c, x1) - Primitive(c, x0)
  {
    hide Primitive, Rate, Times, RKNext;
    var h := x1 - x0;
    SimpsonHalfStep(c, x0, h);
    var k1, k2, k3, k4 := RKStages(f, x0, x1, y);
    assert x0 + h == x1;
    RKSum(y, h, Rate(c, x0), Rate(c, x0 + h / 2.0), Rate(c, x1));
  }

  lemma RKSum(y: real, h: real, r0: real, r1: real, r2: real)
    ensures y + (Times(h, r0) + 2.0 * (Times(h, r1) + Times(h, r1)) + Times(h, r2)) / 6.0 == y + Times(h, r0 + 4.0 * r1 + r2) / 6.0
  {
  }

  /** RK is exact on every grid. */
  lemma {:induction false} RKExact(f: RightSide, c: Cubic, x: seq<real>, y: seq<real>, n: int)
    requires IsCubic(f, c) && 0 <= n && FollowsRK(f, x, y, n)
    ensures Exact(c, x, y, n)
  {
    hide Primitive, RKNext;
    if n > 1 {
      RKExact(f, c, x, y, n - 1);
      RKStepExact(f, c, x[n - 2], x[n - 1], y[n - 2]);
      assert y[n - 1] == RKNext(f, x[n - 2], x[n - 1], y[n - 2]);
    }
  }

  lemma BackSteps(x: seq<real>, h: real, i: int)
    requires Uniform(x, h) && 4 <= i < |x|
    ensures x[i] == x[i - 1] + h && x[i - 2] == x[i - 1] - h && x[i - 3] == x[i - 1] - h - h
    ensures x[i - 4] == x[i - 1] - h - h - h
  {
    assert x[i] == x[i - 1] + h && x[i - 1] == x[i - 2] + h && x[i - 2] == x[i - 3] + h && x[i - 3] == x[i - 4] + h;
  }

  lemma {:induction false} PredictedExact(f: RightSide, c: Cubic, x: seq<real>, h: real, p: seq<real>, n: int)
    requires IsCubic(f, c) && Uniform(x, h) && 0 <= n <= |x| <= |p| && FollowsRK(f, x, p, |Start(x)|)
    requires forall i :: 4 <= i < n ==> BashforthAt(f, x, p, i)
    ensures Exact(c, x, p, n)
  {
    hide Primitive, Rate, Uniform, Bashforth;
    if n <= |Start(x)| {
      RKExact(f, c, x, p, n);
    } else {
      PredictedExact(f, c, x, h, p, n - 1);
      var i := n - 1;
      assert BashforthAt(f, x, p, i);
      BashforthStepExact(f, c, x, h, i, p[i - 1], p[i - 2], p[i - 3], p[i - 4]);
    }
  }

  lemma BashforthStepExact(f: RightSide, c: Cubic, x: seq<real>, h: real, i: int, y1: real, y2: real, y3: real, y4: real)
    requires Uniform(x, h) && 4 <= i < |x| && f(x[i - 1], y1) == Rate(c, x[i - 1]) && f(x[i - 2], y2) == Rate(c, x[i - 2])
    requires f(x[i - 3], y3) == Rate(c, x[i - 3]) && f(x[i - 4], y4) == Rate(c, x[i - 4])
    ensures Bashforth(f, x, i, y1, y2, y3, y4) == y1 + Primitive(c, x[i]) - Primitive(c, x[i - 1])
  {
    hide Primitive, Rate, Uniform;
    BackSteps(x, h, i);
    BashforthRule(c, x[i - 1], h);
  }

  lemma {:induction false} CorrectedExact(f: RightSide, c: Cubic, x: seq<real>, h: real, p: seq<real>, y: seq<real>, n: int)
    requires IsCubic(f, c) && Uniform(x, h) && 0 <= n <= |x| && FollowsAdamsCorrected(f, x, p, y)
    ensures Exact(c, x, y, n)
  {
    hide Primitive, Rate, Uniform, Moulton;
    if n <= |Start(x)| {
      RKExact(f, c, x, p, n);
    } else {
      CorrectedExact(f, c, x, h, p, y, n - 1);
      var i := n - 1;
      assert MoultonAt(f, x, p, y, LastStep(x), i);
      BackSteps(x, h, |x| - 1);
      MoultonStepExact(f, c, x, h, i, p[i], y[i - 1], y[i - 2], y[i - 3], LastStep(x));
    }
  }

  lemma MoultonStepExact(f: RightSide, c: Cubic, x: seq<real>, h: real, i: int, p: real, y1: real, y2: real, y3: real, h1: real)
    requires Uniform(x, h) && 4 <= i < |x| && h1 == h && f(x[i], p) == Rate(c, x[i]) && f(x[i - 1], y1) == Rate(c, x[i - 1])
    requires f(x[i - 2], y2) == Rate(c, x[i - 2]) && f(x[i - 3], y3) == Rate(c, x[i - 3])
    ensures Moulton(f, x, i, p, y1, y2, y3, h1) == y1 + Primitive(c, x[i]) - Primitive(c, x[i - 1])
  {
    hide Primitive, Rate, Uniform;
    BackSteps(x, h, i);
    MoultonRule(c, x[i - 1], h);
  }

  /** AdamsCorrected is exact on every uniform grid. */
  lemma AdamsCorrectedExact(f: RightSide, c: Cubic, x: seq<real>, h: real, p: seq<real>, y: seq<real>)
    requires IsCubic(f, c) && Uniform(x, h) && FollowsAdamsCorrected(f, x, p, y)
    ensures Exact(c, x, y, |x|)
  {
    CorrectedExact(f, c, x, h, p, y, |x|);
  }

  /** A right side without y meets the demands of Miln on every grid, with contraction by zero. */
  lemma CubicContracts(f: RightSide, c: Cubic, x: seq<real>)
    requires IsCubic(f, c)
    ensures Lipschitz(f, 0.0) && ShortSteps(x, 0.0, 0.0)
  {
  }

  /** Miln is exact on every uniform grid: a right side without y contracts at once, so nothing is missed. */
  lemma {:induction false} MilnExact(f: RightSide, c: Cubic, x: seq<real>, h: real, y: seq<real>, n: int)
    requires IsCubic(f, c) && Uniform(x, h) && 0 <= n <= |x| && FollowsMiln(f, x, y, 0.0)
    ensures Exact(c, x, y, n)
  {
    hide Primitive, Rate, Uniform, Simpson, Times;
    if n <= |Start(x)| {
      RKExact(f, c, x, y, n);
    } else {
      MilnExact(f, c, x, h, y, n - 1);
      var i := n - 1;
      assert MilnAt(f, x, y, 0.0, i);
      TimesZero(E);
      SimpsonStepExact(f, c, x, h, i, y[i - 1], y[i - 2], y[i]);
    }
  }

  lemma SimpsonStepExact(f: RightSide, c: Cubic, x: seq<real>, h: real, i: int, y1: real, y2: real, z: real)
    requires Uniform(x, h) && 4 <= i < |x|
    requires f(x[i], z) == Rate(c, x[i]) && f(x[i - 1], y1) == Rate(c, x[i - 1]) && f(x[i - 2], y2) == Rate(c, x[i - 2])
    ensures Simpson(f, x, i, y1, y2, z) == y2 + Primitive(c, x[i]) - Primitive(c, x[i - 2])
  {
    hide Primitive, Rate, Uniform;
    BackSteps(x, h, i);
    SimpsonTwoSteps(c, x[i - 2], h);
  }

  // ----- Adams multiplies the k-th difference by the (k+1)-st power of the step, which is right for step one only

  lemma AdamsRule(c: Cubic, a: real, f0: real, f1: real, f2: real, f3: real)
    requires f0 == Rate(c, a) && f1 == Rate(c, a - 1.0) && f2 == Rate(c, a - 1.0 - 1.0) && f3 == Rate(c, a - 1.0 - 1.0 - 1.0)
    ensures f0 + (f0 - f1) / 2.0 + 5.0 / 12.0 * (f0 - 2.0 * f1 + f2) + 3.0 / 8.0 * (f0 + 3.0 * (-f1 + f2) - f3)
         == Primitive(c, a + 1.0) - Primitive(c, a)
  {
    hide Around;
    Sample(c, a, 1.0, 0.0, a);
    Sample(c, a, 1.0, -1.0, a - 1.0);
    Sample(c, a, 1.0, -2.0, a - 1.0 - 1.0);
    Sample(c, a, 1.0, -3.0, a - 1.0 - 1.0 - 1.0);
    Gain(c, a, 1.0, 1.0, a + 1.0);
  }

  lemma {:induction false} AdamsUnitStepExact(f: RightSide, c: Cubic, x: seq<real>, y: seq<real>, n: int)
    requires IsCubic(f, c) && Uniform(x, 1.0) && 0 <= n <= |x| && FollowsAdams(f, x, y)
    ensures Exact(c, x, y, n)
  {
    hide Primitive, Rate, Uniform, AdamsNext;
    if n <= |Start(x)| {
      RKExact(f, c, x, y, n);
    } else {
      AdamsUnitStepExact(f, c, x, y, n - 1);
      var i := n - 1;
      assert AdamsAt(f, x, y, i);
      AdamsStepExact(f, c, x, i, y[i - 1], y[i - 2], y[i - 3], y[i - 4]);
    }
  }

  lemma AdamsStepExact(f: RightSide, c: Cubic, x: seq<real>, i: int, y1: real, y2: real, y3: real, y4: real)
    requires Uniform(x, 1.0) && 4 <= i < |x| && f(x[i - 1], y1) == Rate(c, x[i - 1]) && f(x[i - 2], y2) == Rate(c, x[i - 2])
    requires f(x[i - 3], y3) == Rate(c, x[i - 3]) && f(x[i - 4], y4) == Rate(c, x[i - 4])
    ensures AdamsNext(f, x, i, y1, y2, y3, y4) == y1 + Primitive(c, x[i]) - Primitive(c, x[i - 1])
  {
    hide Primitive, Rate, Uniform;
    BackSteps(x, 1.0, i);
    AdamsUnitStep(f, x, i, y1, y2, y3, y4);
    hide AdamsNext;
    AdamsRule(c, x[i - 1], Rate(c, x[i - 1]), Rate(c, x[i - 2]), Rate(c, x[i - 3]), Rate(c, x[i - 4]));
  }

  lemma AdamsUnitStep(f: RightSide, x: seq<real>, i: int, y1: real, y2: real, y3: real, y4: real)
    requires 4 <= i < |x| && x[i] == x[i - 1] + 1.0
    ensures var f0, f1, f2, f3 := f(x[i - 1], y1), f(x[i - 2], y2), f(x[i - 3], y3), f(x[i - 4], y4);
            AdamsNext(f, x, i, y1, y2, y3, y4)
            == y1 + f0 + (f0 - f1) / 2.0 + 5.0 / 12.0 * (f0 - 2.0 * f1 + f2) + 3.0 / 8.0 * (f0 + 3.0 * (-f1 + f2) - f3)
  {
    assert x[i] - x[i - 1] == 1.0;
  }

  /** On the right side f(x, y) = x one Adams step is exact if and only if the step is one (or zero). */
  lemma AdamsOtherStep(f: RightSide, x: seq<real>, h: real, i: int, y1: real, y2: real, y3: real, y4: real)
    requires IsCubic(f, Cubic(0.0, 1.0, 0.0, 0.0)) && Uniform(x, h) && 4 <= i < |x|
    ensures var c := Cubic(0.0, 1.0, 0.0, 0.0);
            AdamsNext(f, x, i, y1, y2, y3, y4) == y1 + Primitive(c, x[i]) - Primitive(c, x[i - 1]) <==> h == 0.0 || h == 1.0
  {
    var c := Cubic(0.0, 1.0, 0.0, 0.0);
    var a := x[i - 1];
    BackSteps(x, h, i);
    assert Rate(c, a) == a && Rate(c, a - h) == a - h && Rate(c, a - h - h) == a - h - h && Rate(c, a - h - h - h) == a - h - h - h;
    assert Primitive(c, a + h) - Primitive(c, a) == a * h + h * h / 2.0;
    assert AdamsNext(f, x, i, y1, y2, y3, y4) == y1 + h * a + h * h * h / 2.0;
    CubeIsSquare(h);
  }

  lemma CubeIsSquare(h: real)
    ensures h * h * h == h * h <==> h == 0.0 || h == 1.0
  {
    if h != 0.0 && h * h * h == h * h {
      assert h * h * h / (h * h) == h;
    }
  }

  // ----- Right sides with a quartic solution, arbitrary off it

  /** P + k with P' = Rate solves y' = f(x, y); nothing is said of f elsewhere. */
  ghost predicate Solves(f: RightSide, c: Cubic, k: real) {
    forall x: real :: f(x, Primitive(c, x) + k) == Rate(c, x)
  }

  ghost predicate OnSolution(c: Cubic, k: real, x: seq<real>, y: seq<real>, n: int)
    requires n <= |x| && n <= |y|
  {
    forall i :: 0 <= i < n ==> y[i] == Primitive(c, x[i]) + k
  }

  /** From values on the solution, Adams's extrapolation with step one stays on it. */
  lemma {:induction false} AdamsStaysOnSolution(f: RightSide, c: Cubic, k: real, x: seq<real>, y: seq<real>, n: int)
    requires Solves(f, c, k) && Uniform(x, 1.0) && 4 <= n <= |x| && FollowsAdams(f, x, y) && OnSolution(c, k, x, y, 4)
    ensures OnSolution(c, k, x, y, n)
  {
    hide Primitive, Rate, Uniform, AdamsNext;
    if n > 4 {
      AdamsStaysOnSolution(f, c, k, x, y, n - 1);
      var i := n - 1;
      assert AdamsAt(f, x, y, i);
      AdamsStepExact(f, c, x, i, y[i - 1], y[i - 2], y[i - 3], y[i - 4]);
    }
  }

  lemma {:induction false} PredictedStaysOnSolution(f: RightSide, c: Cubic, k: real, x: seq<real>, h: real, p: seq<real>, n: int)
    requires Solves(f, c, k) && Uniform(x, h) && 4 <= n <= |x| <= |p| && OnSolution(c, k, x, p, 4)
    requires forall i :: 4 <= i < n ==> BashforthAt(f, x, p, i)
    ensures OnSolution(c, k, x, p, n)
  {
    hide Primitive, Rate, Uniform, Bashforth;
    if n > 4 {
      PredictedStaysOnSolution(f, c, k, x, h, p, n - 1);
      var i := n - 1;
      assert BashforthAt(f, x, p, i);
      BashforthStepExact(f, c, x, h, i, p[i - 1], p[i - 2], p[i - 3], p[i - 4]);
    }
  }

  /** From values on the solution, prediction and correction stay on it on every uniform grid. */
  lemma {:induction false} CorrectedStaysOnSolution(f: RightSide, c: Cubic, k: real, x: seq<real>, h: real, p: seq<real>, y: seq<real>, n: int)
    requires Solves(f, c, k) && Uniform(x, h) && 4 <= n <= |x| && FollowsAdamsCorrected(f, x, p, y) && OnSolution(c, k, x, y, 4)
    ensures OnSolution(c, k, x, y, n)
  {
    hide Primitive, Rate, Uniform, Moulton, Bashforth;
    if n > 4 {
      CorrectedStaysOnSolution(f, c, k, x, h, p, y, n - 1);
      PredictedStaysOnSolution(f, c, k, x, h, p, n);
      var i := n - 1;
      assert MoultonAt(f, x, p, y, LastStep(x), i);
      BackSteps(x, h, |x| - 1);
      MoultonStepExact(f, c, x, h, i, p[i], y[i - 1], y[i - 2], y[i - 3], LastStep(x));
    }
  }

  /** From values on the solution, its next value satisfies Miln's implicit equation. */
  lemma SimpsonStaysOnSolution(f: RightSide, c: Cubic, k: real, x: seq<real>, h: real, y: seq<real>, i: int)
    requires Solves(f, c, k) && Uniform(x, h) && 4 <= i < |x| <= |y| && OnSolution(c, k, x, y, i + 1)
    ensures Simpson(f, x, i, y[i - 1], y[i - 2], y[i]) == y[i]
  {
    hide Primitive, Rate, Uniform, Simpson;
    SimpsonStepExact(f, c, x, h, i, y[i - 1], y[i - 2], y[i]);
  }

  // ----- Right sides that are affine in y

  /** The factor by which RK multiplies a solution of y' = c*y, with z = c*h: the exponential series up to order four. */
  function Amplify(z: real): real {
    1.0 + z + z * z / 2.0 + z * z * z / 6.0 + z * z * z * z / 24.0
  }

  ghost predicate IsAffine(f: RightSide, c: real, g: real -> real) {
    forall x: real, y: real :: f(x, y) == Times(c, y) + g(x)
  }

  /** One stage: h*f(x, u) for f(x, y) = c*y + g(x). */
  lemma Stage(h: real, c: real, u: real, g: real)
    ensures Times(h, Times(c, u) + g) == Times(Times(c, h), u) + Times(h, g)
  {
  }

  /** z times a sum of which the second part is halved or not. */
  lemma Distribute(z: real, a: real, b: real)
    ensures Times(z, a + b) == Times(z, a) + Times(z, b) && Times(z, a + b / 2.0) == Times(z, a) + Times(z, b) / 2.0
    ensures Times(z, a / 2.0 + b) == Times(z, a) / 2.0 + Times(z, b)
  {
  }

  /** What the value in the middle and the value at the start contribute. */
  function MiddleWeight(z: real): real {
    4.0 + 2.0 * z + z * z / 2.0
  }

  function StartWeight(z: real): real {
    1.0 + z + z * z / 2.0 + z * z * z / 4.0
  }

  /** The polynomials in z, applied one factor at a time. */
  lemma Polynomials(z: real, a: real)
    ensures var a1 := Times(z, a); var a2 := Times(z, a1); var a3 := Times(z, a2); var a4 := Times(z, a3);
            && Times(a, Amplify(z)) == a + a1 + a2 / 2.0 + a3 / 6.0 + a4 / 24.0
            && Times(a, StartWeight(z)) == a + a1 + a2 / 2.0 + a3 / 4.0
            && Times(a, MiddleWeight(z)) == 4.0 * a + 2.0 * a1 + a2 / 2.0
  {
  }

  /** The four stages and their mean, from y and the values h*g at the start, in the middle and at the end. */
  lemma StagesMean(z: real, y: real, p: real, q: real, r: real, k1: real, k2: real, k3: real, k4: real)
    requires k1 == Times(z, y) + p && k2 == Times(z, y + k1 / 2.0) + q && k3 == Times(z, y + k2 / 2.0) + q && k4 == Times(z, y + k3) + r
    ensures y + (k1 + 2.0 * (k2 + k3) + k4) / 6.0
         == Times(y, Amplify(z)) + (Times(p, StartWeight(z)) + Times(q, MiddleWeight(z)) + r) / 6.0
  {
    hide Times, Amplify, StartWeight, MiddleWeight;
    Polynomials(z, y);
    Polynomials(z, p);
    Polynomials(z, q);
    var y1, p1, q1 := Times(z, y), Times(z, p), Times(z, q);
    var y2, p2, q2 := Times(z, y1), Times(z, p1), Times(z, q1);
    var y3, p3 := Times(z, y2), Times(z, p2);
    Distribute(z, y, k1);
    Distribute(z, y1, p);
    assert k2 == y1 + y2 / 2.0 + p1 / 2.0 + q;
    Distribute(z, y, k2);
    Distribute(z, y1 + y2 / 2.0 + p1 / 2.0, q);
    Distribute(z, y1 + y2 / 2.0, p1);
    Distribute(z, y1, y2);
    assert k3 == y1 + y2 / 2.0 + y3 / 4.0 + p2 / 4.0 + q1 / 2.0 + q;
    Distribute(z, y, k3);
    ThirdStage(z, y1, y2, y3, p2, q1, q);
  }

  lemma ThirdStage(z: real, a: real, b: real, c: real, d: real, e: real, g: real)
    ensures Times(z, a + b / 2.0 + c / 4.0 + d / 4.0 + e / 2.0 + g)
         == Times(z, a) + Times(z, b) / 2.0 + Times(z, c) / 4.0 + Times(z, d) / 4.0 + Times(z, e) / 2.0 + Times(z, g)
  {
  }

  /** A step of RK on f(x, y) = c*y + g(x), for any c and g. */
  lemma RKAffineStep(f: RightSide, c: real, g: real -> real, x0: real, x1: real, y: real)
    requires IsAffine(f, c, g)
    ensures var h := x1 - x0; var z := Times(c, h);
            RKNext(f, x0, x1, y)
            == Times(y, Amplify(z))
               + (Times(Times(h, g(x0)), StartWeight(z)) + Times(Times(h, g(x0 + h / 2.0)), MiddleWeight(z)) + Times(h, g(x1))) / 6.0
  {
    hide Times, Amplify, StartWeight, MiddleWeight, RKNext;
    var h := x1 - x0;
    var m := x0 + h / 2.0;
    var k1, k2, k3, k4 := RKStages(f, x0, x1, y);
    Stage(h, c, y, g(x0));
    Stage(h, c, y + k1 / 2.0, g(m));
    Stage(h, c, y + k2 / 2.0, g(m));
    Stage(h, c, y + k3, g(x1));
    StagesMean(Times(c, h), y, Times(h, g(x0)), Times(h, g(m)), Times(h, g(x1)), k1, k2, k3, k4);
  }

  ghost predicate IsLinear(f: RightSide, c: real) {
    forall x: real, y: real :: f(x, y) == Times(c, y)
  }

  /** The product of the factors of the first i steps. */
  function Growth(c: real, x: seq<real>, i: nat): real
    requires i < |x|
  {
    if i == 0 then 1.0 else Times(Growth(c, x, i - 1), Amplify(Times(c, x[i] - x[i - 1])))
  }

  lemma RKLinearStep(f: RightSide, c: real, x0: real, x1: real, y: real)
    requires IsLinear(f, c)
    ensures RKNext(f, x0, x1, y) == Times(y, Amplify(Times(c, x1 - x0)))
  {
    hide RKNext, Amplify, Times, StartWeight, MiddleWeight;
    var g: real -> real := x => 0.0;
    RKAffineStep(f, c, g, x0, x1, y);
    var h := x1 - x0;
    var z := Times(c, h);
    TimesZero(h);
    TimesZero(StartWeight(z));
    TimesZero(MiddleWeight(z));
  }

  /** On y' = c*y and every grid, RK returns y0 times the product of the truncated exponentials of its steps. */
  lemma {:induction false} RKLinear(f: RightSide, c: real, x: seq<real>, y: seq<real>, n: int, i: nat)
    requires IsLinear(f, c) && FollowsRK(f, x, y, n) && i < n
    ensures y[i] == Times(y[0], Growth(c, x, i))
  {
    hide RKNext, Amplify;
    if i > 0 {
      RKLinear(f, c, x, y, n, i - 1);
      RKLinearStep(f, c, x[i - 1], x[i], y[i - 1]);
      TimesAssociate(y[0], Growth(c, x, i - 1), Amplify(Times(c, x[i] - x[i - 1])));
    }
  }

  lemma TimesAssociate(a: real, b: real, c: real)
    ensures Times(Times(a, b), c) == Times(a, Times(b, c))
  {
  }
}

/** Polynomial least squares, vmath/vmath4/approximation.py, over exact reals. */
module LeastSquares {
  import opened Wrappers
  import opened Ranges

  /** np.linalg.solve: None stands for the exception raised on a singular matrix. */
  type Solver = (seq<seq<real>>, seq<real>) -> Option<seq<real>>

  function PowRec(x: real, k: nat): real {
    if k == 0 then 1.0 else PowRec(x, k - 1) * x
  }

  function Pow(x: real, k: nat): real {
    PowRec(x, k)
  }

  // ----- The normal system

  function PowerTerm(x: seq<real>, k: nat): int --> real {
    i requires 0 <= i < |x| => Pow(x[i], k)
  }

  function MomentTerm(x: seq<real>, r: seq<real>, k: nat): int --> real
    requires |x| == |r|
  {
    i requires 0 <= i < |x| => Times(Pow(x[i], k), r[i])
  }

  /** The sum of x_i^k * r_i over all points. */
  function Moment(x: seq<real>, r: seq<real>, k: nat): real
    requires |x| == |r|
  {
    Sum(MomentTerm(x, r, k), 0, |x|)
  }

  function XSums(x: seq<real>, m: nat): seq<real> {
    [|x| as real] + seq(2 * m, k requires 0 <= k < 2 * m => Sum(PowerTerm(x, k + 1), 0, |x|))
  }

  function XYSums(x: seq<real>, y: seq<real>, m: nat): seq<real>
    requires |x| == |y|
  {
    seq(m + 1, k requires 0 <= k < m + 1 => Moment(x, y, k))
  }

  /** Row i is the slice of the power sums that starts at i. */
  function XMatrix(x: seq<real>, m: nat): seq<seq<real>> {
    seq(m + 1, i requires 0 <= i < m + 1 => XSums(x, m)[i..m + 1 + i])
  }

  function DotTerm(u: seq<real>, v: seq<real>): int --> real
    requires |u| == |v|
  {
    j requires 0 <= j < |u| => Times(u[j], v[j])
  }

  ghost predicate IsSolution(matrix: seq<seq<real>>, v: seq<real>, b: seq<real>) {
    && |matrix| == |v| == |b|
    && forall i :: 0 <= i < |matrix| ==> |matrix[i]| == |v| && Sum(DotTerm(matrix[i], v), 0, |v|) == b[i]
  }

  /** Whatever the solver returns solves the system it was given. */
  ghost predicate SolverContract(solve: Solver) {
    forall matrix, b :: solve(matrix, b).Some? ==> IsSolution(matrix, solve(matrix, b).value, b)
  }

  // ----- Polynomials

  function PolyTerm(c: seq<real>, x: real): int --> real {
    j requires 0 <= j < |c| => Times(Pow(x, j), c[j])
  }

  /** The first k terms of the polynomial with coefficients c, lowest power first. */
  function Poly(c: seq<real>, k: nat, x: real): real
    requires k <= |c|
  {
    Sum(PolyTerm(c, x), 0, k)
  }

  function FlippedTerm(a: seq<real>, x: real): int --> real {
    j requires 0 <= j < |a| => Times(Pow(x, |a| - 1 - j), a[j])
  }

  /** The fitted function as the class keeps it: highest power first. */
  function Evaluate(a: seq<real>, x: real): real {
    Sum(FlippedTerm(a, x), 0, |a|)
  }

  function Flip(v: seq<real>): seq<real> {
    seq(|v|, i requires 0 <= i < |v| => v[|v| - 1 - i])
  }

  /** The fitted values at all points. */
  function Fitted(a: seq<real>, x: seq<real>): (p: seq<real>)
    ensures |p| == |x|
  {
    seq(|x|, i requires 0 <= i < |x| => Evaluate(a, x[i]))
  }

  function Minus(p: seq<real>, q: seq<real>): (d: seq<real>)
    requires |p| == |q|
    ensures |d| == |p|
  {
    seq(|p|, i requires 0 <= i < |p| => p[i] - q[i])
  }

  function SquareTerm(d: seq<real>): int --> real {
    i requires 0 <= i < |d| => Times(d[i], d[i])
  }

  function SumOfSquares(d: seq<real>): real {
    Sum(SquareTerm(d), 0, |d|)
  }

  /** The residuals of the fit a have no moment of any order that a can express. */
  ghost predicate NormalFit(x: seq<real>, y: seq<real>, a: seq<real>)
    requires |x| == |y|
  {
    forall k :: 0 <= k < |a| ==> Moment(x, Minus(Fitted(a, x), y), k) == 0.0
  }

  class LeastSquares {
    var x: seq<real>
    var y: seq<real>
    var n: nat
    var a: seq<real>
    var xAprx: seq<real>

    ghost predicate Valid()
      reads this
    {
      |x| == n && |y| == n
    }

    constructor (x: seq<real>, y: seq<real>)
      requires |x| == |y|
      ensures Valid() && this.x == x && this.y == y
    {
      this.x, this.y, n := x, y, |x|;
      a, xAprx := [], [];
    }

    /** Fits a polynomial of degree m; fails, leaving the object as it was, when the solver does. */
    method Polynomial(m: nat, solve: Solver) returns (ok: bool)
      requires Valid() && SolverContract(solve)
      modifies this`a, this`xAprx
      ensures ok == solve(XMatrix(x, m), XYSums(x, y, m)).Some?
      ensures ok ==> |a| == m + 1 && NormalFit(x, y, a) && xAprx == Fitted(a, x)
      ensures ok ==> |xAprx| == |y| && S() == SumOfSquares(Minus(Fitted(a, x), y))
      ensures ok ==> forall b: seq<real> :: |b| == m + 1 ==> S() <= SumOfSquares(Minus(Fitted(b, x), y))
      ensures !ok ==> a == old(a) && xAprx == old(xAprx)
    {
      hide SumOfSquares, Minus, NormalFit;
      var r := solve(XMatrix(x, m), XYSums(x, y, m));
      ok := r.Some?;
      if ok {
        SolutionIsNormalFit(x, y, m, r.value);
        a := Flip(r.value);
        xAprx := Fitted(a, x);
        forall b: seq<real> | |b| == m + 1 ensures SumOfSquares(Minus(xAprx, y)) <= SumOfSquares(Minus(Fitted(b, x), y)) {
          PolynomialIsOptimal(x, y, a, b);
        }
      }
    }

    /** The sum of squared deviations of the last fit. */
    function S(): real
      requires |xAprx| == |y|
      reads this
    {
      SumOfSquares(Minus(xAprx, y))
    }
  }

  // ----- The system states that the residuals have no moments

  lemma {:induction false} PowProduct(x: real, k: nat, j: nat)
    ensures Pow(x, k + j) == Times(Pow(x, k), Pow(x, j))
    decreases j
  {
    PowStart(x, k);
    hide Pow, Times;
    if j > 0 {
      PowProduct(x, k, j - 1);
      PowNext(x, k + j - 1);
      PowNext(x, j - 1);
      TimesAssociates(Pow(x, k), Pow(x, j - 1), x);
    }
  }

  lemma PowStart(x: real, k: nat)
    ensures Pow(x, k) == Times(Pow(x, k), Pow(x, 0))
  {
  }

  lemma PowNext(x: real, k: nat)
    ensures Pow(x, k + 1) == Times(Pow(x, k), x)
  {
  }

  lemma TimesAssociates(a: real, b: real, c: real)
    ensures Times(Times(a, b), c) == Times(a, Times(b, c))
  {
  }

  lemma {:induction false} SumOfOnes(f: int --> real, n: nat)
    requires DefinedOn(f, 0, n) && forall i :: 0 <= i < n ==> f(i) == 1.0
    ensures Sum(f, 0, n) == n as real
  {
    if n > 0 { SumOfOnes(f, n - 1); }
  }

  lemma XSumsAt(x: seq<real>, m: nat, k: nat)
    requires k <= 2 * m
    ensures |XSums(x, m)| == 2 * m + 1
    ensures XSums(x, m)[k] == Sum(PowerTerm(x, k), 0, |x|)
  {
    if k == 0 { SumOfOnes(PowerTerm(x, 0), |x|); }
  }

  function ScaledPoly(x: seq<real>, c: seq<real>, k: nat, j: nat): int --> real
    requires j <= |c|
  {
    i requires 0 <= i < |x| => Times(Pow(x[i], k), Poly(c, j, x[i]))
  }

  /** Row k of the matrix times v is the k-th moment of the polynomial v. */
  lemma {:induction false} RowIsMoment(x: seq<real>, m: nat, k: nat, v: seq<real>, j: nat)
    requires k <= m && |v| == m + 1 && j <= m + 1
    ensures XMatrixRow(x, m, k)
    ensures Sum(DotTerm(XMatrix(x, m)[k], v), 0, j) == Sum(ScaledPoly(x, v, k, j), 0, |x|)
    decreases j
  {
    XSumsAt(x, m, 0);
    hide Times, Pow, XSums;
    if j == 0 {
      forall i | 0 <= i < |x| ensures ScaledPoly(x, v, k, 0)(i) == 0.0 { TimesZero(Pow(x[i], k)); }
      SumNonNegative(ScaledPoly(x, v, k, 0), 0, |x|);
    } else {
      RowIsMoment(x, m, k, v, j - 1);
      MatrixEntry(x, m, k, j - 1);
      PowerSumStep(x, k, v, j);
      SumLast(DotTerm(XMatrix(x, m)[k], v), 0, j);
    }
  }

  predicate XMatrixRow(x: seq<real>, m: nat, k: nat)
    requires k <= m
  {
    |XSums(x, m)| == 2 * m + 1 && |XMatrix(x, m)[k]| == m + 1
  }

  lemma MatrixEntry(x: seq<real>, m: nat, k: nat, j: nat)
    requires k <= m && j <= m && XMatrixRow(x, m, k)
    ensures XMatrix(x, m)[k][j] == Sum(PowerTerm(x, k + j), 0, |x|)
  {
    hide XSums, Sum, PowerTerm;
    XSumsAt(x, m, k + j);
  }

  lemma PowerSumStep(x: seq<real>, k: nat, v: seq<real>, j: nat)
    requires 1 <= j <= |v|
    ensures Sum(ScaledPoly(x, v, k, j), 0, |x|)
         == Sum(ScaledPoly(x, v, k, j - 1), 0, |x|) + Times(Sum(PowerTerm(x, k + j - 1), 0, |x|), v[j - 1])
  {
    hide Times, Pow, Poly, Sum;
    forall i | 0 <= i < |x|
      ensures ScaledPoly(x, v, k, j)(i) == ScaledPoly(x, v, k, j - 1)(i) + Times(PowerTerm(x, k + j - 1)(i), v[j - 1])
    {
      ScaledPolyStep(x[i], v, k, j);
    }
    SumPlusTimes(ScaledPoly(x, v, k, j - 1), PowerTerm(x, k + j - 1), v[j - 1], ScaledPoly(x, v, k, j), 0, |x|);
  }

  lemma ScaledPolyStep(x: real, v: seq<real>, k: nat, j: nat)
    requires 1 <= j <= |v|
    ensures Times(Pow(x, k), Poly(v, j, x)) == Times(Pow(x, k), Poly(v, j - 1, x)) + Times(Pow(x, k + j - 1), v[j - 1])
  {
    hide Times, Pow;
    SumLast(PolyTerm(v, x), 0, j);
    PowProduct(x, k, j - 1);
    PolyStepAlgebra(Pow(x, k), Pow(x, j - 1), v[j - 1], Poly(v, j - 1, x), Poly(v, j, x), Pow(x, k + j - 1));
  }

  lemma PolyStepAlgebra(xk: real, xj: real, c: real, p: real, p': real, xkj: real)
    requires p' == p + Times(xj, c) && xkj == Times(xk, xj)
    ensures Times(xk, p') == Times(xk, p) + Times(xkj, c)
  {
    assert xk * (p + xj * c) == xk * p + xk * (xj * c);
  }

  lemma {:induction false} SumReversed(f: int --> real, g: int --> real, n: nat, k: nat)
    requires k <= n && DefinedOn(f, 0, n) && DefinedOn(g, 0, n)
    requires forall i :: 0 <= i < n ==> g(i) == f(n - 1 - i)
    ensures Sum(f, 0, n) == Sum(f, 0, n - k) + Sum(g, 0, k)
    decreases k
  {
    if k > 0 { SumReversed(f, g, n, k - 1); }
  }

  lemma FlipEvaluates(v: seq<real>, x: real)
    ensures Evaluate(Flip(v), x) == Poly(v, |v|, x)
  {
    hide Times, Pow;
    SumReversed(PolyTerm(v, x), FlippedTerm(Flip(v), x), |v|, |v|);
  }

  lemma FlipTwice(v: seq<real>)
    ensures Flip(Flip(v)) == v
  {
  }

  /** A solution of the system is, flipped, a fit whose residuals have no moments up to order m. */
  lemma SolutionIsNormalFit(x: seq<real>, y: seq<real>, m: nat, v: seq<real>)
    requires |x| == |y| && IsSolution(XMatrix(x, m), v, XYSums(x, y, m))
    ensures NormalFit(x, y, Flip(v))
  {
    var a := Flip(v);
    forall k | 0 <= k < |a| ensures Moment(x, Minus(Fitted(a, x), y), k) == 0.0 {
      MomentVanishes(x, y, m, v, k);
    }
  }

  lemma MomentVanishes(x: seq<real>, y: seq<real>, m: nat, v: seq<real>, k: nat)
    requires |x| == |y| && IsSolution(XMatrix(x, m), v, XYSums(x, y, m)) && k <= m
    ensures Moment(x, Minus(Fitted(Flip(v), x), y), k) == 0.0
  {
    hide Times, Pow, Sum, Evaluate, IsSolution;
    var r, p := Minus(Fitted(Flip(v), x), y), ScaledPoly(x, v, k, |v|);
    MomentOfSolution(x, y, m, v, k);
    forall i | 0 <= i < |x| ensures MomentTerm(x, r, k)(i) == 1.0 * p(i) + (-1.0) * MomentTerm(x, y, k)(i) {
      FlipEvaluates(v, x[i]);
      TimesMinus(Pow(x[i], k), Poly(v, |v|, x[i]), y[i]);
    }
    SumLinear(1.0, p, -1.0, MomentTerm(x, y, k), MomentTerm(x, r, k), 0, |x|);
  }

  lemma MomentOfSolution(x: seq<real>, y: seq<real>, m: nat, v: seq<real>, k: nat)
    requires |x| == |y| && IsSolution(XMatrix(x, m), v, XYSums(x, y, m)) && k <= m
    ensures |v| == m + 1
    ensures Sum(ScaledPoly(x, v, k, |v|), 0, |x|) == Sum(MomentTerm(x, y, k), 0, |x|)
  {
    hide Times, Pow, Sum, Poly;
    RowIsMoment(x, m, k, v, m + 1);
    assert XYSums(x, y, m)[k] == Moment(x, y, k);
  }

  lemma TimesMinus(a: real, b: real, c: real)
    ensures Times(a, b - c) == 1.0 * Times(a, b) + (-1.0) * Times(a, c)
  {
  }

  // ----- Optimality

  function CrossTerm(r: seq<real>, d: seq<real>): int --> real
    requires |r| == |d|
  {
    i requires 0 <= i < |r| => Times(r[i], d[i])
  }

  function CrossPoly(x: seq<real>, r: seq<real>, c: seq<real>, k: nat): int --> real
    requires |r| == |x| && k <= |c|
  {
    i requires 0 <= i < |x| => Times(r[i], Poly(c, k, x[i]))
  }

  /** Without moments, the residuals are orthogonal to every polynomial of that degree. */
  lemma {:induction false} Orthogonal(x: seq<real>, r: seq<real>, c: seq<real>, k: nat)
    requires |r| == |x| && k <= |c| && forall j :: 0 <= j < |c| ==> Moment(x, r, j) == 0.0
    ensures Sum(CrossPoly(x, r, c, k), 0, |x|) == 0.0
    decreases k
  {
    hide Times, Pow;
    if k == 0 {
      forall i | 0 <= i < |x| ensures CrossPoly(x, r, c, 0)(i) == 0.0 { TimesZero(r[i]); }
      SumNonNegative(CrossPoly(x, r, c, 0), 0, |x|);
    } else {
      Orthogonal(x, r, c, k - 1);
      forall i | 0 <= i < |x|
        ensures CrossPoly(x, r, c, k)(i) == CrossPoly(x, r, c, k - 1)(i) + Times(MomentTerm(x, r, k - 1)(i), c[k - 1])
      {
        SumLast(PolyTerm(c, x[i]), 0, k);
        CrossAlgebra(r[i], Pow(x[i], k - 1), c[k - 1], Poly(c, k - 1, x[i]), Poly(c, k, x[i]));
      }
      SumPlusTimes(CrossPoly(x, r, c, k - 1), MomentTerm(x, r, k - 1), c[k - 1], CrossPoly(x, r, c, k), 0, |x|);
      assert Moment(x, r, k - 1) == 0.0;
      TimesZero(c[k - 1]);
    }
  }

  lemma CrossAlgebra(r: real, xk: real, c: real, p: real, p': real)
    requires p' == p + Times(xk, c)
    ensures Times(r, p') == Times(r, p) + Times(Times(xk, r), c)
  {
    assert r * (p + xk * c) == r * p + (xk * r) * c;
  }

  /** The difference of two fits is again a polynomial of the same length. */
  lemma {:induction false} PolyMinus(b: seq<real>, a: seq<real>, k: nat, x: real)
    requires |b| == |a| && k <= |a|
    ensures Poly(Minus(b, a), k, x) == Poly(b, k, x) - Poly(a, k, x)
  {
    hide Times, Pow;
    forall j | 0 <= j < k ensures PolyTerm(Minus(b, a), x)(j) == 1.0 * PolyTerm(b, x)(j) + (-1.0) * PolyTerm(a, x)(j) {
      TimesMinus(Pow(x, j), b[j], a[j]);
    }
    SumLinear(1.0, PolyTerm(b, x), -1.0, PolyTerm(a, x), PolyTerm(Minus(b, a), x), 0, k);
  }

  /** S(b) = S(a) + sum (p_b(x_i) - p_a(x_i))^2 for a normal fit a and any coefficients b of the same degree. */
  lemma Pythagoras(x: seq<real>, y: seq<real>, a: seq<real>, b: seq<real>)
    requires |x| == |y| && |a| == |b| && NormalFit(x, y, a)
    ensures SumOfSquares(Minus(Fitted(b, x), y))
         == SumOfSquares(Minus(Fitted(a, x), y)) + SumOfSquares(Minus(Fitted(b, x), Fitted(a, x)))
  {
    var r, d, s := Minus(Fitted(a, x), y), Minus(Fitted(b, x), Fitted(a, x)), Minus(Fitted(b, x), y);
    var c := Minus(Flip(b), Flip(a));
    hide Times, Pow, Evaluate;
    forall i | 0 <= i < |x|
      ensures d[i] == Poly(c, |c|, x[i])
    {
      PolyMinus(Flip(b), Flip(a), |a|, x[i]);
      FlipEvaluates(Flip(a), x[i]);
      FlipEvaluates(Flip(b), x[i]);
      FlipTwice(a);
      FlipTwice(b);
    }
    Orthogonal(x, r, c, |c|);
    SumCongruent(CrossPoly(x, r, c, |c|), CrossTerm(r, d), 0, |x|);
    SquareOfSum(r, d, s);
  }

  lemma SquareOfSum(r: seq<real>, d: seq<real>, s: seq<real>)
    requires |r| == |d| == |s| && forall i :: 0 <= i < |s| ==> s[i] == r[i] + d[i]
    requires Sum(CrossTerm(r, d), 0, |r|) == 0.0
    ensures SumOfSquares(s) == SumOfSquares(r) + SumOfSquares(d)
  {
    var n := |r|;
    var half: int --> real := i requires 0 <= i < n => SquareTerm(r)(i) + 2.0 * CrossTerm(r, d)(i);
    SumLinear(1.0, SquareTerm(r), 2.0, CrossTerm(r, d), half, 0, n);
    forall i | 0 <= i < n ensures SquareTerm(s)(i) == 1.0 * half(i) + 1.0 * SquareTerm(d)(i) {
      assert (r[i] + d[i]) * (r[i] + d[i]) == r[i] * r[i] + 2.0 * (r[i] * d[i]) + d[i] * d[i];
    }
    SumLinear(1.0, half, 1.0, SquareTerm(d), SquareTerm(s), 0, n);
  }

  lemma SumOfSquaresSign(d: seq<real>)
    ensures SumOfSquares(d) >= 0.0
    ensures SumOfSquares(d) == 0.0 <==> forall i :: 0 <= i < |d| ==> d[i] == 0.0
  {
    hide Times;
    forall i | 0 <= i < |d| ensures SquareTerm(d)(i) >= 0.0 && (SquareTerm(d)(i) == 0.0 <==> d[i] == 0.0) {
      SquareSign(d[i]);
    }
    SumNonNegative(SquareTerm(d), 0, |d|);
  }

  /** No coefficients of the same degree do better, and those that do as well have the same fitted values. */
  lemma PolynomialIsOptimal(x: seq<real>, y: seq<real>, a: seq<real>, b: seq<real>)
    requires |x| == |y| && |a| == |b| && NormalFit(x, y, a)
    ensures SumOfSquares(Minus(Fitted(a, x), y)) <= SumOfSquares(Minus(Fitted(b, x), y))
    ensures SumOfSquares(Minus(Fitted(a, x), y)) == SumOfSquares(Minus(Fitted(b, x), y)) <==> Fitted(a, x) == Fitted(b, x)
  {
    Pythagoras(x, y, a, b);
    var d := Minus(Fitted(b, x), Fitted(a, x));
    SumOfSquaresSign(d);
    if forall i :: 0 <= i < |d| ==> d[i] == 0.0 {
      assert forall i :: 0 <= i < |x| ==> Fitted(a, x)[i] == Fitted(b, x)[i] by {
        assert forall i :: 0 <= i < |x| ==> d[i] == Fitted(b, x)[i] - Fitted(a, x)[i];
      }
      assert Fitted(a, x) == Fitted(b, x);
    }
  }

  lemma LeadingZero(a: seq<real>, x: real)
    ensures Evaluate([0.0] + a, x) == Evaluate(a, x)
  {
    hide Times, Pow;
    var f, g := FlippedTerm([0.0] + a, x), FlippedTerm(a, x);
    SumPeelLeft(f, 0, |a| + 1);
    TimesZero(Pow(x, |a|));
    SumShifted(f, g, |a|);
  }

  lemma {:induction false} SumShifted(f: int --> real, g: int --> real, n: nat)
    requires DefinedOn(f, 1, n + 1) && DefinedOn(g, 0, n)
    requires forall i :: 0 <= i < n ==> f(i + 1) == g(i)
    ensures Sum(f, 1, n + 1) == Sum(g, 0, n)
  {
    if n > 0 { SumShifted(f, g, n - 1); }
  }

  /** A solved fit of degree m + 1 is never worse than a solved fit of degree m. */
  lemma HigherDegreeIsNoWorse(x: seq<real>, y: seq<real>, a: seq<real>, a1: seq<real>)
    requires |x| == |y| && |a1| == |a| + 1 && NormalFit(x, y, a1)
    ensures SumOfSquares(Minus(Fitted(a1, x), y)) <= SumOfSquares(Minus(Fitted(a, x), y))
  {
    var b := [0.0] + a;
    forall i | 0 <= i < |x| ensures Evaluate(b, x[i]) == Evaluate(a, x[i]) { LeadingZero(a, x[i]); }
    assert Fitted(b, x) == Fitted(a, x);
    PolynomialIsOptimal(x, y, a1, b);
  }
}

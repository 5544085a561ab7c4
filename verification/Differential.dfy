/** The one- and multi-step solvers of vmath/vmath6/differential.py over exact reals. */
module Differential {
  import opened Ranges

  type RightSide = (real, real) -> real

  // ----- The methods and the recurrences they follow

  function RKNext(f: RightSide, x0: real, x1: real, y: real): real {
    var h := x1 - x0;
    var k1 := Times(h, f(x0, y));
    var k2 := Times(h, f(x0 + h / 2.0, y + k1 / 2.0));
    var k3 := Times(h, f(x0 + h / 2.0, y + k2 / 2.0));
    var k4 := Times(h, f(x0 + h, y + k3));
    y + (k1 + 2.0 * (k2 + k3) + k4) / 6.0
  }

  ghost predicate FollowsRK(f: RightSide, x: seq<real>, y: seq<real>, n: int) {
    n <= |x| && n <= |y| && forall i :: 1 <= i < n ==> y[i] == RKNext(f, x[i - 1], x[i], y[i - 1])
  }

  method RK(y0: real, x: seq<real>, f: RightSide) returns (y: seq<real>)
    ensures |y| == (if |x| == 0 then 1 else |x|) && y[0] == y0
    ensures FollowsRK(f, x, y, |x|)
  {
    hide RKNext;
    y := [y0];
    var i := 1;
    while i < |x|
      invariant 1 <= i && (|x| > 0 ==> i <= |x|) && (|x| == 0 ==> i == 1) && |y| == i && y[0] == y0
      invariant forall j :: 1 <= j < i && j < |x| ==> y[j] == RKNext(f, x[j - 1], x[j], y[j - 1])
    {
      var next := RKNext(f, x[i - 1], x[i], y[i - 1]);
      y := y + [next];
      i := i + 1;
    }
  }

  /** The nodes handed to RK by the multi-step methods. */
  function Start(x: seq<real>): (s: seq<real>)
    ensures s <= x && |s| == if |x| < 4 then |x| else 4
  {
    if |x| < 4 then x else x[..4]
  }

  /** Adams's extrapolation from the values y1, y2, y3, y4 at the indices i-1, i-2, i-3, i-4. */
  function AdamsNext(f: RightSide, x: seq<real>, i: int, y1: real, y2: real, y3: real, y4: real): real
    requires 4 <= i < |x|
  {
    var fi := f(x[i - 1], y1);
    var fim1 := f(x[i - 2], y2);
    var fim2 := f(x[i - 3], y3);
    var fim3 := f(x[i - 4], y4);
    var df := fi - fim1;
    var d2f := fi - 2.0 * fim1 + fim2;
    var d3f := fi + 3.0 * (-fim1 + fim2) - fim3;
    var h := x[i] - x[i - 1];
    y1 + h * fi + h * h / 2.0 * df + 5.0 * (h * h * h) / 12.0 * d2f + 3.0 * (h * h * h * h) / 8.0 * d3f
  }

  ghost predicate AdamsAt(f: RightSide, x: seq<real>, y: seq<real>, i: int)
    requires 4 <= i < |x| && i < |y|
  {
    y[i] == AdamsNext(f, x, i, y[i - 1], y[i - 2], y[i - 3], y[i - 4])
  }

  ghost predicate FollowsAdams(f: RightSide, x: seq<real>, y: seq<real>) {
    && |x| <= |y| && FollowsRK(f, x, y, |Start(x)|)
    && forall i :: 4 <= i < |x| ==> AdamsAt(f, x, y, i)
  }

  method Adams(y0: real, x: seq<real>, f: RightSide) returns (y: seq<real>)
    ensures |y| == (if |x| == 0 then 1 else |x|) && y[0] == y0
    ensures FollowsAdams(f, x, y)
  {
    hide RKNext, AdamsNext;
    y := RK(y0, Start(x), f);
    var i := 4;
    while i < |x|
      invariant 4 <= i && (|x| >= 4 ==> |y| == i <= |x|) && |y| >= 1 && y[0] == y0
      invariant |x| < 4 ==> |y| == if |x| == 0 then 1 else |x|
      invariant FollowsRK(f, x, y, |Start(x)|)
      invariant forall j :: 4 <= j < i && j < |x| ==> AdamsAt(f, x, y, j)
    {
      var next := AdamsNext(f, x, i, y[i - 1], y[i - 2], y[i - 3], y[i - 4]);
      ghost var before := y;
      y := y + [next];
      forall j | 4 <= j < i ensures AdamsAt(f, x, y, j) { assert AdamsAt(f, x, before, j); }
      assert AdamsAt(f, x, y, i);
      i := i + 1;
    }
  }

  function Bashforth(f: RightSide, x: seq<real>, i: int, y1: real, y2: real, y3: real, y4: real): real
    requires 4 <= i < |x|
  {
    var h := x[i] - x[i - 1];
    y1 + h * (55.0 * f(x[i - 1], y1) - 59.0 * f(x[i - 2], y2) + 37.0 * f(x[i - 3], y3) - 9.0 * f(x[i - 4], y4)) / 24.0
  }

  ghost predicate BashforthAt(f: RightSide, x: seq<real>, y: seq<real>, i: int)
    requires 4 <= i < |x| && i < |y|
  {
    y[i] == Bashforth(f, x, i, y[i - 1], y[i - 2], y[i - 3], y[i - 4])
  }

  /** The correction of the predicted value p at index i. */
  function Moulton(f: RightSide, x: seq<real>, i: int, p: real, y1: real, y2: real, y3: real, h: real): real
    requires 4 <= i < |x|
  {
    y1 + h * (9.0 * f(x[i], p) + 19.0 * f(x[i - 1], y1) - 5.0 * f(x[i - 2], y2) + f(x[i - 3], y3)) / 24.0
  }

  /** What the variable h holds after the prediction loop. */
  function LastStep(x: seq<real>): real {
    if |x| < 2 then 0.0 else x[|x| - 1] - x[|x| - 2]
  }

  ghost predicate MoultonAt(f: RightSide, x: seq<real>, p: seq<real>, y: seq<real>, h: real, i: int)
    requires 4 <= i < |x| && i < |y| == |p|
  {
    y[i] == Moulton(f, x, i, p[i], y[i - 1], y[i - 2], y[i - 3], h)
  }

  /** p holds the predicted values, y the corrected ones; all corrections use the last step of the grid. */
  ghost predicate FollowsAdamsCorrected(f: RightSide, x: seq<real>, p: seq<real>, y: seq<real>) {
    && |x| <= |y| == |p| && FollowsRK(f, x, p, |Start(x)|)
    && (forall i :: 4 <= i < |x| ==> BashforthAt(f, x, p, i))
    && (forall i :: 0 <= i < 4 && i < |y| ==> y[i] == p[i])
    && (forall i :: 4 <= i < |x| ==> MoultonAt(f, x, p, y, LastStep(x), i))
  }

  method AdamsCorrected(y0: real, x: seq<real>, f: RightSide) returns (y: seq<real>, ghost p: seq<real>)
    ensures |y| == (if |x| == 0 then 1 else |x|) && y[0] == y0
    ensures FollowsAdamsCorrected(f, x, p, y)
  {
    hide RKNext, Bashforth, Moulton;
    y := RK(y0, Start(x), f);
    var h := 0.0;
    var i := 4;
    while i < |x|
      invariant 4 <= i && (|x| >= 4 ==> |y| == i <= |x|) && |y| >= 1 && y[0] == y0
      invariant |x| < 4 ==> |y| == if |x| == 0 then 1 else |x|
      invariant 4 < i <= |x| ==> h == x[i - 1] - x[i - 2]
      invariant FollowsRK(f, x, y, |Start(x)|)
      invariant forall j :: 4 <= j < i && j < |x| ==> BashforthAt(f, x, y, j)
    {
      h := x[i] - x[i - 1];
      var next := Bashforth(f, x, i, y[i - 1], y[i - 2], y[i - 3], y[i - 4]);
      ghost var before := y;
      y := y + [next];
      forall j | 4 <= j < i ensures BashforthAt(f, x, y, j) { assert BashforthAt(f, x, before, j); }
      assert BashforthAt(f, x, y, i);
      i := i + 1;
    }
    p := y;
    i := 4;
    while i < |x|
      invariant 4 <= i && (|x| >= 4 ==> i <= |x|) && |y| == |p| && y[0] == y0
      invariant forall j :: 0 <= j < |y| && (j < 4 || i <= j) ==> y[j] == p[j]
      invariant forall j :: 4 <= j < i && j < |x| ==> MoultonAt(f, x, p, y, h, j)
    {
      var next := Moulton(f, x, i, y[i], y[i - 1], y[i - 2], y[i - 3], h);
      ghost var before := y;
      y := y[i := next];
      forall j | 4 <= j < i ensures MoultonAt(f, x, p, y, h, j) { assert MoultonAt(f, x, p, before, h, j); }
      assert MoultonAt(f, x, p, y, h, i);
      i := i + 1;
    }
  }

  // ----- Milne: the corrector is iterated until two values are close

  /** Simpson's rule over the last two steps, from y2 and y1, with z as the new value. */
  function Simpson(f: RightSide, x: seq<real>, i: int, y1: real, y2: real, z: real): real
    requires 2 <= i < |x|
  {
    var h := x[i] - x[i - 1];
    y2 + h * (f(x[i - 2], y2) + 4.0 * f(x[i - 1], y1) + f(x[i], z)) / 3.0
  }

  ghost predicate Lipschitz(f: RightSide, l: real) {
    forall x: real, y: real, z: real :: Abs(f(x, y) - f(x, z)) <= Times(l, Abs(y - z))
  }

  /** Every step is short enough for the corrector to contract by q. */
  ghost predicate ShortSteps(x: seq<real>, l: real, q: real) {
    forall i :: 4 <= i < |x| ==> Times(Abs(x[i] - x[i - 1]), l) <= 3.0 * q
  }

  function Power(q: real, n: nat): real {
    if n == 0 then 1.0 else Times(Power(q, n - 1), q)
  }

  lemma {:induction false} Bernoulli(q: real, n: nat)
    requires 0.0 <= q < 1.0
    ensures Power(q, n) >= 0.0
    ensures Times(Power(q, n), 1.0 + Times(n as real, 1.0 - q)) <= 1.0
  {
    if n > 0 {
      Bernoulli(q, n - 1);
      BernoulliStep(q, (n - 1) as real, Power(q, n - 1), Power(q, n));
    }
  }

  lemma BernoulliStep(q: real, n: real, p: real, p': real)
    requires 0.0 <= q < 1.0 && n >= 0.0 && p >= 0.0 && p' == Times(p, q)
    requires Times(p, 1.0 + Times(n, 1.0 - q)) <= 1.0
    ensures p' >= 0.0 && Times(p', 1.0 + Times(n + 1.0, 1.0 - q)) <= 1.0
  {
    var r := 1.0 - q;
    var a, b := 1.0 + n * r, q * (1.0 + (n + 1.0) * r);
    assert a - b == r * r * (n + 1.0);
    assert r * r >= 0.0;
    assert a - b >= 0.0;
    assert p * (a - b) >= 0.0;
    assert Times(p', 1.0 + Times(n + 1.0, r)) == p * b;
  }

  /** A contraction brings any distance below e after enough rounds. */
  lemma EnoughRounds(q: real, d: real, e: real) returns (n: nat)
    requires 0.0 <= q < 1.0 && d >= 0.0 && e > 0.0
    ensures Times(Power(q, n), d) < e
  {
    var r := 1.0 - q;
    TimesPositive(e, r);
    var er := Times(e, r);
    assert d / er >= 0.0;
    n := (d / er).Floor + 1;
    Bernoulli(q, n);
    RoundsAlgebra(Power(q, n), n as real, r, er, d, e);
  }

  lemma RoundsAlgebra(p: real, n: real, r: real, er: real, d: real, e: real)
    requires p >= 0.0 && r > 0.0 && e > 0.0 && d >= 0.0 && er == Times(e, r) && er > 0.0 && n > d / er
    requires Times(p, 1.0 + Times(n, r)) <= 1.0
    ensures Times(p, d) < e
  {
    var g := 1.0 + n * r;
    assert n * er > d by { assert d / er * er == d; }
    assert e * g == e + n * er;
    if p > 0.0 {
      assert p * d < p * (e * g);
      assert p * (e * g) == e * (p * g);
    }
  }

  /** Two values of the corrector are closer than their arguments by the factor q. */
  lemma CorrectorContracts(f: RightSide, x: seq<real>, i: int, y1: real, y2: real, l: real, q: real, z: real, w: real)
    requires 4 <= i < |x| && l >= 0.0 && Lipschitz(f, l)
    requires Times(Abs(x[i] - x[i - 1]), l) <= 3.0 * q
    ensures Abs(Simpson(f, x, i, y1, y2, z) - Simpson(f, x, i, y1, y2, w)) <= Times(q, Abs(z - w))
  {
    hide Times;
    assert Abs(f(x[i], z) - f(x[i], w)) <= Times(l, Abs(z - w));
    SimpsonDifference(x[i] - x[i - 1], y2, f(x[i - 2], y2) + 4.0 * f(x[i - 1], y1), f(x[i], z), f(x[i], w));
    ContractAlgebra(x[i] - x[i - 1], f(x[i], z) - f(x[i], w), l, q, Abs(z - w));
  }

  lemma SimpsonDifference(h: real, y: real, c: real, a: real, b: real)
    ensures (y + h * (c + a) / 3.0) - (y + h * (c + b) / 3.0) == h * (a - b) / 3.0
  {
  }

  lemma ContractAlgebra(h: real, g: real, l: real, q: real, d: real)
    requires d >= 0.0 && l >= 0.0 && Abs(g) <= Times(l, d) && Times(Abs(h), l) <= 3.0 * q
    ensures Abs(h * g / 3.0) <= Times(q, d)
  {
    var a, b := Abs(h), Abs(g);
    assert Abs(h * g) == a * b;
    assert a * b <= a * (l * d);
    assert a * (l * d) == (a * l) * d;
    assert (a * l) * d <= (3.0 * q) * d;
  }

  const E := 0.00001

  ghost predicate MilnAt(f: RightSide, x: seq<real>, y: seq<real>, q: real, i: int)
    requires 4 <= i < |x| && i < |y|
  {
    Abs(y[i] - Simpson(f, x, i, y[i - 1], y[i - 2], y[i])) <= Times(q, E)
  }

  /** Every stored value from index 4 on misses its implicit Simpson equation by at most q * e. */
  ghost predicate FollowsMiln(f: RightSide, x: seq<real>, y: seq<real>, q: real) {
    && |x| <= |y| && FollowsRK(f, x, y, |Start(x)|)
    && forall i :: 4 <= i < |x| ==> MilnAt(f, x, y, q, i)
  }

  function MilnPredictor(f: RightSide, x: seq<real>, i: int, y1: real, y3: real, y4: real): real
    requires 4 <= i < |x|
  {
    var h := x[i] - x[i - 1];
    y4 + 4.0 * h * (2.0 * f(x[i - 3], y3) - f(x[i - 2], y1 + 2.0 * f(x[i - 1], y1))) / 3.0
  }

  /** The corrector loop of one step, from any start value. */
  method Correct(f: RightSide, x: seq<real>, i: int, y1: real, y2: real, start: real, ghost l: real, ghost q: real)
    returns (z: real)
    requires 4 <= i < |x| && l >= 0.0 && Lipschitz(f, l) && 0.0 <= q < 1.0
    requires Times(Abs(x[i] - x[i - 1]), l) <= 3.0 * q
    ensures Abs(z - Simpson(f, x, i, y1, y2, z)) <= Times(q, E)
  {
    hide Simpson, Times, Power, Lipschitz;
    var yi := start;
    var corrected := Simpson(f, x, i, y1, y2, yi);
    ghost var rounds := EnoughRounds(q, Abs(yi - corrected), E);
    while Abs(yi - corrected) >= E
      invariant corrected == Simpson(f, x, i, y1, y2, yi)
      invariant Times(Power(q, rounds), Abs(yi - corrected)) < E
      decreases rounds
    {
      ghost var d := Abs(yi - corrected);
      RoundsLeft(q, rounds, d);
      CorrectorContracts(f, x, i, y1, y2, l, q, yi, corrected);
      yi := corrected;
      corrected := Simpson(f, x, i, y1, y2, yi);
      OneRoundLess(q, rounds, d, Abs(yi - corrected));
      rounds := rounds - 1;
    }
    CorrectorContracts(f, x, i, y1, y2, l, q, yi, corrected);
    TimesMonotone(q, Abs(yi - corrected), E);
    z := corrected;
  }

  lemma RoundsLeft(q: real, rounds: nat, d: real)
    requires Times(Power(q, rounds), d) < E <= d
    ensures rounds > 0
  {
    assert Power(q, 0) == 1.0;
  }

  lemma OneRoundLess(q: real, rounds: nat, d: real, d': real)
    requires rounds > 0 && 0.0 <= q < 1.0 && d' <= Times(q, d) && Times(Power(q, rounds), d) < E
    ensures Times(Power(q, rounds - 1), d') < E
  {
    var p := Power(q, rounds - 1);
    Bernoulli(q, rounds - 1);
    assert Power(q, rounds) == Times(p, q);
    hide Power;
    TimesMonotone(p, d', Times(q, d));
    assert p * (q * d) == (p * q) * d;
  }

  lemma TimesMonotone(q: real, a: real, b: real)
    requires q >= 0.0 && a <= b
    ensures Times(q, a) <= Times(q, b)
  {
  }

  method Miln(y0: real, x: seq<real>, f: RightSide, ghost l: real, ghost q: real) returns (y: seq<real>)
    requires l >= 0.0 && Lipschitz(f, l) && 0.0 <= q < 1.0 && ShortSteps(x, l, q)
    ensures |y| == (if |x| == 0 then 1 else |x|) && y[0] == y0
    ensures FollowsMiln(f, x, y, q)
  {
    hide RKNext, Simpson, Times, Lipschitz, MilnPredictor;
    y := RK(y0, Start(x), f);
    var i := 4;
    while i < |x|
      invariant 4 <= i && (|x| >= 4 ==> |y| == i <= |x|) && |y| >= 1 && y[0] == y0
      invariant |x| < 4 ==> |y| == if |x| == 0 then 1 else |x|
      invariant FollowsRK(f, x, y, |Start(x)|)
      invariant forall j :: 4 <= j < i && j < |x| ==> MilnAt(f, x, y, q, j)
    {
      var predicted := MilnPredictor(f, x, i, y[i - 1], y[i - 3], y[i - 4]);
      var z := Correct(f, x, i, y[i - 1], y[i - 2], predicted, l, q);
      ghost var before := y;
      y := y + [z];
      forall j | 4 <= j < i ensures MilnAt(f, x, y, q, j) { assert MilnAt(f, x, before, q, j); }
      assert MilnAt(f, x, y, q, i);
      i := i + 1;
    }
  }

  // ----- When the corrector loop stops, for right sides linear in y

  function Iterate(g: real -> real, z: real, n: nat): real {
    if n == 0 then z else g(Iterate(g, z, n - 1))
  }

  /** The value that the corrector computes from z, as a function of z. */
  function Corrector(f: RightSide, x: seq<real>, i: int, y1: real, y2: real): real -> real
    requires 2 <= i < |x|
  {
    z => Simpson(f, x, i, y1, y2, z)
  }

  /** The guard of the corrector loop fails after finitely many rounds. */
  ghost predicate Stops(g: real -> real, z: real) {
    exists n: nat :: Abs(Iterate(g, z, n) - Iterate(g, z, n + 1)) < E
  }

  ghost predicate Affine(g: real -> real, k: real) {
    forall u: real, v: real :: g(u) - g(v) == Times(k, u - v)
  }

  lemma {:induction false} AffineGap(g: real -> real, k: real, z: real, n: nat)
    requires Affine(g, k)
    ensures Abs(Iterate(g, z, n) - Iterate(g, z, n + 1)) == Times(Power(Abs(k), n), Abs(z - g(z)))
  {
    if n == 0 {
      assert Iterate(g, z, 1) == g(Iterate(g, z, 0));
    } else {
      AffineGap(g, k, z, n - 1);
      var u, v := Iterate(g, z, n - 1), Iterate(g, z, n);
      assert Iterate(g, z, n) == g(u) && Iterate(g, z, n + 1) == g(v);
      GapAlgebra(k, u - v, Power(Abs(k), n - 1), Abs(z - g(z)));
    }
  }

  lemma GapAlgebra(k: real, d: real, p: real, d0: real)
    requires Abs(d) == Times(p, d0)
    ensures Abs(Times(k, d)) == Times(Times(p, Abs(k)), d0)
  {
    assert Abs(k * d) == Abs(k) * Abs(d);
  }

  lemma {:induction false} PowerGrows(k: real, n: nat)
    requires k >= 1.0
    ensures Power(k, n) >= 1.0
  {
    if n > 0 {
      PowerGrows(k, n - 1);
      assert Power(k, n - 1) * k >= 1.0 * 1.0;
    }
  }

  lemma AffineStops(g: real -> real, k: real, z: real)
    requires Affine(g, k)
    ensures Stops(g, z) <==> Abs(k) < 1.0 || Abs(z - g(z)) < E
  {
    hide Power, Times, Affine;
    var d := Abs(z - g(z));
    if Abs(k) < 1.0 {
      var n := EnoughRounds(Abs(k), d, E);
      AffineGap(g, k, z, n);
    } else if d < E {
      assert Iterate(g, z, 1) == g(Iterate(g, z, 0));
      assert Abs(Iterate(g, z, 0) - Iterate(g, z, 0 + 1)) < E;
    } else {
      forall n: nat ensures Abs(Iterate(g, z, n) - Iterate(g, z, n + 1)) >= E {
        AffineGap(g, k, z, n);
        PowerGrows(Abs(k), n);
        AtLeast(Power(Abs(k), n), d);
      }
    }
  }

  lemma AtLeast(p: real, d: real)
    requires p >= 1.0 && d >= 0.0
    ensures Times(p, d) >= d
  {
  }

  /**
   For f(x, y) = c * y the corrector loop stops exactly when h*c/3 is below one in absolute value or the
   predicted value is already within e; otherwise it runs for ever.
   */
  lemma LinearCorrectorStops(f: RightSide, c: real, x: seq<real>, i: int, y1: real, y2: real, z: real)
    requires 2 <= i < |x| && forall u: real, v: real :: f(u, v) == Times(c, v)
    ensures Stops(Corrector(f, x, i, y1, y2), z)
       <==> Abs(Times(x[i] - x[i - 1], c) / 3.0) < 1.0 || Abs(z - Simpson(f, x, i, y1, y2, z)) < E
  {
    var g := Corrector(f, x, i, y1, y2);
    var h := x[i] - x[i - 1];
    var k := Times(h, c) / 3.0;
    forall u: real, v: real ensures g(u) - g(v) == Times(k, u - v) {
      SimpsonDifference(h, y2, f(x[i - 2], y2) + 4.0 * f(x[i - 1], y1), f(x[i], u), f(x[i], v));
      LinearGap(h, c, u, v);
    }
    AffineStops(g, k, z);
  }

  lemma LinearGap(h: real, c: real, u: real, v: real)
    ensures h * (Times(c, u) - Times(c, v)) / 3.0 == Times(Times(h, c) / 3.0, u - v)
  {
  }
}

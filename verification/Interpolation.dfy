/**
 The interpolation formulas of vmath/vmath5/interpolate.py over exact reals.
 A table holds the nodes x and the values y; a column slice xy[:, lo:hi] is passed as its
 bounds lo and hi.
 */
module Interpolation {
  import opened Ranges

  datatype Table = Table(x: seq<real>, y: seq<real>)

  /** As many values as nodes, and no node twice. */
  ghost predicate Valid(t: Table) {
    && |t.x| == |t.y|
    && forall i, j :: 0 <= i < j < |t.x| ==> t.x[i] != t.x[j]
  }

  ghost predicate Window(t: Table, lo: int, hi: int) {
    Valid(t) && 0 <= lo <= hi <= |t.x|
  }

  // ----- The two forms for arbitrary nodes

  function BasisFactor(t: Table, i: int, x: real): int --> real
    requires Valid(t) && 0 <= i < |t.x|
  {
    j requires 0 <= j < |t.x| => if i != j then (x - t.x[j]) / (t.x[i] - t.x[j]) else 1.0
  }

  function LagrangeTerm(t: Table, lo: int, hi: int, x: real): int --> real
    requires Window(t, lo, hi)
  {
    i requires lo <= i < hi => t.y[i] * Prod(BasisFactor(t, i, x), lo, hi)
  }

  /** Lagrange's form on the nodes [lo, hi). */
  function Ln(t: Table, lo: int, hi: int, x: real): real
    requires Window(t, lo, hi)
  {
    Sum(LagrangeTerm(t, lo, hi, x), lo, hi)
  }

  /** The divided difference of the nodes [lo, hi), by Newton's recursion. */
  function DividedDifference(t: Table, lo: int, hi: int): real
    requires Window(t, lo, hi) && lo < hi
    decreases hi - lo
  {
    if hi - lo == 1 then t.y[lo]
    else (DividedDifference(t, lo + 1, hi) - DividedDifference(t, lo, hi - 1)) / (t.x[hi - 1] - t.x[lo])
  }

  function NodeFactor(t: Table, x: real): int --> real {
    j requires 0 <= j < |t.x| => x - t.x[j]
  }

  /** The product of x - x_j over the nodes [lo, hi). */
  function NodeProduct(t: Table, lo: int, hi: int, x: real): real
    requires Window(t, lo, hi)
  {
    Prod(NodeFactor(t, x), lo, hi)
  }

  /** The coefficient of Newton's form that the nodes [lo, hi) contribute. */
  function Leading(t: Table, lo: int, hi: int): real
    requires Window(t, lo, hi) && lo < hi
  {
    DividedDifference(t, lo, hi)
  }

  function NewtonTerm(t: Table, x: real): int --> real
    requires Valid(t)
  {
    k requires 0 <= k < |t.x| => Times(Leading(t, 0, k + 1), NodeProduct(t, 0, k, x))
  }

  /** Newton's form for arbitrary nodes. */
  function Nn(t: Table, x: real): real
    requires Valid(t) && |t.x| >= 1
  {
    Leading(t, 0, 1) + Sum(NewtonTerm(t, x), 1, |t.x|)
  }

  // ----- Lagrange's form when its window grows by one node

  function SkipFactor(t: Table, i: int, x: real): int --> real {
    j requires 0 <= j < |t.x| => if i != j then x - t.x[j] else 1.0
  }

  /** The node product without the factor of node i. */
  function SkipProduct(t: Table, lo: int, hi: int, i: int, x: real): real
    requires Window(t, lo, hi)
  {
    Prod(SkipFactor(t, i, x), lo, hi)
  }

  lemma SkipNonZero(t: Table, lo: int, hi: int, i: int)
    requires Window(t, lo, hi) && 0 <= i < |t.x|
    ensures SkipProduct(t, lo, hi, i, t.x[i]) != 0.0
  {
    ProdZero(SkipFactor(t, i, t.x[i]), lo, hi);
  }

  lemma {:induction false} BasisIsQuotient(t: Table, lo: int, hi: int, i: int, x: real)
    requires Window(t, lo, hi) && 0 <= i < |t.x|
    ensures SkipProduct(t, lo, hi, i, t.x[i]) != 0.0
    ensures Prod(BasisFactor(t, i, x), lo, hi) == SkipProduct(t, lo, hi, i, x) / SkipProduct(t, lo, hi, i, t.x[i])
    decreases hi - lo, 1
  {
    SkipNonZero(t, lo, hi, i);
    if lo < hi { BasisStep(t, lo, hi, i, x); }
  }

  lemma SkipLast(t: Table, lo: int, hi: int, i: int, x: real)
    requires Window(t, lo, hi) && lo < hi
    ensures i != hi - 1 ==> SkipProduct(t, lo, hi, i, x) == SkipProduct(t, lo, hi - 1, i, x) * (x - t.x[hi - 1])
    ensures i == hi - 1 ==> SkipProduct(t, lo, hi, i, x) == SkipProduct(t, lo, hi - 1, i, x)
  {
    ProdLast(SkipFactor(t, i, x), lo, hi);
  }

  lemma {:induction false} BasisStep(t: Table, lo: int, hi: int, i: int, x: real)
    requires Window(t, lo, hi) && 0 <= i < |t.x| && lo < hi
    requires SkipProduct(t, lo, hi, i, t.x[i]) != 0.0
    ensures Prod(BasisFactor(t, i, x), lo, hi) == SkipProduct(t, lo, hi, i, x) / SkipProduct(t, lo, hi, i, t.x[i])
    decreases hi - lo, 0
  {
    hide Prod, SkipProduct;
    BasisIsQuotient(t, lo, hi - 1, i, x);
    ProdLast(BasisFactor(t, i, x), lo, hi);
    SkipLast(t, lo, hi, i, x);
    SkipLast(t, lo, hi, i, t.x[i]);
    if i != hi - 1 {
      QuotientTimes(SkipProduct(t, lo, hi - 1, i, x), SkipProduct(t, lo, hi - 1, i, t.x[i]),
                    x - t.x[hi - 1], t.x[i] - t.x[hi - 1],
                    SkipProduct(t, lo, hi, i, x), SkipProduct(t, lo, hi, i, t.x[i]));
    }
  }

  lemma QuotientTimes(a: real, b: real, c: real, d: real, ac: real, bd: real)
    requires b != 0.0 && d != 0.0 && bd != 0.0 && ac == a * c && bd == b * d
    ensures (a / b) * (c / d) == ac / bd
  {
    var q, r := a / b, c / d;
    assert (q * r) * (b * d) == (q * b) * (r * d);
  }

  /** Outside the window nothing is skipped; inside, the skipped factor completes the product. */
  lemma {:induction false} SkipCompletes(t: Table, lo: int, hi: int, i: int, x: real)
    requires Window(t, lo, hi) && 0 <= i < |t.x|
    ensures lo <= i < hi ==> SkipProduct(t, lo, hi, i, x) * (x - t.x[i]) == NodeProduct(t, lo, hi, x)
    ensures !(lo <= i < hi) ==> SkipProduct(t, lo, hi, i, x) == NodeProduct(t, lo, hi, x)
    decreases hi - lo
  {
    if lo < hi { SkipCompletes(t, lo, hi - 1, i, x); }
  }

  /** The value with which node i enters the symmetric form of the divided difference. */
  function WeightTerm(t: Table, lo: int, hi: int): int --> real
    requires Window(t, lo, hi)
  {
    i requires lo <= i < hi => (SkipNonZero(t, lo, hi, i); t.y[i] / SkipProduct(t, lo, hi, i, t.x[i]))
  }

  /** The divided difference in its symmetric form: no order of the nodes enters it. */
  function Weighted(t: Table, lo: int, hi: int): real
    requires Window(t, lo, hi)
  {
    Sum(WeightTerm(t, lo, hi), lo, hi)
  }

  lemma TermGrows(y: real, s: real, d: real, x: real, xi: real, xe: real, s': real, d': real, p: real,
                  l: real, l': real, w: real)
    requires d != 0.0 && d' != 0.0
    requires s' == s * (x - xe) && d' == d * (xi - xe) && p == s * (x - xi)
    requires l == y * (s / d) && l' == y * (s' / d') && w == y / d'
    ensures l' == l + Times(w, p)
  {
    var q := 1.0 / d';
    assert s' / d' == s' * q && y / d' == y * q;
    assert s / d == s * (xi - xe) * q by { assert (s * (xi - xe) * q) * d == s * (q * d'); }
    calc {
      y * (s * (xi - xe) * q) + (y * q) * p;
      (y * q) * (s * (xi - xe) + p);
      (y * q) * s';
    }
  }

  /** [lo', hi') is [lo, hi) with the adjacent node e added on one side. */
  ghost predicate Grows(t: Table, lo: int, hi: int, lo': int, hi': int, e: int) {
    && Window(t, lo', hi') && lo' <= lo <= hi <= hi'
    && ((lo' == lo && hi' == hi + 1 && e == hi) || (lo' + 1 == lo && hi' == hi && e == lo'))
  }

  lemma SkipGrows(t: Table, lo: int, hi: int, lo': int, hi': int, e: int, i: int, x: real)
    requires Grows(t, lo, hi, lo', hi', e)
    ensures i == e ==> SkipProduct(t, lo', hi', i, x) == SkipProduct(t, lo, hi, i, x)
    ensures i != e ==> SkipProduct(t, lo', hi', i, x) == SkipProduct(t, lo, hi, i, x) * (x - t.x[e])
  {
    var f := SkipFactor(t, i, x);
    if e == hi {
      assert Prod(f, lo', hi') == Prod(f, lo, hi) * f(e);
    } else {
      ProdPeelLeft(f, lo', hi');
      assert Prod(f, lo', hi') == f(e) * Prod(f, lo, hi);
    }
  }

  /** What an old node contributes after the window has grown. */
  lemma GrowTerm(t: Table, lo: int, hi: int, lo': int, hi': int, e: int, i: int, x: real)
    requires Grows(t, lo, hi, lo', hi', e)
    requires lo <= i < hi
    ensures LagrangeTerm(t, lo', hi', x)(i)
         == LagrangeTerm(t, lo, hi, x)(i) + Times(WeightTerm(t, lo', hi')(i), NodeProduct(t, lo, hi, x))
  {
    hide Prod, SkipProduct, NodeProduct, Times;
    TermShape(t, lo, hi, i, x);
    TermShape(t, lo', hi', i, x);
    SkipGrows(t, lo, hi, lo', hi', e, i, x);
    SkipGrows(t, lo, hi, lo', hi', e, i, t.x[i]);
    SkipCompletes(t, lo, hi, i, x);
    TermGrows(t.y[i], SkipProduct(t, lo, hi, i, x), SkipProduct(t, lo, hi, i, t.x[i]), x, t.x[i], t.x[e],
              SkipProduct(t, lo', hi', i, x), SkipProduct(t, lo', hi', i, t.x[i]), NodeProduct(t, lo, hi, x),
              LagrangeTerm(t, lo, hi, x)(i), LagrangeTerm(t, lo', hi', x)(i), WeightTerm(t, lo', hi')(i));
  }

  lemma TermShape(t: Table, lo: int, hi: int, i: int, x: real)
    requires Window(t, lo, hi) && lo <= i < hi
    ensures SkipProduct(t, lo, hi, i, t.x[i]) != 0.0
    ensures LagrangeTerm(t, lo, hi, x)(i) == t.y[i] * (SkipProduct(t, lo, hi, i, x) / SkipProduct(t, lo, hi, i, t.x[i]))
    ensures WeightTerm(t, lo, hi)(i) == t.y[i] / SkipProduct(t, lo, hi, i, t.x[i])
  {
    BasisIsQuotient(t, lo, hi, i, x);
  }

  /** What the new node contributes. */
  lemma GrowNewNode(t: Table, lo: int, hi: int, lo': int, hi': int, e: int, x: real)
    requires Grows(t, lo, hi, lo', hi', e)
    ensures LagrangeTerm(t, lo', hi', x)(e) == Times(WeightTerm(t, lo', hi')(e), NodeProduct(t, lo, hi, x))
  {
    hide Prod, SkipProduct, NodeProduct, Times;
    TermShape(t, lo', hi', e, x);
    SkipGrows(t, lo, hi, lo', hi', e, e, x);
    SkipCompletes(t, lo, hi, e, x);
    NewTerm(t.y[e], SkipProduct(t, lo', hi', e, x), SkipProduct(t, lo', hi', e, t.x[e]), NodeProduct(t, lo, hi, x),
            LagrangeTerm(t, lo', hi', x)(e), WeightTerm(t, lo', hi')(e));
  }

  lemma NewTerm(y: real, s: real, d: real, p: real, l: real, w: real)
    requires d != 0.0 && s == p && l == y * (s / d) && w == y / d
    ensures l == Times(w, p)
  {
  }

  /** All old nodes together. */
  lemma GrowOldNodes(t: Table, lo: int, hi: int, lo': int, hi': int, e: int, x: real)
    requires Grows(t, lo, hi, lo', hi', e)
    ensures Sum(LagrangeTerm(t, lo', hi', x), lo, hi)
         == Ln(t, lo, hi, x) + Times(Sum(WeightTerm(t, lo', hi'), lo, hi), NodeProduct(t, lo, hi, x))
  {
    hide Prod, NodeProduct, Times;
    forall i | lo <= i < hi
      ensures LagrangeTerm(t, lo', hi', x)(i)
           == LagrangeTerm(t, lo, hi, x)(i) + Times(WeightTerm(t, lo', hi')(i), NodeProduct(t, lo, hi, x))
    {
      GrowTerm(t, lo, hi, lo', hi', e, i, x);
    }
    SumPlusTimes(LagrangeTerm(t, lo, hi, x), WeightTerm(t, lo', hi'), NodeProduct(t, lo, hi, x),
                 LagrangeTerm(t, lo', hi', x), lo, hi);
  }

  lemma SumGrows(f: int --> real, lo: int, hi: int, lo': int, hi': int, e: int)
    requires lo' <= lo <= hi <= hi' && DefinedOn(f, lo', hi')
    requires (lo' == lo && hi' == hi + 1 && e == hi) || (lo' + 1 == lo && hi' == hi && e == lo')
    ensures Sum(f, lo', hi') == Sum(f, lo, hi) + f(e)
  {
    if lo' < lo { SumPeelLeft(f, lo', hi'); }
  }

  /** A window that grows by one node, on either side, gains exactly one Newton term. */
  lemma Grow(t: Table, lo: int, hi: int, lo': int, hi': int, e: int, x: real)
    requires Grows(t, lo, hi, lo', hi', e)
    ensures Ln(t, lo', hi', x) == Ln(t, lo, hi, x) + Times(Weighted(t, lo', hi'), NodeProduct(t, lo, hi, x))
  {
    hide Prod, NodeProduct, Times;
    GrowOldNodes(t, lo, hi, lo', hi', e, x);
    GrowNewNode(t, lo, hi, lo', hi', e, x);
    SumGrows(LagrangeTerm(t, lo', hi', x), lo, hi, lo', hi', e);
    SumGrows(WeightTerm(t, lo', hi'), lo, hi, lo', hi', e);
    TimesSum(Sum(WeightTerm(t, lo', hi'), lo, hi), WeightTerm(t, lo', hi')(e), NodeProduct(t, lo, hi, x));
  }

  lemma TimesSum(a: real, b: real, c: real)
    ensures Times(a + b, c) == Times(a, c) + Times(b, c)
  {
  }

  /** Newton's recursive divided difference is the symmetric form, hence independent of the order of the nodes. */
  lemma {:induction false} DividedDifferenceIsSymmetric(t: Table, lo: int, hi: int)
    requires Window(t, lo, hi) && lo < hi
    ensures DividedDifference(t, lo, hi) == Weighted(t, lo, hi)
    decreases hi - lo
  {
    if hi == lo + 1 {
      OneNode(t, lo);
    } else {
      DividedDifferenceIsSymmetric(t, lo + 1, hi);
      DividedDifferenceIsSymmetric(t, lo, hi - 1);
      SymmetricInduct(t, lo, hi);
    }
  }

  lemma SymmetricInduct(t: Table, lo: int, hi: int)
    requires Window(t, lo, hi) && lo + 1 < hi
    requires DividedDifference(t, lo + 1, hi) == Weighted(t, lo + 1, hi)
    requires DividedDifference(t, lo, hi - 1) == Weighted(t, lo, hi - 1)
    ensures DividedDifference(t, lo, hi) == Weighted(t, lo, hi)
  {
    hide Weighted, NodeProduct, Times;
    TwoWaysToGrow(t, lo, hi);
    NodeProductNonZero(t, lo + 1, hi - 1, lo);
    CancelFactor(Weighted(t, lo, hi - 1), Weighted(t, lo + 1, hi), Weighted(t, lo, hi),
                 NodeProduct(t, lo + 1, hi - 1, t.x[lo]), t.x[lo] - t.x[hi - 1], t.x[hi - 1] - t.x[lo]);
  }

  lemma OneNode(t: Table, lo: int)
    requires Window(t, lo, lo + 1)
    ensures Weighted(t, lo, lo + 1) == t.y[lo]
  {
    var f := SkipFactor(t, lo, t.x[lo]);
    ProdLast(f, lo, lo + 1);
    assert Prod(f, lo, lo) == 1.0;
    SumLast(WeightTerm(t, lo, lo + 1), lo, lo + 1);
  }

  lemma NodeProductNonZero(t: Table, lo: int, hi: int, i: int)
    requires Window(t, lo, hi) && 0 <= i < |t.x| && !(lo <= i < hi)
    ensures NodeProduct(t, lo, hi, t.x[i]) != 0.0
  {
    ProdZero(NodeFactor(t, t.x[i]), lo, hi);
  }

  /** From [lo + 1, hi - 1) the window [lo, hi) is reached by adding either end first; compare at x = x_lo. */
  lemma TwoWaysToGrow(t: Table, lo: int, hi: int)
    requires Window(t, lo, hi) && lo + 1 < hi
    ensures var x := t.x[lo]; var v := NodeProduct(t, lo + 1, hi - 1, x);
            Times(Weighted(t, lo, hi - 1), v) == Times(Weighted(t, lo + 1, hi), v) + Times(Weighted(t, lo, hi), Times(v, x - t.x[hi - 1]))
  {
    hide Prod, NodeProduct, Weighted, Ln, Times;
    var x := t.x[lo];
    Grow(t, lo + 1, hi - 1, lo, hi - 1, lo, x);
    Grow(t, lo, hi - 1, lo, hi, hi - 1, x);
    Grow(t, lo + 1, hi - 1, lo + 1, hi, hi - 1, x);
    Grow(t, lo + 1, hi, lo, hi, lo, x);
    NodeProductAtNode(t, lo, hi - 1, lo);
    NodeProductLast(t, lo + 1, hi, x);
    TwoWaysAlgebra(Ln(t, lo + 1, hi - 1, x), Ln(t, lo, hi - 1, x), Ln(t, lo + 1, hi, x), Ln(t, lo, hi, x),
                   Weighted(t, lo, hi - 1), Weighted(t, lo + 1, hi), Weighted(t, lo, hi),
                   NodeProduct(t, lo + 1, hi - 1, x), NodeProduct(t, lo, hi - 1, x), NodeProduct(t, lo + 1, hi, x),
                   x - t.x[hi - 1]);
  }

  lemma TwoWaysAlgebra(l0: real, l1: real, l2: real, l: real, a: real, b: real, c: real,
                       v: real, p1: real, p2: real, d: real)
    requires l1 == l0 + Times(a, v) && l == l1 + Times(c, p1) && l2 == l0 + Times(b, v) && l == l2 + Times(c, p2)
    requires p1 == 0.0 && p2 == Times(v, d)
    ensures Times(a, v) == Times(b, v) + Times(c, Times(v, d))
  {
  }

  lemma NodeProductAtNode(t: Table, lo: int, hi: int, i: int)
    requires Window(t, lo, hi) && lo <= i < hi
    ensures NodeProduct(t, lo, hi, t.x[i]) == 0.0
  {
    assert NodeFactor(t, t.x[i])(i) == 0.0;
    ProdZero(NodeFactor(t, t.x[i]), lo, hi);
  }

  lemma NodeProductLast(t: Table, lo: int, hi: int, x: real)
    requires Window(t, lo, hi) && lo < hi
    ensures NodeProduct(t, lo, hi, x) == Times(NodeProduct(t, lo, hi - 1, x), x - t.x[hi - 1])
  {
    hide Prod;
    ProdLast(NodeFactor(t, x), lo, hi);
  }

  lemma CancelFactor(a: real, b: real, c: real, v: real, d: real, d': real)
    requires v != 0.0 && d != 0.0 && d' == -d && Times(a, v) == Times(b, v) + Times(c, Times(v, d))
    ensures c == (b - a) / d'
  {
    assert v * (a - b - c * d) == 0.0;
    assert a - b == c * d;
  }

  /** The same as Grow, with the recursive divided difference as the new coefficient. */
  lemma GrowByDifference(t: Table, lo: int, hi: int, lo': int, hi': int, e: int, x: real)
    requires Grows(t, lo, hi, lo', hi', e)
    ensures Ln(t, lo', hi', x) == Ln(t, lo, hi, x) + Times(Leading(t, lo', hi'), NodeProduct(t, lo, hi, x))
  {
    hide Ln, Weighted, NodeProduct, Times;
    Grow(t, lo, hi, lo', hi', e, x);
    DividedDifferenceIsSymmetric(t, lo', hi');
  }

  // ----- Newton's form is Lagrange's form

  lemma LagrangeOneNode(t: Table, lo: int, x: real)
    requires Window(t, lo, lo + 1)
    ensures Ln(t, lo, lo + 1, x) == t.y[lo] == Leading(t, lo, lo + 1)
  {
    GrowByDifference(t, lo, lo, lo, lo + 1, lo, x);
    assert Ln(t, lo, lo, x) == 0.0 && NodeProduct(t, lo, lo, x) == 1.0;
  }

  lemma {:induction false} NewtonPrefixIsLagrange(t: Table, x: real, n: int)
    requires Valid(t) && 1 <= n <= |t.x|
    ensures Leading(t, 0, 1) + Sum(NewtonTerm(t, x), 1, n) == Ln(t, 0, n, x)
    decreases n
  {
    if n == 1 {
      LagrangeOneNode(t, 0, x);
      assert Sum(NewtonTerm(t, x), 1, 1) == 0.0;
    }
    hide NodeProduct, Leading, Ln, Times;
    if n > 1 {
      NewtonPrefixIsLagrange(t, x, n - 1);
      SumLast(NewtonTerm(t, x), 1, n);
      GrowByDifference(t, 0, n - 1, 0, n, n - 1, x);
    }
  }

  /** For every table of distinct nodes and every x the two general forms agree. */
  lemma NewtonIsLagrange(t: Table, x: real)
    requires Valid(t) && |t.x| >= 1
    ensures Nn(t, x) == Ln(t, 0, |t.x|, x)
  {
    NewtonPrefixIsLagrange(t, x, |t.x|);
  }

  /** Lagrange's form passes through every point of its window. */
  lemma LagrangeReproduces(t: Table, lo: int, hi: int, k: int)
    requires Window(t, lo, hi) && lo <= k < hi
    ensures Ln(t, lo, hi, t.x[k]) == t.y[k]
  {
    var x := t.x[k];
    forall i | lo <= i < hi && i != k
      ensures LagrangeTerm(t, lo, hi, x)(i) == 0.0
    {
      assert BasisFactor(t, i, x)(k) == 0.0;
      ProdZero(BasisFactor(t, i, x), lo, hi);
    }
    SumSingle(LagrangeTerm(t, lo, hi, x), lo, hi, k);
    BasisIsQuotient(t, lo, hi, k, x);
  }

  /** Both general forms return y_k at x_k. */
  lemma GeneralFormsReproduce(t: Table, k: int)
    requires Valid(t) && 0 <= k < |t.x|
    ensures Nn(t, t.x[k]) == Ln(t, 0, |t.x|, t.x[k]) == t.y[k]
  {
    NewtonIsLagrange(t, t.x[k]);
    LagrangeReproduces(t, 0, |t.x|, k);
  }
}

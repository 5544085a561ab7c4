/** Finite sums and products of real-valued functions over an integer range [lo, hi). */
module Ranges {

  ghost predicate DefinedOn(f: int --> real, lo: int, hi: int) {
    forall i :: lo <= i < hi ==> f.requires(i)
  }

  function Sum(f: int --> real, lo: int, hi: int): real
    requires DefinedOn(f, lo, hi)
    decreases hi - lo
  {
    if hi <= lo then 0.0 else Sum(f, lo, hi - 1) + f(hi - 1)
  }

  function Prod(f: int --> real, lo: int, hi: int): real
    requires DefinedOn(f, lo, hi)
    decreases hi - lo
  {
    if hi <= lo then 1.0 else Prod(f, lo, hi - 1) * f(hi - 1)
  }

  function Abs(a: real): real {
    if a < 0.0 then -a else a
  }

  /** The product by name; proofs that only move products around hide its body. */
  function Times(a: real, b: real): real {
    a * b
  }

  lemma TimesPositive(a: real, b: real)
    requires a > 0.0 && b > 0.0
    ensures Times(a, b) > 0.0
  {
  }

  lemma TimesNegated(a: real)
    ensures Times(a, a) == Times(-a, -a)
  {
  }

  lemma TimesZero(a: real)
    ensures Times(a, 0.0) == 0.0 == Times(0.0, a)
  {
  }

  lemma SquareSign(a: real)
    ensures Times(a, a) >= 0.0 && (Times(a, a) == 0.0 <==> a == 0.0)
  {
    hide Times;
    if a > 0.0 {
      TimesPositive(a, a);
    } else if a < 0.0 {
      TimesPositive(-a, -a);
      TimesNegated(a);
    } else {
      TimesZero(0.0);
    }
  }

  lemma SumLast(f: int --> real, lo: int, hi: int)
    requires lo < hi && DefinedOn(f, lo, hi)
    ensures Sum(f, lo, hi) == Sum(f, lo, hi - 1) + f(hi - 1)
  {
  }

  lemma ProdLast(f: int --> real, lo: int, hi: int)
    requires lo < hi && DefinedOn(f, lo, hi)
    ensures Prod(f, lo, hi) == Prod(f, lo, hi - 1) * f(hi - 1)
  {
  }

  lemma {:induction false} SumCongruent(f: int --> real, g: int --> real, lo: int, hi: int)
    requires DefinedOn(f, lo, hi) && DefinedOn(g, lo, hi)
    requires forall i :: lo <= i < hi ==> f(i) == g(i)
    ensures Sum(f, lo, hi) == Sum(g, lo, hi)
    decreases hi - lo
  {
    if lo < hi { SumCongruent(f, g, lo, hi - 1); }
  }

  lemma {:induction false} SumPeelLeft(f: int --> real, lo: int, hi: int)
    requires lo < hi && DefinedOn(f, lo, hi)
    ensures Sum(f, lo, hi) == f(lo) + Sum(f, lo + 1, hi)
    decreases hi - lo
  {
    if lo + 1 < hi { SumPeelLeft(f, lo, hi - 1); }
  }

  /** If h = a*f + b*g pointwise then Sum(h) = a*Sum(f) + b*Sum(g). */
  lemma {:induction false} SumLinear(a: real, f: int --> real, b: real, g: int --> real, h: int --> real,
                                     lo: int, hi: int)
    requires DefinedOn(f, lo, hi) && DefinedOn(g, lo, hi) && DefinedOn(h, lo, hi)
    requires forall i :: lo <= i < hi ==> h(i) == a * f(i) + b * g(i)
    ensures Sum(h, lo, hi) == a * Sum(f, lo, hi) + b * Sum(g, lo, hi)
    decreases hi - lo
  {
    if lo < hi {
      SumLinear(a, f, b, g, h, lo, hi - 1);
      assert a * (Sum(f, lo, hi - 1) + f(hi - 1)) == a * Sum(f, lo, hi - 1) + a * f(hi - 1);
      assert b * (Sum(g, lo, hi - 1) + g(hi - 1)) == b * Sum(g, lo, hi - 1) + b * g(hi - 1);
    }
  }

  /** If h = f + g*c pointwise then Sum(h) = Sum(f) + Sum(g)*c. */
  lemma SumPlusTimes(f: int --> real, g: int --> real, c: real, h: int --> real, lo: int, hi: int)
    requires DefinedOn(f, lo, hi) && DefinedOn(g, lo, hi) && DefinedOn(h, lo, hi)
    requires forall i :: lo <= i < hi ==> h(i) == f(i) + Times(g(i), c)
    ensures Sum(h, lo, hi) == Sum(f, lo, hi) + Times(Sum(g, lo, hi), c)
  {
    SumLinear(1.0, f, c, g, h, lo, hi);
  }

  lemma {:induction false} SumScale(a: real, f: int --> real, h: int --> real, lo: int, hi: int)
    requires DefinedOn(f, lo, hi) && DefinedOn(h, lo, hi)
    requires forall i :: lo <= i < hi ==> h(i) == a * f(i)
    ensures Sum(h, lo, hi) == a * Sum(f, lo, hi)
    decreases hi - lo
  {
    if lo < hi {
      SumScale(a, f, h, lo, hi - 1);
      assert a * (Sum(f, lo, hi - 1) + f(hi - 1)) == a * Sum(f, lo, hi - 1) + a * f(hi - 1);
    }
  }

  /** If h = a*f pointwise then Sum(h) = a*Sum(f). */
  lemma SumTimesConstant(a: real, f: int --> real, h: int --> real, lo: int, hi: int)
    requires DefinedOn(f, lo, hi) && DefinedOn(h, lo, hi)
    requires forall i :: lo <= i < hi ==> h(i) == Times(a, f(i))
    ensures Sum(h, lo, hi) == Times(a, Sum(f, lo, hi))
  {
    SumScale(a, f, h, lo, hi);
  }

  /** If h = f + g pointwise then Sum(h) = Sum(f) + Sum(g). */
  lemma {:induction false} SumPlus(f: int --> real, g: int --> real, h: int --> real, lo: int, hi: int)
    requires DefinedOn(f, lo, hi) && DefinedOn(g, lo, hi) && DefinedOn(h, lo, hi)
    requires forall i :: lo <= i < hi ==> h(i) == f(i) + g(i)
    ensures Sum(h, lo, hi) == Sum(f, lo, hi) + Sum(g, lo, hi)
    decreases hi - lo
  {
    if lo < hi { SumPlus(f, g, h, lo, hi - 1); }
  }

  lemma {:induction false} SumNonNegative(f: int --> real, lo: int, hi: int)
    requires DefinedOn(f, lo, hi)
    requires forall i :: lo <= i < hi ==> f(i) >= 0.0
    ensures Sum(f, lo, hi) >= 0.0
    ensures Sum(f, lo, hi) == 0.0 <==> forall i :: lo <= i < hi ==> f(i) == 0.0
    decreases hi - lo
  {
    if lo < hi { SumNonNegative(f, lo, hi - 1); }
  }

  lemma {:induction false} SumMonotone(f: int --> real, g: int --> real, lo: int, hi: int)
    requires DefinedOn(f, lo, hi) && DefinedOn(g, lo, hi)
    requires forall i :: lo <= i < hi ==> f(i) <= g(i)
    ensures Sum(f, lo, hi) <= Sum(g, lo, hi)
    decreases hi - lo
  {
    if lo < hi { SumMonotone(f, g, lo, hi - 1); }
  }

  /** A sum with a single non-zero term is that term. */
  lemma {:induction false} SumSingle(f: int --> real, lo: int, hi: int, k: int)
    requires lo <= k < hi && DefinedOn(f, lo, hi)
    requires forall i :: lo <= i < hi && i != k ==> f(i) == 0.0
    ensures Sum(f, lo, hi) == f(k)
    decreases hi - lo
  {
    if k == hi - 1 {
      SumNonNegative(f, lo, hi - 1);
    } else {
      SumSingle(f, lo, hi - 1, k);
    }
  }

  lemma {:induction false} ProdCongruent(f: int --> real, g: int --> real, lo: int, hi: int)
    requires DefinedOn(f, lo, hi) && DefinedOn(g, lo, hi)
    requires forall i :: lo <= i < hi ==> f(i) == g(i)
    ensures Prod(f, lo, hi) == Prod(g, lo, hi)
    decreases hi - lo
  {
    if lo < hi { ProdCongruent(f, g, lo, hi - 1); }
  }

  lemma {:induction false} ProdPeelLeft(f: int --> real, lo: int, hi: int)
    requires lo < hi && DefinedOn(f, lo, hi)
    ensures Prod(f, lo, hi) == f(lo) * Prod(f, lo + 1, hi)
    decreases hi - lo
  {
    if lo + 1 < hi { ProdPeelLeft(f, lo, hi - 1); }
  }

  /** A product vanishes exactly when one of its factors does. */
  lemma {:induction false} ProdZero(f: int --> real, lo: int, hi: int)
    requires DefinedOn(f, lo, hi)
    ensures Prod(f, lo, hi) == 0.0 <==> exists i :: lo <= i < hi && f(i) == 0.0
    decreases hi - lo
  {
    if lo < hi {
      ProdZero(f, lo, hi - 1);
      var p, q := Prod(f, lo, hi - 1), f(hi - 1);
      assert p * q == 0.0 <==> p == 0.0 || q == 0.0;
    }
  }
}

/** Counting arguments: the pigeonhole principle and the number of digit sequences. */
module Counting {

  function Pow(b: nat, n: nat): nat {
    if n == 0 then 1 else b * Pow(b, n - 1)
  }

  ghost predicate Distinct<T(!new)>(s: seq<T>) {
    forall i, j :: 0 <= i < j < |s| ==> s[i] != s[j]
  }

  /** Distinct numbers below m are at most m many. */
  lemma {:induction false} Pigeonhole(s: seq<nat>, m: nat)
    requires Distinct(s) && forall i :: 0 <= i < |s| ==> s[i] < m
    ensures |s| <= m
    decreases m
  {
    if s != [] {
      assert s[0] < m;
      if k :| 0 <= k < |s| && s[k] == m - 1 {
        Pigeonhole(s[..k] + s[k + 1..], m - 1);
      } else {
        Pigeonhole(s, m - 1);
      }
    }
  }

  /** The number with the given digits, least significant first. */
  function Code(digits: seq<nat>, base: nat): nat {
    if digits == [] then 0 else digits[0] + base * Code(digits[1..], base)
  }

  lemma {:induction false} CodeBound(digits: seq<nat>, base: nat)
    requires forall i :: 0 <= i < |digits| ==> digits[i] < base
    ensures Code(digits, base) < Pow(base, |digits|)
  {
    if digits != [] {
      CodeBound(digits[1..], base);
      var c, p := Code(digits[1..], base), Pow(base, |digits| - 1);
      assert Code(digits, base) == digits[0] + base * c && Pow(base, |digits|) == base * p;
      hide Code, Pow;
      MulGap(base, c, p);
    }
  }

  lemma {:induction false} CodeInjective(d: seq<nat>, e: seq<nat>, base: nat)
    requires |d| == |e| && Code(d, base) == Code(e, base)
    requires forall i :: 0 <= i < |d| ==> d[i] < base && e[i] < base
    ensures d == e
  {
    if d != [] {
      DigitsUnique(base, d[0], Code(d[1..], base), e[0], Code(e[1..], base));
      CodeInjective(d[1..], e[1..], base);
      assert d == [d[0]] + d[1..] && e == [e[0]] + e[1..];
    }
  }

  lemma {:induction false} MulSteps(base: nat, q: nat, r: nat)
    requires q < r
    ensures base * q + base <= base * r
    decreases r - q
  {
    assert base * r == base * (r - 1) + base;
    if q + 1 < r { MulSteps(base, q, r - 1); }
  }

  lemma MulGap(base: nat, q: nat, r: nat)
    ensures q < r ==> base * q + base <= base * r
    ensures r < q ==> base * r + base <= base * q
  {
    if q < r { MulSteps(base, q, r); }
    if r < q { MulSteps(base, r, q); }
  }

  lemma DigitsUnique(base: nat, a: nat, q: nat, b: nat, r: nat)
    requires a < base && b < base && a + base * q == b + base * r
    ensures a == b && q == r
  {
    MulGap(base, q, r);
  }

  /** At most base^n distinct sequences of n digits. */
  lemma DistinctDigitSequences(ds: seq<seq<nat>>, base: nat, n: nat)
    requires Distinct(ds)
    requires forall k :: 0 <= k < |ds| ==> |ds[k]| == n && forall i :: 0 <= i < n ==> ds[k][i] < base
    ensures |ds| <= Pow(base, n)
  {
    var codes := seq(|ds|, k requires 0 <= k < |ds| => Code(ds[k], base));
    forall k | 0 <= k < |ds| ensures codes[k] < Pow(base, n) { CodeBound(ds[k], base); }
    forall i, j | 0 <= i < j < |ds| ensures codes[i] != codes[j] {
      if codes[i] == codes[j] { CodeInjective(ds[i], ds[j], base); }
    }
    Pigeonhole(codes, Pow(base, n));
  }
}

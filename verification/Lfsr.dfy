/**
 The feedback shift register of information_security/crypto/endec/src/stream/lfsr.rs.
 A u128 is its 128 bits, bit 0 first.
 */
module Lfsr {
  import opened Counting

  type Word = w: seq<bool> | |w| == 128 witness seq(128, _ => false)

  function Shr(w: Word, k: nat): Word {
    seq(128, i requires 0 <= i < 128 => i + k < 128 && w[i + k])
  }

  function Shl(w: Word, k: nat): Word {
    seq(128, i requires 0 <= i < 128 => i >= k && w[i - k])
  }

  function Xor(v: Word, w: Word): Word {
    seq(128, i requires 0 <= i < 128 => v[i] != w[i])
  }

  function Or(v: Word, w: Word): Word {
    seq(128, i requires 0 <= i < 128 => v[i] || w[i])
  }

  function And(v: Word, w: Word): Word {
    seq(128, i requires 0 <= i < 128 => v[i] && w[i])
  }

  const ONE: Word := seq(128, i => i == 0)

  ghost predicate NonZero(w: Word) {
    exists i :: 0 <= i < 128 && w[i]
  }

  /** The const parameters of the register and the compile-time assertions on them. */
  datatype Taps = Taps(n: nat, a: nat, b: nat, c: nat) {
    predicate Valid() {
      128 > n > a > b > c > 0
    }
  }

  /** The bit that one tact produces. */
  function Feedback(t: Taps, r: Word): bool
    requires t.Valid()
  {
    r[t.n] != (r[t.a] != (r[t.b] != (r[t.c] != r[0])))
  }

  /** The register after one tact, bit by bit. */
  function Next(t: Taps, r: Word): Word
    requires t.Valid()
  {
    seq(128, i requires 0 <= i < 128 => (i < 127 && r[i + 1]) || (i == t.n && Feedback(t, r)))
  }

  class LFSR {
    const taps: Taps
    var register: Word

    constructor (taps: Taps, start: Word)
      requires taps.Valid() && NonZero(start)
      ensures this.taps == taps && register == start
    {
      this.taps := taps;
      register := start;
    }

    method Tact() returns (bit: bool)
      requires taps.Valid()
      modifies this
      ensures register == Next(taps, old(register)) && bit == Feedback(taps, old(register))
    {
      var taken := Xor(Xor(Xor(Xor(Shr(register, taps.n), Shr(register, taps.a)), Shr(register, taps.b)),
                           Shr(register, taps.c)), register);
      var low := And(taken, ONE);
      assert low[0] == Feedback(taps, register) && forall i :: 0 < i < 128 ==> !low[i];
      ghost var before := register;
      register := Or(Shr(register, 1), Shl(low, taps.n));
      assert register == Next(taps, before);
      bit := low == ONE;
      assert low[0] ==> low == ONE;
    }
  }

  function RunRec(t: Taps, r: Word, k: nat): Word
    requires t.Valid()
  {
    if k == 0 then r else Next(t, RunRec(t, r, k - 1))
  }

  /** The register after k tacts. */
  function Run(t: Taps, r: Word, k: nat): Word
    requires t.Valid()
  {
    RunRec(t, r, k)
  }

  lemma RunStart(t: Taps, r: Word)
    requires t.Valid()
    ensures Run(t, r, 0) == r
  {
  }

  lemma RunStep(t: Taps, r: Word, k: nat)
    requires t.Valid()
    ensures Run(t, r, k + 1) == Next(t, Run(t, r, k))
  {
  }

  // ----- Never zero, injective, periodic

  lemma NextNonZero(t: Taps, r: Word)
    requires t.Valid() && NonZero(r)
    ensures NonZero(Next(t, r))
  {
    var i :| 0 <= i < 128 && r[i];
    var next := Next(t, r);
    if k :| 1 <= k < 128 && r[k] {
      assert next[k - 1];
    } else {
      assert i == 0 && Feedback(t, r);
      assert next[t.n];
    }
  }

  /** From any start other than zero the register never becomes zero. */
  lemma {:induction false} NeverZero(t: Taps, r: Word, k: nat)
    requires t.Valid() && NonZero(r)
    ensures NonZero(Run(t, r, k))
  {
    if k > 0 {
      NeverZero(t, r, k - 1);
      NextNonZero(t, Run(t, r, k - 1));
    }
  }

  /** No bit above bit n: a state below 2^(n+1). */
  ghost predicate Clean(t: Taps, r: Word) {
    forall i :: t.n < i < 128 ==> !r[i]
  }

  lemma NextInjective(t: Taps, r: Word, s: Word)
    requires t.Valid() && Clean(t, r) && Clean(t, s) && Next(t, r) == Next(t, s)
    ensures r == s
  {
    forall i | 1 <= i < 128 ensures r[i] == s[i] {
      if i <= t.n {
        assert Next(t, r)[i - 1] == r[i] && Next(t, s)[i - 1] == s[i];
      }
    }
    assert Next(t, r)[t.n] == Feedback(t, r) && Next(t, s)[t.n] == Feedback(t, s);
  }

  lemma {:induction false} RunClean(t: Taps, r: Word, k: nat)
    requires t.Valid() && Clean(t, r)
    ensures Clean(t, Run(t, r, k))
  {
    if k > 0 { RunClean(t, r, k - 1); }
  }

  /** Equal states at i and j step back together to the start. */
  lemma {:induction false} StepBack(t: Taps, r: Word, i: nat, j: nat)
    requires t.Valid() && Clean(t, r) && i <= j && Run(t, r, i) == Run(t, r, j)
    ensures Run(t, r, j - i) == r
    decreases i
  {
    if i > 0 {
      RunClean(t, r, i - 1);
      RunClean(t, r, j - 1);
      NextInjective(t, Run(t, r, i - 1), Run(t, r, j - 1));
      StepBack(t, r, i - 1, j - 1);
    }
  }

  function Digits(t: Taps, r: Word): seq<nat>
    requires t.Valid()
  {
    seq(t.n + 1, i requires 0 <= i <= t.n => if r[i] then 1 else 0)
  }

  lemma {:induction false} ZeroCode(d: seq<nat>)
    requires Code(d, 2) == 0
    ensures forall i :: 0 <= i < |d| ==> d[i] == 0
  {
    if d != [] { ZeroCode(d[1..]); }
  }

  /** A number from 1 to 2^(n+1) - 1 that names a clean state other than zero. */
  function StateCode(t: Taps, r: Word): nat
    requires t.Valid()
  {
    Code(Digits(t, r), 2)
  }

  lemma StateCodeRange(t: Taps, r: Word)
    requires t.Valid() && Clean(t, r) && NonZero(r)
    ensures 1 <= StateCode(t, r) < Pow(2, t.n + 1)
  {
    CodeBound(Digits(t, r), 2);
    if StateCode(t, r) == 0 {
      ZeroCode(Digits(t, r));
      forall i | 0 <= i < 128 ensures !r[i] {
        if i <= t.n { assert Digits(t, r)[i] == 0; }
      }
    }
  }

  lemma StateCodeInjective(t: Taps, r: Word, s: Word)
    requires t.Valid() && Clean(t, r) && Clean(t, s) && StateCode(t, r) == StateCode(t, s)
    ensures r == s
  {
    CodeInjective(Digits(t, r), Digits(t, s), 2);
    forall i | 0 <= i < 128 ensures r[i] == s[i] {
      if i <= t.n { assert Digits(t, r)[i] == Digits(t, s)[i]; }
    }
  }

  /** The states of a run up to its m-th repeat, if there are more of them than codes. */
  lemma Repeats(t: Taps, r: Word) returns (i: nat, j: nat)
    requires t.Valid() && Clean(t, r) && NonZero(r)
    ensures i < j < Pow(2, t.n + 1) && Run(t, r, i) == Run(t, r, j)
  {
    var m := Pow(2, t.n + 1);
    var codes := seq(m, k requires 0 <= k < m => StateCode(t, Run(t, r, k)));
    forall k | 0 <= k < m ensures 1 <= codes[k] < m {
      RunClean(t, r, k);
      NeverZero(t, r, k);
      StateCodeRange(t, Run(t, r, k));
    }
    var shifted: seq<nat> := seq(m, k requires 0 <= k < m => codes[k] - 1);
    assert !Distinct(shifted) by {
      StateCodeRange(t, r);
      if Distinct(shifted) { Pigeonhole(shifted, m - 1); }
    }
    i, j :| 0 <= i < j < |shifted| && shifted[i] == shifted[j];
    RunClean(t, r, i);
    RunClean(t, r, j);
    StateCodeInjective(t, Run(t, r, i), Run(t, r, j));
  }

  lemma {:induction false} RunPeriodic(t: Taps, r: Word, p: nat, k: nat)
    requires t.Valid() && Run(t, r, p) == r
    ensures Run(t, r, k + p) == Run(t, r, k)
  {
    if k > 0 { RunPeriodic(t, r, p, k - 1); }
  }

  /** From a clean state other than zero the run is purely periodic, with a period of at most 2^(n+1) - 1. */
  lemma PurelyPeriodic(t: Taps, r: Word) returns (p: nat)
    requires t.Valid() && Clean(t, r) && NonZero(r)
    ensures 1 <= p <= Pow(2, t.n + 1) - 1
    ensures forall k: nat :: Run(t, r, k + p) == Run(t, r, k)
  {
    var i, j := Repeats(t, r);
    p := j - i;
    StepBack(t, r, i, j);
    forall k: nat ensures Run(t, r, k + p) == Run(t, r, k) { RunPeriodic(t, r, p, k); }
  }

  // ----- From any 128-bit start

  /** After k tacts every bit above both n and 127 - k is gone. */
  lemma {:induction false} HighBitsShiftOut(t: Taps, r: Word, k: nat)
    requires t.Valid()
    ensures forall i :: 0 <= i < 128 && i > t.n && i > 127 - k ==> !Run(t, r, k)[i]
  {
    if k > 0 {
      HighBitsShiftOut(t, r, k - 1);
      RunStep(t, r, k - 1);
      hide Run;
      forall i | 0 <= i < 128 && i > t.n && i > 127 - k ensures !Run(t, r, k)[i] {
        assert i < 127 ==> !Run(t, r, k - 1)[i + 1];
      }
    }
  }

  /** After 127 - n tacts all bits above n are gone, and stay gone. */
  lemma EventuallyClean(t: Taps, r: Word, k: nat)
    requires t.Valid() && k >= 127 - t.n
    ensures Clean(t, Run(t, r, k))
  {
    HighBitsShiftOut(t, r, k);
  }

  /** The stream of low bits of a run. */
  function Low(t: Taps, r: Word, k: nat): bool
    requires t.Valid()
  {
    Run(t, r, k)[0]
  }

  /** In a clean run the register is a window on the stream of low bits. */
  lemma {:induction false} RegisterIsWindow(t: Taps, r: Word, k: nat, i: nat)
    requires t.Valid() && k >= 127 - t.n && i <= t.n
    ensures Run(t, r, k)[i] == Low(t, r, k + i)
    decreases i
  {
    if i > 0 {
      RegisterIsWindow(t, r, k + 1, i - 1);
      assert Run(t, r, k + 1)[i - 1] == Run(t, r, k)[i];
    }
  }

  lemma ProducedBit(t: Taps, r: Word, k: nat)
    requires t.Valid() && k >= 127 - t.n
    ensures Run(t, r, k + 1)[t.n] == Feedback(t, Run(t, r, k))
  {
    EventuallyClean(t, r, k);
  }

  /** Once clean, the produced bits obey the linear recurrence of the taps. */
  lemma Recurrence(t: Taps, r: Word, k: nat)
    requires t.Valid() && k >= 127 - t.n
    ensures Low(t, r, k + t.n + 1) == Feedback(t, Run(t, r, k))
    ensures Low(t, r, k + t.n + 1)
         == (Low(t, r, k + t.n) != (Low(t, r, k + t.a) != (Low(t, r, k + t.b) != (Low(t, r, k + t.c) != Low(t, r, k)))))
  {
    hide Run, Next, Low;
    ProducedBit(t, r, k);
    RegisterIsWindow(t, r, k, 0);
    RegisterIsWindow(t, r, k + 1, t.n);
    RegisterIsWindow(t, r, k, t.n);
    RegisterIsWindow(t, r, k, t.a);
    RegisterIsWindow(t, r, k, t.b);
    RegisterIsWindow(t, r, k, t.c);
  }
}

/**
 The first byte of the keystream of information_security/crypto/endec/src/stream/mod.rs, traced back to the bits of
 the start values: which of them each key bit depends on, and what it is.
 */
module KeyStream {
  import opened Counting
  import opened Lfsr
  import opened StreamCipher

  // ----- The register in terms of its start value

  /** A bit that no feedback has reached has only been shifted. */
  lemma {:induction false} OnlyShifted(t: Taps, r: Word, k: nat, i: nat)
    requires t.Valid() && i + k < 128 && (i + k <= t.n || i > t.n)
    ensures Run(t, r, k)[i] == r[i + k]
    decreases k
  {
    RunStart(t, r);
    if k > 0 {
      hide Run, Feedback;
      OnlyShifted(t, r, k - 1, i + 1);
      RunStep(t, r, k - 1);
    }
  }

  /** Bit n after k tacts, from the bits of the start value. */
  function TopBit(t: Taps, r: Word, k: nat): bool
    requires t.Valid() && t.n + k < 128 && t.a + k <= t.n + 1
  {
    if k == 0 then r[t.n]
    else r[t.n + k] || (TopBit(t, r, k - 1) != (r[t.a + k - 1] != (r[t.b + k - 1] != (r[t.c + k - 1] != r[k - 1]))))
  }

  lemma {:induction false} TopBitRuns(t: Taps, r: Word, k: nat)
    requires t.Valid() && t.n + k < 128 && t.a + k <= t.n + 1
    ensures Run(t, r, k)[t.n] == TopBit(t, r, k)
  {
    RunStart(t, r);
    if k > 0 {
      hide Run;
      TopBitRuns(t, r, k - 1);
      RunStep(t, r, k - 1);
      OnlyShifted(t, r, k - 1, t.n + 1);
      OnlyShifted(t, r, k - 1, t.a);
      OnlyShifted(t, r, k - 1, t.b);
      OnlyShifted(t, r, k - 1, t.c);
      OnlyShifted(t, r, k - 1, 0);
    }
  }

  /** A bit below n was bit n as many tacts ago as it is below. */
  lemma {:induction false} WasTop(t: Taps, r: Word, k: nat, i: nat)
    requires t.Valid() && i <= t.n && k >= t.n - i
    ensures Run(t, r, k)[i] == Run(t, r, k - (t.n - i))[t.n]
    decreases t.n - i
  {
    if i < t.n {
      hide Run, Feedback;
      RunStep(t, r, k - 1);
      WasTop(t, r, k - 1, i + 1);
    }
  }

  /** Bit j of the first key byte, from the bits of the start values v and w of the two registers. */
  lemma FirstByteBit(v: Word, w: Word, j: nat)
    requires j < 8
    ensures KeyByte(v, w, 0)[j]
         == ((TopBit(T1, v, j + 1) && TopBit(T2, w, 3 * j + 2))
             != (v[j + 4] && if j < 4 then w[3 * j + 44] else TopBit(T2, w, 3 * j - 9)))
  {
    hide Run, TopBit, KeyByte;
    KeyByteBit(v, w, 0, j);
    TopBitRuns(T1, v, j + 1);
    OnlyShifted(T1, v, j + 1, 3);
    WasTop(T2, w, 3 * j + 3, 52);
    TopBitRuns(T2, w, 3 * j + 2);
    if j < 4 {
      OnlyShifted(T2, w, 3 * j + 3, 41);
    } else {
      WasTop(T2, w, 3 * j + 3, 41);
      TopBitRuns(T2, w, 3 * j - 9);
    }
  }

  // ----- The bits of the start values

  lemma {:induction false} BitsOfSum(p: nat, q: nat, k: nat, w: nat)
    requires p < Pow(2, k)
    ensures Bits(p + Pow(2, k) * q, k + w) == Bits(p, k) + Bits(q, w)
    decreases k
  {
    if k > 0 {
      var n, m := p + Pow(2, k) * q, Pow(2, k - 1) * q;
      assert Pow(2, k) * q == 2 * m;
      assert n % 2 == p % 2 && n / 2 == p / 2 + m;
      BitsOfSum(p / 2, q, k - 1, w);
    }
  }

  /** The same sixteen bits m times. */
  function Repeated(p: nat, m: nat): nat {
    if m == 0 then 0 else p + 65536 * Repeated(p, m - 1)
  }

  lemma {:induction false} BitsRepeat(p: nat, m: nat, i: nat)
    requires p < 65536 && i < 16 * m
    ensures Bits(Repeated(p, m), 16 * m)[i] == Bits(p, 16)[i % 16]
  {
    hide Bits, Pow;
    Powers();
    BitsOfSum(p, Repeated(p, m - 1), 16, 16 * (m - 1));
    if i >= 16 { BitsRepeat(p, m - 1, i - 16); }
  }

  lemma Powers()
    ensures Pow(2, 0) == 1 && Pow(2, 1) == 2 && Pow(2, 2) == 4 && Pow(2, 3) == 8 && Pow(2, 4) == 16 && Pow(2, 5) == 32
    ensures Pow(2, 6) == 64 && Pow(2, 7) == 128 && Pow(2, 8) == 256 && Pow(2, 9) == 512 && Pow(2, 10) == 1024 && Pow(2, 11) == 2048
    ensures Pow(2, 12) == 4096 && Pow(2, 13) == 8192 && Pow(2, 14) == 16384 && Pow(2, 15) == 32768 && Pow(2, 16) == 65536
  {
    assert Pow(2, 3) == 8;
    assert Pow(2, 6) == 64;
    assert Pow(2, 9) == 512;
    assert Pow(2, 12) == 4096;
    assert Pow(2, 15) == 32768;
  }

  /** Bit i of a number. */
  predicate BitOf(n: nat, i: nat) {
    if i == 0 then n % 2 == 1 else BitOf(n / 2, i - 1)
  }

  lemma {:induction false} BitsAt(n: nat, w: nat, i: nat)
    requires i < w
    ensures Bits(n, w)[i] == BitOf(n, i)
  {
    if i > 0 { BitsAt(n / 2, w - 1, i - 1); }
  }

  lemma SkipFour(n: nat, i: nat)
    ensures BitOf(n, i + 4) == BitOf(n / 16, i)
  {
    assert BitOf(n, i + 4) == BitOf(n / 2, i + 3);
    assert BitOf(n / 2, i + 3) == BitOf(n / 4, i + 2);
    assert BitOf(n / 4, i + 2) == BitOf(n / 8, i + 1);
    assert BitOf(n / 8, i + 1) == BitOf(n / 16, i);
  }

  lemma LowBits(n: nat)
    ensures BitOf(n, 0) == (n % 2 == 1) && BitOf(n, 1) == (n / 2 % 2 == 1)
    ensures BitOf(n, 2) == (n / 4 % 2 == 1) && BitOf(n, 3) == (n / 8 % 2 == 1)
  {
    hide BitOf;
    LowBit(n, 0);
    LowBit(n, 1);
    LowBit(n, 2);
    LowBit(n / 2, 0);
    LowBit(n / 2, 1);
    LowBit(n / 2 / 2, 0);
    LowBit(n / 2 / 2 / 2, 0);
    Halves(n);
  }

  lemma LowBit(n: nat, i: nat)
    ensures BitOf(n, 0) == (n % 2 == 1) && BitOf(n, i + 1) == BitOf(n / 2, i)
  {
  }

  lemma Halves(n: nat)
    ensures n / 2 / 2 == n / 4 && n / 2 / 2 / 2 == n / 8
  {
  }

  /** n without its k lowest hexadecimal digits. */
  function WithoutDigits(n: nat, k: nat): nat {
    if k == 0 then n else WithoutDigits(n / 16, k - 1)
  }

  lemma {:induction false} SkipDigits(n: nat, k: nat, i: nat)
    ensures BitOf(n, 4 * k + i) == BitOf(WithoutDigits(n, k), i)
  {
    if k > 0 {
      hide BitOf;
      SkipFour(n, 4 * (k - 1) + i);
      SkipDigits(n / 16, k - 1, i);
    }
  }

  /** The bits of hexadecimal digit k, where m begins. */
  lemma DigitBits(n: nat, k: nat, m: nat)
    requires WithoutDigits(n, k) == m
    ensures BitOf(n, 4 * k) == (m % 2 == 1) && BitOf(n, 4 * k + 1) == (m / 2 % 2 == 1)
    ensures BitOf(n, 4 * k + 2) == (m / 4 % 2 == 1) && BitOf(n, 4 * k + 3) == (m / 8 % 2 == 1)
  {
    hide BitOf, WithoutDigits;
    LowBits(m);
    SkipDigits(n, k, 0);
    SkipDigits(n, k, 1);
    SkipDigits(n, k, 2);
    SkipDigits(n, k, 3);
  }

  lemma StartsRepeat()
    ensures Repeated(0xABBA, 8) == 0xABBAABBAABBAABBAABBAABBAABBAABBA && Repeated(0xDEAD, 8) == 0xDEADDEADDEADDEADDEADDEADDEADDEAD
  {
    assert Repeated(0xABBA, 4) == 0xABBAABBAABBAABBA && Repeated(0xDEAD, 4) == 0xDEADDEADDEADDEAD;
  }

  /** Both start values repeat sixteen bits. */
  lemma StartBits(i: nat)
    requires i < 128
    ensures Start1()[i] == BitOf(0xABBA, i % 16) && Start2()[i] == BitOf(0xDEAD, i % 16)
  {
    hide Bits, BitOf;
    StartsRepeat();
    BitsRepeat(0xABBA, 8, i);
    BitsRepeat(0xDEAD, 8, i);
    BitsAt(0xABBA, 16, i % 16);
    BitsAt(0xDEAD, 16, i % 16);
  }

  lemma BitValues()
    ensures !BitOf(0xABBA, 0) && BitOf(0xABBA, 1) && !BitOf(0xABBA, 2) && BitOf(0xABBA, 3) && BitOf(0xABBA, 4) && BitOf(0xABBA, 5)
    ensures !BitOf(0xABBA, 6) && BitOf(0xABBA, 7) && BitOf(0xABBA, 8) && BitOf(0xABBA, 9) && !BitOf(0xABBA, 10) && BitOf(0xABBA, 11)
    ensures !BitOf(0xABBA, 12) && BitOf(0xABBA, 13) && !BitOf(0xABBA, 14) && BitOf(0xABBA, 15)
    ensures BitOf(0xDEAD, 0) && !BitOf(0xDEAD, 1) && BitOf(0xDEAD, 2) && BitOf(0xDEAD, 3) && !BitOf(0xDEAD, 4) && BitOf(0xDEAD, 5)
    ensures !BitOf(0xDEAD, 6) && BitOf(0xDEAD, 7) && !BitOf(0xDEAD, 8) && BitOf(0xDEAD, 9) && BitOf(0xDEAD, 10) && BitOf(0xDEAD, 11)
    ensures BitOf(0xDEAD, 12) && !BitOf(0xDEAD, 13) && BitOf(0xDEAD, 14) && BitOf(0xDEAD, 15)
  {
    hide BitOf;
    DigitBits(0xABBA, 0, 0xABBA);
    DigitBits(0xABBA, 1, 0xABB);
    DigitBits(0xABBA, 2, 0xAB);
    DigitBits(0xABBA, 3, 0xA);
    DigitBits(0xDEAD, 0, 0xDEAD);
    DigitBits(0xDEAD, 1, 0xDEA);
    DigitBits(0xDEAD, 2, 0xDE);
    DigitBits(0xDEAD, 3, 0xD);
  }

  // ----- The first key byte

  lemma TopFirst(t: Taps, r: Word)
    requires t.Valid()
    ensures TopBit(t, r, 0) == r[t.n]
  {
  }

  lemma TopNext(t: Taps, r: Word, k: nat)
    requires t.Valid() && k >= 1 && t.n + k < 128 && t.a + k <= t.n + 1
    ensures TopBit(t, r, k)
         == (r[t.n + k] || (TopBit(t, r, k - 1) != (r[t.a + k - 1] != (r[t.b + k - 1] != (r[t.c + k - 1] != r[k - 1])))))
  {
  }

  lemma Tops1()
    ensures TopBit(T1, Start1(), 0) && !TopBit(T1, Start1(), 1) && TopBit(T1, Start1(), 2) && !TopBit(T1, Start1(), 3) && TopBit(T1, Start1(), 4)
    ensures TopBit(T1, Start1(), 5) && TopBit(T1, Start1(), 6) && TopBit(T1, Start1(), 7) && TopBit(T1, Start1(), 8)
  {
    hide TopBit, BitOf, Start1;
    BitValues();
    forall i: nat | i < 128 ensures Start1()[i] == BitOf(0xABBA, i % 16) { StartBits(i); }
    TopFirst(T1, Start1());
    TopNext(T1, Start1(), 1);
    TopNext(T1, Start1(), 2);
    TopNext(T1, Start1(), 3);
    TopNext(T1, Start1(), 4);
    TopNext(T1, Start1(), 5);
    TopNext(T1, Start1(), 6);
    TopNext(T1, Start1(), 7);
    TopNext(T1, Start1(), 8);
  }

  lemma Tops2()
    ensures TopBit(T2, Start2(), 0) && TopBit(T2, Start2(), 1) && TopBit(T2, Start2(), 2) && TopBit(T2, Start2(), 3) && TopBit(T2, Start2(), 4)
    ensures TopBit(T2, Start2(), 5) && TopBit(T2, Start2(), 6) && TopBit(T2, Start2(), 7) && TopBit(T2, Start2(), 8) && TopBit(T2, Start2(), 9)
    ensures TopBit(T2, Start2(), 10) && TopBit(T2, Start2(), 11)
  {
    hide TopBit, BitOf, Start2;
    BitValues();
    forall i: nat | i < 128 ensures Start2()[i] == BitOf(0xDEAD, i % 16) { StartBits(i); }
    TopFirst(T2, Start2());
    TopNext(T2, Start2(), 1);
    TopNext(T2, Start2(), 2);
    TopNext(T2, Start2(), 3);
    TopNext(T2, Start2(), 4);
    TopNext(T2, Start2(), 5);
    TopNext(T2, Start2(), 6);
    TopNext(T2, Start2(), 7);
    TopNext(T2, Start2(), 8);
    TopNext(T2, Start2(), 9);
    TopNext(T2, Start2(), 10);
    TopNext(T2, Start2(), 11);
  }

  lemma MoreTops2()
    ensures TopBit(T2, Start2(), 12) && TopBit(T2, Start2(), 13) && TopBit(T2, Start2(), 14) && !TopBit(T2, Start2(), 15) && TopBit(T2, Start2(), 16)
    ensures TopBit(T2, Start2(), 17) && TopBit(T2, Start2(), 18) && TopBit(T2, Start2(), 19) && TopBit(T2, Start2(), 20) && TopBit(T2, Start2(), 21)
    ensures TopBit(T2, Start2(), 22) && TopBit(T2, Start2(), 23)
  {
    hide TopBit, BitOf, Start2;
    BitValues();
    forall i: nat | i < 128 ensures Start2()[i] == BitOf(0xDEAD, i % 16) { StartBits(i); }
    Tops2();
    TopNext(T2, Start2(), 12);
    TopNext(T2, Start2(), 13);
    TopNext(T2, Start2(), 14);
    TopNext(T2, Start2(), 15);
    TopNext(T2, Start2(), 16);
    TopNext(T2, Start2(), 17);
    TopNext(T2, Start2(), 18);
    TopNext(T2, Start2(), 19);
    TopNext(T2, Start2(), 20);
    TopNext(T2, Start2(), 21);
    TopNext(T2, Start2(), 22);
    TopNext(T2, Start2(), 23);
  }

  /** The first byte of the keystream is 0x41. */
  lemma FirstKeyByte(j: nat)
    requires j < 8
    ensures KeyByte(Start1(), Start2(), 0)[j] <==> j == 0 || j == 6
  {
    hide TopBit, BitOf, Start1, Start2, KeyByte;
    FirstByteBit(Start1(), Start2(), j);
    Tops1();
    Tops2();
    MoreTops2();
    BitValues();
    StartBits(j + 4);
    StartBits(3 * j + 44);
  }
}

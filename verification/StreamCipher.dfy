/** The keystream generator and the byte loop of information_security/crypto/endec/src/stream/mod.rs. */
module StreamCipher {
  import opened Lfsr

  /** A u8 as its bits, bit 0 first. */
  type Byte = b: seq<bool> | |b| == 8 witness seq(8, _ => false)

  const T1 := Taps(77, 6, 5, 2)
  const T2 := Taps(53, 6, 2, 1)
  const F := 3

  /** The low bits of a number. */
  function Bits(n: nat, width: nat): (b: seq<bool>)
    ensures |b| == width
  {
    if width == 0 then [] else [n % 2 == 1] + Bits(n / 2, width - 1)
  }

  function Start1(): Word { Bits(0xABBAABBAABBAABBAABBAABBAABBAABBA, 128) }
  function Start2(): Word { Bits(0xDEADDEADDEADDEADDEADDEADDEADDEAD, 128) }

  lemma LowBits(n: nat, width: nat)
    requires width >= 2
    ensures Bits(n, width)[0] == (n % 2 == 1) && Bits(n, width)[1] == (n / 2 % 2 == 1)
  {
    assert Bits(n, width)[1] == Bits(n / 2, width - 1)[0];
  }

  lemma StartsNonZero()
    ensures NonZero(Start1()) && NonZero(Start2())
  {
    hide Bits;
    LowBits(0xABBAABBAABBAABBAABBAABBAABBAABBA, 128);
    LowBits(0xDEADDEADDEADDEADDEADDEADDEADDEAD, 128);
  }

  /** The bit that the two registers give together. */
  predicate Combine(v: Word, w: Word) {
    (v[77] && w[52]) != (v[3] && w[41])
  }

  function ShiftIn(b: Byte, bit: bool): Byte {
    [bit] + b[..7]
  }

  function ReverseBits(b: Byte): Byte {
    seq(8, i requires 0 <= i < 8 => b[7 - i])
  }

  function XorByte(a: Byte, b: Byte): Byte {
    seq(8, i requires 0 <= i < 8 => a[i] != b[i])
  }

  /** Byte m of the keystream from the given register states. */
  function KeyByte(v: Word, w: Word, m: nat): Byte {
    seq(8, j requires 0 <= j < 8 => Combine(Run(T1, v, 8 * m + j + 1), Run(T2, w, 24 * m + 3 * (j + 1))))
  }

  lemma {:induction false} RunAdds(t: Taps, r: Word, j: nat, k: nat)
    requires t.Valid()
    ensures Run(t, Run(t, r, j), k) == Run(t, r, j + k)
    decreases k
  {
    if k > 0 { RunAdds(t, r, j, k - 1); }
  }

  class Var {
    const l1: LFSR
    const l2: LFSR

    ghost predicate Valid() {
      l1.taps == T1 && l2.taps == T2 && l1 != l2
    }

    constructor ()
      ensures Valid() && fresh(l1) && fresh(l2)
      ensures l1.register == Start1() && l2.register == Start2()
    {
      StartsNonZero();
      l1 := new LFSR(T1, Start1());
      l2 := new LFSR(T2, Start2());
    }

    /** Eight tacts of the first register, each with three of the second, give one byte of the keystream. */
    method NextGamma() returns (gamma: Byte)
      requires Valid()
      modifies l1, l2
      ensures gamma == KeyByte(old(l1.register), old(l2.register), 0)
      ensures l1.register == Run(T1, old(l1.register), 8)
      ensures l2.register == Run(T2, old(l2.register), 24)
    {
      hide Run, Next, Feedback, KeyByte;
      ghost var v, w := l1.register, l2.register;
      RunStart(T1, v);
      RunStart(T2, w);
      gamma := seq(8, _ => false);
      for i := 0 to 8
        invariant l1.register == Run(T1, v, i) && l2.register == Run(T2, w, 3 * i)
        invariant forall j :: 0 <= j < i ==> gamma[i - 1 - j] == KeyByte(v, w, 0)[j]
      {
        RunStep(T1, v, i);
        var _ := l1.Tact();
        for k := 0 to F
          invariant l1.register == Run(T1, v, i + 1) && l2.register == Run(T2, w, 3 * i + k)
        {
          RunStep(T2, w, 3 * i + k);
          var _ := l2.Tact();
        }
        var mixed := Xor(And(Shr(l1.register, 77), Shr(l2.register, 52)), And(Shr(l1.register, 3), Shr(l2.register, 41)));
        KeyByteBit(v, w, 0, i);
        assert mixed[0] == KeyByte(v, w, 0)[i];
        gamma := ShiftIn(gamma, mixed[0]);
      }
      gamma := ReverseBits(gamma);
      assert forall j :: 0 <= j < 8 ==> gamma[j] == KeyByte(v, w, 0)[j];
    }
  }

  lemma KeyByteBit(v: Word, w: Word, m: nat, j: nat)
    requires j < 8
    ensures KeyByte(v, w, m)[j] == Combine(Run(T1, v, 8 * m + j + 1), Run(T2, w, 24 * m + 3 * (j + 1)))
  {
  }

  /** What the program writes for an input. */
  function Streamed(input: seq<Byte>): (output: seq<Byte>)
    ensures |output| == |input|
  {
    seq(|input|, m requires 0 <= m < |input| => XorByte(input[m], KeyByte(Start1(), Start2(), m)))
  }

  lemma KeyByteShifts(v: Word, w: Word, m: nat)
    ensures KeyByte(Run(T1, v, 8 * m), Run(T2, w, 24 * m), 0) == KeyByte(v, w, m)
  {
    hide Run, KeyByte, Combine;
    forall j | 0 <= j < 8
      ensures KeyByte(Run(T1, v, 8 * m), Run(T2, w, 24 * m), 0)[j] == KeyByte(v, w, m)[j]
    {
      KeyByteBit(Run(T1, v, 8 * m), Run(T2, w, 24 * m), 0, j);
      KeyByteBit(v, w, m, j);
      RunAdds(T1, v, 8 * m, j + 1);
      RunAdds(T2, w, 24 * m, 3 * (j + 1));
    }
  }

  method Stream(input: seq<Byte>) returns (output: seq<Byte>)
    ensures output == Streamed(input)
    ensures |output| == |input| && forall m, j :: 0 <= m < |input| && 0 <= j < 8 ==>
              output[m][j] == (input[m][j] != KeyByte(Start1(), Start2(), m)[j])
  {
    hide Run, KeyByte, Start1, Start2, XorByte;
    var x := new Var();
    RunStart(T1, Start1());
    RunStart(T2, Start2());
    output := [];
    for m := 0 to |input|
      invariant x.Valid() && fresh(x.l1) && fresh(x.l2)
      invariant x.l1.register == Run(T1, Start1(), 8 * m) && x.l2.register == Run(T2, Start2(), 24 * m)
      invariant output == Streamed(input)[..m]
    {
      KeyByteShifts(Start1(), Start2(), m);
      RunAdds(T1, Start1(), 8 * m, 8);
      RunAdds(T2, Start2(), 24 * m, 24);
      var gamma := x.NextGamma();
      output := output + [XorByte(input[m], gamma)];
    }
    forall m, j | 0 <= m < |input| && 0 <= j < 8
      ensures Streamed(input)[m][j] == (input[m][j] != KeyByte(Start1(), Start2(), m)[j])
    {
      StreamedBit(input, m, j);
    }
  }

  lemma StreamedBit(input: seq<Byte>, m: nat, j: nat)
    requires m < |input| && j < 8
    ensures Streamed(input)[m][j] == (input[m][j] != KeyByte(Start1(), Start2(), m)[j])
  {
    hide KeyByte, Start1, Start2;
  }

  /** Zeros are turned into the keystream itself. */
  lemma StreamOfZeros(n: nat, m: nat)
    requires m < n
    ensures Streamed(seq(n, _ => seq(8, _ => false)))[m] == KeyByte(Start1(), Start2(), m)
  {
    hide KeyByte, Start1, Start2;
  }

  /** Streaming twice, each time from a fresh generator, restores the input. */
  lemma StreamRestores(input: seq<Byte>)
    ensures Streamed(Streamed(input)) == input
  {
    hide KeyByte, Start1, Start2;
    forall m | 0 <= m < |input| ensures Streamed(Streamed(input))[m] == input[m] {
      var k := KeyByte(Start1(), Start2(), m);
      assert XorByte(XorByte(input[m], k), k) == input[m];
    }
  }

  /** The output for a prefix is a prefix of the output. */
  lemma StreamPrefix(input: seq<Byte>, n: nat)
    requires n <= |input|
    ensures Streamed(input[..n]) == Streamed(input)[..n]
  {
    hide KeyByte, Start1, Start2;
  }
}

/** The Cardan grille of information_security/crypto/endec/src/classic/cardan.rs. */
module Cardan {
  import opened Wrappers
  import opened Counting

  datatype Quarter = Closed | First | Second | Third | Fourth

  datatype Grille = Grille(topLeft: Quarter, topRight: Quarter, bottomLeft: Quarter, bottomRight: Quarter)

  /** A quarter from the three low bits of a value. */
  function QuarterOf(value: nat): (q: Quarter)
    ensures q.Closed? <==> value / 4 % 2 == 0
  {
    match value % 8
    case 4 => First
    case 5 => Second
    case 6 => Third
    case 7 => Fourth
    case _ => Closed
  }

  /** The grille of the twelve bits drawn from the key. */
  function GrilleOf(bits: nat): Grille {
    Grille(QuarterOf(bits), QuarterOf(bits / 8), QuarterOf(bits / 64), QuarterOf(bits / 512))
  }

  /** The position that a quarter opens among the four positions of its place in the grille. */
  function Opens(q: Quarter, first: nat, second: nat, third: nat, fourth: nat): (p: Option<nat>)
    ensures p.None? <==> q.Closed?
  {
    match q
    case Closed => None
    case First => Some(first)
    case Second => Some(second)
    case Third => Some(third)
    case Fourth => Some(fourth)
  }

  function TopLeft(g: Grille): Option<nat> { Opens(g.topLeft, 0, 3, 15, 12) }
  function TopRight(g: Grille): Option<nat> { Opens(g.topRight, 1, 7, 14, 8) }
  function BottomLeft(g: Grille): Option<nat> { Opens(g.bottomLeft, 4, 2, 11, 13) }
  function BottomRight(g: Grille): Option<nat> { Opens(g.bottomRight, 5, 6, 10, 9) }

  function AsSeq<T>(o: Option<T>): seq<T> {
    if o.Some? then [o.value] else []
  }

  /** The open positions in the order in which they are used. */
  function Holes(g: Grille): seq<nat> {
    AsSeq(TopLeft(g)) + AsSeq(TopRight(g)) + AsSeq(BottomLeft(g)) + AsSeq(BottomRight(g))
  }

  /** No two places of the grille share a position, so no symbol of a block overwrites another. */
  lemma HolesDisjoint(g: Grille)
    ensures |Holes(g)| <= 4
    ensures forall q :: 0 <= q < |Holes(g)| ==> Holes(g)[q] < 16
    ensures forall q, r :: 0 <= q < r < |Holes(g)| ==> Holes(g)[q] != Holes(g)[r]
  {
    PlacesDisjoint(g);
    hide TopLeft, TopRight, BottomLeft, BottomRight;
  }

  /** A grille has an open position exactly when bit 2, 5, 8 or 11 of the key is set. */
  lemma OpenIffKeyBit(bits: nat)
    ensures |Holes(GrilleOf(bits))| >= 1
       <==> bits / 4 % 2 == 1 || bits / 32 % 2 == 1 || bits / 256 % 2 == 1 || bits / 2048 % 2 == 1
  {
    assert bits / 8 / 4 == bits / 32 && bits / 64 / 4 == bits / 256 && bits / 512 / 4 == bits / 2048;
  }

  // ----- The places of the grille turn about the middle of the block

  /** A quarter turn of the block of four rows of four: row r and column c go to row c and column 3 - r. */
  function Turned(p: nat): (q: nat)
    requires p < 16
    ensures q < 16 && q / 4 == p % 4 && q % 4 == 3 - p / 4
  {
    4 * (p % 4) + (3 - p / 4)
  }

  function Turns(p: nat, k: nat): (q: nat)
    requires p < 16
    ensures q < 16
  {
    if k == 0 then p else Turned(Turns(p, k - 1))
  }

  /** Three bits of the key open a place by as many quarter turns as the lower two say, if the third is set. */
  function OpenedBy(base: nat, three: nat): Option<nat>
    requires base < 16
  {
    if three / 4 % 2 == 1 then Some(Turns(base, three % 4)) else None
  }

  lemma OpensTurned(v: nat, first: nat, second: nat, third: nat, fourth: nat)
    requires first < 16 && second == Turned(first) && third == Turned(second) && fourth == Turned(third)
    ensures Opens(QuarterOf(v), first, second, third, fourth) == OpenedBy(first, v)
  {
    assert v % 8 == 4 * (v / 4 % 2) + v % 4;
    hide Turned;
    assert Turns(first, 0) == first;
    assert Turns(first, 1) == Turned(Turns(first, 0));
    assert Turns(first, 2) == Turned(Turns(first, 1));
    assert Turns(first, 3) == Turned(Turns(first, 2));
  }

  /** The places of the grille are the upper left quarter of the block, turned as the key says. */
  lemma HolesAreTurns(bits: nat)
    ensures TopLeft(GrilleOf(bits)) == OpenedBy(0, bits) && TopRight(GrilleOf(bits)) == OpenedBy(1, bits / 8)
    ensures BottomLeft(GrilleOf(bits)) == OpenedBy(4, bits / 64) && BottomRight(GrilleOf(bits)) == OpenedBy(5, bits / 512)
    ensures Holes(GrilleOf(bits))
         == AsSeq(OpenedBy(0, bits)) + AsSeq(OpenedBy(1, bits / 8)) + AsSeq(OpenedBy(4, bits / 64)) + AsSeq(OpenedBy(5, bits / 512))
  {
    hide Opens, QuarterOf, OpenedBy;
    OpensTurned(bits, 0, 3, 15, 12);
    OpensTurned(bits / 8, 1, 7, 14, 8);
    OpensTurned(bits / 64, 4, 2, 11, 13);
    OpensTurned(bits / 512, 5, 6, 10, 9);
  }

  /** The quarters of the block, counted in the direction of the turns from the upper left one. */
  function QuarterAt(p: nat): nat {
    if p / 4 < 2 then (if p % 4 < 2 then 0 else 1) else (if p % 4 < 2 then 3 else 2)
  }

  lemma TurnMoves(p: nat, q: nat)
    requires p < 16 && q < 16
    ensures QuarterAt(Turned(p)) == (QuarterAt(p) + 1) % 4
    ensures Turned(p) == Turned(q) ==> p == q
    ensures Turned(Turned(Turned(Turned(p)))) == p
  {
  }

  lemma {:induction false} TurnsMove(p: nat, k: nat)
    requires p < 16 && QuarterAt(p) == 0 && k < 4
    ensures QuarterAt(Turns(p, k)) == k
  {
    hide QuarterAt, Turned;
    if k > 0 {
      TurnsMove(p, k - 1);
      TurnMoves(Turns(p, k - 1), 0);
    }
  }

  lemma {:induction false} TurnsInjective(p: nat, q: nat, k: nat)
    requires p < 16 && q < 16 && Turns(p, k) == Turns(q, k)
    ensures p == q
  {
    hide Turned;
    if k > 0 {
      TurnMoves(Turns(p, k - 1), Turns(q, k - 1));
      TurnsInjective(p, q, k - 1);
    }
  }

  /** The turns of different positions of the upper left quarter never meet. */
  lemma TurnsDistinct(b: nat, k: nat, c: nat, l: nat)
    requires b < 16 && c < 16 && QuarterAt(b) == 0 && QuarterAt(c) == 0 && k < 4 && l < 4 && Turns(b, k) == Turns(c, l)
    ensures b == c && k == l
  {
    hide QuarterAt, Turned, Turns;
    TurnsMove(b, k);
    TurnsMove(c, l);
    TurnsInjective(b, c, k);
  }

  /** Every position of the block is a turn of one of them. */
  lemma TurnsCover(p: nat) returns (b: nat)
    requires p < 16
    ensures b < 16 && QuarterAt(b) == 0 && QuarterAt(p) < 4 && Turns(b, QuarterAt(p)) == p
  {
    var k := QuarterAt(p);
    var p1, p2, p3 := Turned(p), Turned(Turned(p)), Turned(Turned(Turned(p)));
    TurnMoves(p, 0);
    TurnMoves(p1, 0);
    TurnMoves(p2, 0);
    TurnMoves(p3, 0);
    b := if k == 0 then p else if k == 1 then p3 else if k == 2 then p2 else p1;
    assert QuarterAt(b) == 0;
    hide QuarterAt, Turned;
    assert Turns(b, 0) == b;
    assert Turns(b, 1) == Turned(Turns(b, 0));
    assert Turns(b, 2) == Turned(Turns(b, 1));
    assert Turns(b, 3) == Turned(Turns(b, 2));
  }

  class Chars {
    const text: seq<char>
    var pos: nat

    ghost predicate Valid()
      reads this
    {
      pos <= |text|
    }

    constructor (text: seq<char>)
      ensures this.text == text && pos == 0 && Valid()
    {
      this.text := text;
      pos := 0;
    }

    method Next() returns (c: Option<char>)
      requires Valid()
      modifies this
      ensures Valid()
      ensures old(pos) < |text| ==> pos == old(pos) + 1 && c == Some(text[old(pos)])
      ensures old(pos) == |text| ==> pos == old(pos) && c == None
    {
      if pos < |text| {
        c := Some(text[pos]);
        pos := pos + 1;
      } else {
        c := None;
      }
    }
  }

  /** Any symbol at all. */
  method RandomSymbol() returns (c: char) {
    c := *;
  }

  /** The holes hs of the block hold the symbols of the text from position start on, as far as they go. */
  ghost predicate Carries(block: seq<Option<char>>, hs: seq<nat>, text: seq<char>, start: nat) {
    forall q :: 0 <= q < |hs| ==>
      hs[q] < |block| && block[hs[q]] == if start + q < |text| then Some(text[start + q]) else None
  }

  function Min(a: nat, b: nat): nat {
    if a < b then a else b
  }

  /** One more hole receives the next symbol. */
  method Put(block: array<Option<char>>, hole: Option<nat>, chars: Chars, ghost done: seq<nat>, ghost start: nat)
    requires block.Length == 16 && chars.Valid() && start <= |chars.text|
    requires hole.Some? ==> hole.value < 16 && hole.value !in done
    requires Carries(block[..], done, chars.text, start) && chars.pos == Min(start + |done|, |chars.text|)
    modifies block, chars
    ensures chars.Valid()
    ensures Carries(block[..], done + AsSeq(hole), chars.text, start)
    ensures chars.pos == Min(start + |done + AsSeq(hole)|, |chars.text|)
  {
    if hole.Some? {
      var c := chars.Next();
      block[hole.value] := c;
    }
  }

  lemma PlacesDisjoint(g: Grille)
    ensures TopLeft(g).Some? ==> TopLeft(g).value < 16
    ensures TopRight(g).Some? ==> TopRight(g).value < 16 && TopRight(g).value !in AsSeq(TopLeft(g))
    ensures BottomLeft(g).Some? ==>
              BottomLeft(g).value < 16 && BottomLeft(g).value !in AsSeq(TopLeft(g)) + AsSeq(TopRight(g))
    ensures BottomRight(g).Some? ==>
              BottomRight(g).value < 16
              && BottomRight(g).value !in AsSeq(TopLeft(g)) + AsSeq(TopRight(g)) + AsSeq(BottomLeft(g))
  {
  }

  /** The next symbols of the text go into the open positions of an empty block. */
  method Fill(g: Grille, chars: Chars) returns (slots: array<Option<char>>)
    requires chars.Valid()
    modifies chars
    ensures fresh(slots) && slots.Length == 16
    ensures chars.Valid() && chars.pos == Min(old(chars.pos) + |Holes(g)|, |chars.text|)
    ensures Carries(slots[..], Holes(g), chars.text, old(chars.pos))
  {
    PlacesDisjoint(g);
    hide Carries, TopLeft, TopRight, BottomLeft, BottomRight;
    ghost var start := chars.pos;
    slots := new Option<char>[16](_ => None);
    ghost var d1 := AsSeq(TopLeft(g));
    ghost var d2 := d1 + AsSeq(TopRight(g));
    ghost var d3 := d2 + AsSeq(BottomLeft(g));
    NothingCarried(slots[..], chars.text, start);
    Put(slots, TopLeft(g), chars, [], start);
    assert [] + AsSeq(TopLeft(g)) == d1;
    Put(slots, TopRight(g), chars, d1, start);
    Put(slots, BottomLeft(g), chars, d2, start);
    Put(slots, BottomRight(g), chars, d3, start);
  }

  lemma NothingCarried(block: seq<Option<char>>, text: seq<char>, start: nat)
    ensures Carries(block, [], text, start)
  {
  }

  /** Whatever stayed empty is covered by random symbols. */
  method Cover(slots: array<Option<char>>) returns (block: seq<char>)
    requires slots.Length == 16
    ensures |block| == 16 && forall k :: 0 <= k < 16 && slots[k].Some? ==> block[k] == slots[k].value
  {
    block := [];
    for i := 0 to 16
      invariant |block| == i && forall k :: 0 <= k < i && slots[k].Some? ==> block[k] == slots[k].value
    {
      var r := RandomSymbol();
      block := block + [if slots[i].Some? then slots[i].value else r];
    }
  }

  method CypherBlock(g: Grille, chars: Chars) returns (block: seq<char>)
    requires chars.Valid()
    modifies chars
    ensures chars.Valid() && chars.pos == Min(old(chars.pos) + |Holes(g)|, |chars.text|)
    ensures |block| == 16
    ensures forall q :: 0 <= q < |Holes(g)| && old(chars.pos) + q < |chars.text| ==>
              Holes(g)[q] < 16 && block[Holes(g)[q]] == chars.text[old(chars.pos) + q]
  {
    hide Holes;
    ghost var start := chars.pos;
    var slots := Fill(g, chars);
    block := Cover(slots);
    forall q | 0 <= q < |Holes(g)| && start + q < |chars.text|
      ensures Holes(g)[q] < 16 && block[Holes(g)[q]] == chars.text[start + q]
    {
      assert slots[..][Holes(g)[q]] == Some(chars.text[start + q]);
    }
  }

  function Part(block: seq<char>, hole: Option<nat>): seq<char>
    requires |block| == 16 && (hole.Some? ==> hole.value < 16)
  {
    if hole.Some? then [block[hole.value]] else []
  }

  /** s holds the symbols of the block at the positions hs. */
  ghost predicate Reveals(block: seq<char>, hs: seq<nat>, s: seq<char>)
    requires |block| == 16
  {
    |s| == |hs| && forall q :: 0 <= q < |hs| ==> hs[q] < 16 && s[q] == block[hs[q]]
  }

  lemma RevealsMore(block: seq<char>, hs: seq<nat>, s: seq<char>, hole: Option<nat>)
    requires |block| == 16 && Reveals(block, hs, s) && (hole.Some? ==> hole.value < 16)
    ensures Reveals(block, hs + AsSeq(hole), s + Part(block, hole))
  {
  }

  lemma PartsReveal(g: Grille, block: seq<char>)
    requires |block| == 16
    ensures (TopLeft(g).Some? ==> TopLeft(g).value < 16) && (TopRight(g).Some? ==> TopRight(g).value < 16)
    ensures (BottomLeft(g).Some? ==> BottomLeft(g).value < 16) && (BottomRight(g).Some? ==> BottomRight(g).value < 16)
    ensures Reveals(block, Holes(g),
                    Part(block, TopLeft(g)) + Part(block, TopRight(g)) + Part(block, BottomLeft(g)) + Part(block, BottomRight(g)))
  {
    PlacesDisjoint(g);
    hide TopLeft, TopRight, BottomLeft, BottomRight, Part, AsSeq;
    assert Reveals(block, [], []);
    RevealsMore(block, [], [], TopLeft(g));
    assert [] + AsSeq(TopLeft(g)) == AsSeq(TopLeft(g)) && [] + Part(block, TopLeft(g)) == Part(block, TopLeft(g));
    RevealsMore(block, AsSeq(TopLeft(g)), Part(block, TopLeft(g)), TopRight(g));
    RevealsMore(block, AsSeq(TopLeft(g)) + AsSeq(TopRight(g)), Part(block, TopLeft(g)) + Part(block, TopRight(g)), BottomLeft(g));
    RevealsMore(block, AsSeq(TopLeft(g)) + AsSeq(TopRight(g)) + AsSeq(BottomLeft(g)),
                Part(block, TopLeft(g)) + Part(block, TopRight(g)) + Part(block, BottomLeft(g)), BottomRight(g));
  }

  function DecypherBlock(g: Grille, block: seq<char>): (s: seq<char>)
    requires |block| == 16
    ensures |s| == |Holes(g)|
    ensures forall q :: 0 <= q < |s| ==> Holes(g)[q] < 16 && s[q] == block[Holes(g)[q]]
  {
    PartsReveal(g, block);
    Part(block, TopLeft(g)) + Part(block, TopRight(g)) + Part(block, BottomLeft(g)) + Part(block, BottomRight(g))
  }

  // ----- Whole messages

  /** The number of blocks for n symbols, h at a time. */
  function Blocks(n: nat, h: nat): (b: nat)
    ensures h >= 1 ==> b * h >= n && (b >= 1 ==> (b - 1) * h < n)
  {
    if h == 0 || n == 0 then 0 else (n - 1) / h + 1
  }

  lemma BlocksUnique(n: nat, h: nat, k: nat)
    requires h >= 1 && k * h >= n && (k >= 1 ==> (k - 1) * h < n)
    ensures k == Blocks(n, h)
  {
    var b := Blocks(n, h);
    if k < b {
      MulSteps(h, k, b);
    } else if b < k {
      MulSteps(h, b, k);
    }
  }

  /** Symbol b*h + q of the message stands in hole q of block b of the code. */
  ghost predicate BlockEncodes(g: Grille, message: seq<char>, code: seq<char>, b: nat) {
    && 16 * b + 16 <= |code|
    && forall q :: 0 <= q < |Holes(g)| && b * |Holes(g)| + q < |message| ==>
         Holes(g)[q] < 16 && code[16 * b + Holes(g)[q]] == message[b * |Holes(g)| + q]
  }

  ghost predicate Encodes(g: Grille, message: seq<char>, code: seq<char>) {
    && |code| == 16 * Blocks(|message|, |Holes(g)|)
    && forall b :: 0 <= b < Blocks(|message|, |Holes(g)|) ==> BlockEncodes(g, message, code, b)
  }

  /** With no hole open the program never returns on a message that is not empty. */
  method Encode(message: seq<char>, g: Grille) returns (code: seq<char>)
    requires |Holes(g)| >= 1 || message == []
    ensures Encodes(g, message, code)
  {
    hide Holes;
    ghost var h, n := |Holes(g)|, |message|;
    var chars := new Chars(message);
    code := [];
    ghost var k := 0;
    while chars.pos < |message|
      invariant fresh(chars) && chars.text == message && chars.Valid() && chars.pos == Min(k * h, n)
      invariant chars.pos == After(h, n, k)
      invariant |code| == 16 * k && (k >= 1 ==> (k - 1) * h < n)
      invariant forall b :: 0 <= b < k ==> BlockEncodes(g, message, code, b)
      decreases n - chars.pos
    {
      var block := CypherBlock(g, chars);
      ghost var before := code;
      code := code + block;
      forall b | 0 <= b < k ensures BlockEncodes(g, message, code, b) { KeepsBlock(g, message, before, block, b); }
      assert BlockEncodes(g, message, code, k);
      assert (k + 1) * h == k * h + h;
      k := k + 1;
    }
    if h >= 1 { BlocksUnique(n, h, k); }
  }

  lemma KeepsBlock(g: Grille, message: seq<char>, code: seq<char>, block: seq<char>, b: nat)
    requires BlockEncodes(g, message, code, b)
    ensures BlockEncodes(g, message, code + block, b)
  {
    hide Holes;
  }

  /** What hole q of block b of the code shows is symbol b*h + q of the text, as far as the code goes. */
  ghost predicate BlockDecodes(g: Grille, code: seq<char>, text: seq<char>, b: nat) {
    && b * |Holes(g)| + |Holes(g)| <= |text|
    && forall q :: 0 <= q < |Holes(g)| && 16 * b + Holes(g)[q] < |code| ==>
         text[b * |Holes(g)| + q] == code[16 * b + Holes(g)[q]]
  }

  ghost predicate Decodes(g: Grille, code: seq<char>, text: seq<char>) {
    && |text| == (|code| / 16 + 1) * |Holes(g)|
    && forall b :: 0 <= b <= |code| / 16 ==> BlockDecodes(g, code, text, b)
  }

  method Decode(code: seq<char>, g: Grille) returns (text: seq<char>)
    ensures Decodes(g, code, text)
  {
    hide Holes, BlockDecodes, Shows, DecypherBlock;
    ghost var h := |Holes(g)|;
    var chunks := |code| / 16;
    text := [];
    for b := 0 to chunks
      invariant |text| == b * h && forall c :: 0 <= c < b ==> BlockDecodes(g, code, text, c)
    {
      var block := code[16 * b..16 * b + 16];
      var shown := DecypherBlock(g, block);
      ShowsBlock(g, code, block, b);
      Append(g, code, text, shown, b);
      text := text + shown;
    }
    var block := code[16 * chunks..];
    while |block| < 16
      invariant |code| - 16 * chunks <= |block| <= 16 && code[16 * chunks..] <= block
    {
      var r := RandomSymbol();
      block := block + [r];
    }
    var shown := DecypherBlock(g, block);
    ShowsBlock(g, code, block, chunks);
    Append(g, code, text, shown, chunks);
    text := text + shown;
  }

  /** What the holes show of block b, as far as the code goes. */
  ghost predicate Shows(g: Grille, code: seq<char>, shown: seq<char>, b: nat) {
    |shown| == |Holes(g)| && forall q :: 0 <= q < |Holes(g)| && 16 * b + Holes(g)[q] < |code| ==> shown[q] == code[16 * b + Holes(g)[q]]
  }

  lemma ShowsBlock(g: Grille, code: seq<char>, block: seq<char>, b: nat)
    requires |block| == 16 && forall j :: 0 <= j < 16 && 16 * b + j < |code| ==> block[j] == code[16 * b + j]
    ensures Shows(g, code, DecypherBlock(g, block), b)
  {
    hide Holes;
  }

  lemma Append(g: Grille, code: seq<char>, text: seq<char>, shown: seq<char>, b: nat)
    requires |text| == b * |Holes(g)| && |shown| == |Holes(g)|
    requires forall c :: 0 <= c < b ==> BlockDecodes(g, code, text, c)
    requires Shows(g, code, shown, b)
    ensures |text + shown| == (b + 1) * |Holes(g)|
    ensures forall c :: 0 <= c <= b ==> BlockDecodes(g, code, text + shown, c)
  {
    hide Holes;
    var h := |Holes(g)|;
    assert (b + 1) * h == b * h + h;
    forall c | 0 <= c <= b ensures BlockDecodes(g, code, text + shown, c) {
      if c < b {
        assert BlockDecodes(g, code, text, c);
      }
    }
  }

  /** Decoding gives the message back as a prefix, whatever padding either side has drawn. */
  lemma DecodeRestores(g: Grille, message: seq<char>, code: seq<char>, text: seq<char>)
    requires |Holes(g)| >= 1 && Encodes(g, message, code) && Decodes(g, code, text)
    ensures |code| == 16 * Blocks(|message|, |Holes(g)|)
    ensures |text| == (Blocks(|message|, |Holes(g)|) + 1) * |Holes(g)|
    ensures message <= text
  {
    hide Holes, Encodes, Decodes;
    forall i | 0 <= i < |message| ensures i < |text| && text[i] == message[i] {
      SymbolRestored(g, message, code, text, i);
    }
    assert Encodes(g, message, code) ==> |code| == 16 * Blocks(|message|, |Holes(g)|) by { EncodedLength(g, message, code); }
    assert Decodes(g, code, text) ==> |text| == (|code| / 16 + 1) * |Holes(g)| by { DecodedLength(g, code, text); }
  }

  lemma EncodedLength(g: Grille, message: seq<char>, code: seq<char>)
    ensures Encodes(g, message, code) ==> |code| == 16 * Blocks(|message|, |Holes(g)|)
  {
  }

  lemma DecodedLength(g: Grille, code: seq<char>, text: seq<char>)
    ensures Decodes(g, code, text) ==> |text| == (|code| / 16 + 1) * |Holes(g)|
  {
  }

  lemma SymbolRestored(g: Grille, message: seq<char>, code: seq<char>, text: seq<char>, i: nat)
    requires |Holes(g)| >= 1 && Encodes(g, message, code) && Decodes(g, code, text) && i < |message|
    ensures i < |text| && text[i] == message[i]
  {
    hide Holes, Blocks, BlockEncodes, BlockDecodes, Encodes, Decodes;
    var h := |Holes(g)|;
    EnoughBlocks(|message|, h);
    var b, q := Locate(i, h, Blocks(|message|, h));
    BothBlocks(g, message, code, text, b);
    SymbolInBlock(g, message, code, text, i, b, q);
  }

  lemma BothBlocks(g: Grille, message: seq<char>, code: seq<char>, text: seq<char>, b: nat)
    requires Encodes(g, message, code) && Decodes(g, code, text) && b < Blocks(|message|, |Holes(g)|)
    ensures BlockEncodes(g, message, code, b) && BlockDecodes(g, code, text, b)
  {
    hide Holes, Blocks, BlockEncodes, BlockDecodes;
  }

  lemma EnoughBlocks(n: nat, h: nat)
    requires h >= 1
    ensures n <= Blocks(n, h) * h
  {
  }

  lemma SymbolInBlock(g: Grille, message: seq<char>, code: seq<char>, text: seq<char>, i: nat, b: nat, q: nat)
    requires BlockEncodes(g, message, code, b) && BlockDecodes(g, code, text, b)
    requires q < |Holes(g)| && i == b * |Holes(g)| + q && i < |message|
    ensures i < |text| && text[i] == message[i]
  {
    hide Holes;
    assert code[16 * b + Holes(g)[q]] == message[i];
  }

  lemma Locate(i: nat, h: nat, k: nat) returns (b: nat, q: nat)
    requires h >= 1 && i < k * h
    ensures b < k && q < h && i == b * h + q
  {
    b, q := i / h, i % h;
    MulGap(h, b, k);
  }

  /** Where the message iterator stands after k blocks. */
  function After(h: nat, n: nat, k: nat): nat {
    if k == 0 then 0 else Min(After(h, n, k - 1) + h, n)
  }

  lemma {:induction false} AfterClosed(n: nat, k: nat)
    ensures After(0, n, k) == 0
  {
    if k > 0 { AfterClosed(n, k - 1); }
  }

  lemma {:induction false} AfterOpen(h: nat, n: nat, k: nat)
    requires h >= 1
    ensures After(h, n, k) >= Min(k, n) && After(h, n, k) <= n
  {
    if k > 0 { AfterOpen(h, n, k - 1); }
  }

  /** Encoding a message with a grille ends if and only if a hole is open or there is nothing to encode. */
  lemma EncodeEndsIff(g: Grille, message: seq<char>)
    ensures (exists k: nat :: After(|Holes(g)|, |message|, k) == |message|) <==> |Holes(g)| >= 1 || message == []
  {
    hide Holes;
    var h, n := |Holes(g)|, |message|;
    if h >= 1 || n == 0 {
      if h >= 1 { AfterOpen(h, n, n); } else { AfterClosed(n, n); }
      assert After(h, n, n) == n;
    } else {
      forall k: nat ensures After(h, n, k) != n { AfterClosed(n, k); }
    }
  }
}

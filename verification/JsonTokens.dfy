/**
 The token parser of programming/ProgLab5/workwithexternaldata/JSONToParsedObject.java: parseList, parseMap
 and parseValue share one index into the list of tokens. A number keeps its text.
 */
module JsonTokens {
  import opened Wrappers

  datatype Value =
    | VList(items: seq<Value>)
    | VMap(entries: map<string, Value>)
    | VString(s: string)
    | VNumber(text: string)
    | VNull
    | VOther

  type Token = t: string | |t| > 0 witness "]"

  function Last(t: Token): char {
    t[|t| - 1]
  }

  // ----- Scalars

  /** The least index from i on at which c stands, or the length. */
  function IndexFrom(s: string, c: char, i: nat): (j: nat)
    requires i <= |s|
    ensures i <= j <= |s| && (forall k :: i <= k < j ==> s[k] != c) && (j < |s| ==> s[j] == c)
    decreases |s| - i
  {
    if i == |s| || s[i] == c then i else IndexFrom(s, c, i + 1)
  }

  /** The greatest index below n at which c stands, or -1. */
  function LastIndexBelow(s: string, c: char, n: nat): (j: int)
    requires n <= |s|
    ensures -1 <= j < n && (forall k :: j < k < n ==> s[k] != c) && (j >= 0 ==> s[j] == c)
  {
    if n == 0 then -1 else if s[n - 1] == c then n - 1 else LastIndexBelow(s, c, n - 1)
  }

  /** The text between the first and the last quotation mark: the greedy match of a quoted text. */
  function Quoted(s: string): Option<string> {
    var i, j := IndexFrom(s, '"', 0), LastIndexBelow(s, '"', |s|);
    if i < j then Some(s[i + 1..j]) else None
  }

  predicate IsDigit(c: char) {
    '0' <= c <= '9'
  }

  function Digits(s: string, i: nat): (j: nat)
    requires i <= |s|
    ensures i <= j <= |s| && (forall k :: i <= k < j ==> IsDigit(s[k])) && (j < |s| ==> !IsDigit(s[j]))
    decreases |s| - i
  {
    if i < |s| && IsDigit(s[i]) then Digits(s, i + 1) else i
  }

  /** The end of the digits, optional point and digits that start at i. */
  function NumberEnd(s: string, i: nat): (j: nat)
    requires i <= |s|
    ensures i <= j <= |s|
  {
    var k := Digits(s, i);
    if k < |s| && s[k] == '.' then Digits(s, k + 1) else k
  }

  predicate NumberStarts(s: string, i: nat)
    requires i < |s|
  {
    IsDigit(s[i]) || (s[i] == '-' && i + 1 < |s| && IsDigit(s[i + 1]))
  }

  /** The leftmost number in the text. */
  function FindNumber(s: string, i: nat): Option<string>
    requires i <= |s|
    decreases |s| - i
  {
    if i == |s| then None
    else if NumberStarts(s, i) then Some(s[i..NumberEnd(s, if s[i] == '-' then i + 1 else i)])
    else FindNumber(s, i + 1)
  }

  predicate NullAt(s: string, i: nat) {
    i + 4 <= |s| && s[i..i + 4] == "null"
  }

  predicate ContainsNull(s: string) {
    exists i: nat :: i < |s| && NullAt(s, i)
  }

  function ParseObject(t: Token): Value {
    if ContainsNull(t) then VNull
    else if Quoted(t).Some? then VString(Quoted(t).value)
    else if FindNumber(t, 0).Some? then VNumber(FindNumber(t, 0).value)
    else VOther
  }

  function ParseString(t: Token): string {
    match Quoted(t)
    case Some(s) => s
    case None => ""
  }

  // ----- The parser as functions of the token list and the index; they end on every token list

  function ParseList(b: seq<Token>, i: nat, acc: seq<Value>): (r: (seq<Value>, nat))
    ensures r.1 >= i
    decreases if i < |b| then |b| - i else 0, 0
  {
    if i >= |b| then (acc, i)
    else match Last(b[i])
      case '[' =>
        var (inner, j) := ParseList(b, i + 1, []);
        ParseList(b, j + 1, acc + [VList(inner)])
      case ']' => (acc, i)
      case '{' =>
        var (inner, j) := ParseMap(b, i + 1, map[]);
        ParseList(b, j + 1, acc + [VMap(inner)])
      case _ => ParseList(b, i + 1, acc + [ParseObject(b[i])])
  }

  function ParseMap(b: seq<Token>, i: nat, acc: map<string, Value>): (r: (map<string, Value>, nat))
    ensures r.1 >= i
    decreases if i < |b| then |b| - i else 0, 0
  {
    if i >= |b| - 1 then (acc, i)
    else match Last(b[i])
      case ':' =>
        var (v, j) := ParseValue(b, i + 1);
        ParseMap(b, j + 1, acc[ParseString(b[i]) := v])
      case '}' => (acc, i)
      case _ => ParseMap(b, i + 1, acc)
  }

  function ParseValue(b: seq<Token>, i: nat): (r: (Value, nat))
    requires i < |b|
    ensures r.1 >= i
    decreases |b| - i, 1
  {
    match Last(b[i])
    case '{' => var (m, j) := ParseMap(b, i + 1, map[]); (VMap(m), j)
    case '[' => var (l, j) := ParseList(b, i + 1, []); (VList(l), j)
    case _ => (ParseObject(b[i]), i)
  }

  class Parser {
    const blocks: seq<Token>
    var index: nat

    constructor (blocks: seq<Token>)
      ensures this.blocks == blocks && index == 1
    {
      this.blocks := blocks;
      index := 1;
    }

    method ParseListLoop() returns (items: seq<Value>)
      modifies this
      ensures (items, index) == ParseList(blocks, old(index), [])
      decreases if index < |blocks| then |blocks| - index else 0, 0
    {
      items := [];
      ghost var start := index;
      while index < |blocks|
        invariant index >= start
        invariant ParseList(blocks, start, []) == ParseList(blocks, index, items)
        decreases |blocks| - index
      {
        match Last(blocks[index]) {
          case '[' =>
            index := index + 1;
            var inner := ParseListLoop();
            items := items + [VList(inner)];
          case ']' =>
            return;
          case '{' =>
            index := index + 1;
            var inner := ParseMapLoop();
            items := items + [VMap(inner)];
          case _ =>
            items := items + [ParseObject(blocks[index])];
        }
        index := index + 1;
      }
    }

    method ParseMapLoop() returns (entries: map<string, Value>)
      modifies this
      ensures (entries, index) == ParseMap(blocks, old(index), map[])
      decreases if index < |blocks| then |blocks| - index else 0, 0
    {
      entries := map[];
      ghost var start := index;
      while index < |blocks| - 1
        invariant index >= start
        invariant ParseMap(blocks, start, map[]) == ParseMap(blocks, index, entries)
        decreases |blocks| - index
      {
        match Last(blocks[index]) {
          case ':' =>
            index := index + 1;
            var key := ParseString(blocks[index - 1]);
            var value := ParseValueStep();
            entries := entries[key := value];
          case '}' =>
            return;
          case _ =>
        }
        index := index + 1;
      }
    }

    method ParseValueStep() returns (value: Value)
      requires index < |blocks|
      modifies this
      ensures (value, index) == ParseValue(blocks, old(index))
      decreases |blocks| - index, 1
    {
      match Last(blocks[index]) {
        case '{' =>
          index := index + 1;
          var m := ParseMapLoop();
          value := VMap(m);
        case '[' =>
          index := index + 1;
          var l := ParseListLoop();
          value := VList(l);
        case _ =>
          value := ParseObject(blocks[index]);
      }
    }
  }

  // ----- Documents and their tokens

  datatype Doc = DList(items: Docs) | DMap(entries: Entries) | DString(s: string) | DNumber(text: string) | DNull
  datatype Docs = NoDocs | Docs(head: Doc, tail: Docs)
  datatype Entries = NoEntries | Entries(key: string, value: Doc, tail: Entries)

  predicate Plain(s: string) {
    forall i :: 0 <= i < |s| ==> s[i] != '"'
  }

  /** Digits, optionally with a sign before and a point and digits after. */
  predicate IsNumber(s: string) {
    && |s| > 0 && NumberStarts(s, 0)
    && NumberEnd(s, if s[0] == '-' then 1 else 0) == |s|
  }

  /** What Java prints for a finite number: a number, perhaps with an exponent. */
  predicate PrintedNumber(s: string) {
    && |s| > 0 && NumberStarts(s, 0)
    && forall i :: 0 <= i < |s| ==> IsDigit(s[i]) || s[i] == '-' || s[i] == '.' || s[i] == 'E'
  }

  /** The number at the start of the text; an exponent is no part of it. */
  function LeadingNumber(s: string): string
    requires PrintedNumber(s)
  {
    s[..NumberEnd(s, if s[0] == '-' then 1 else 0)]
  }

  predicate Renderable(d: Doc) {
    match d
    case DList(items) => RenderableItems(items)
    case DMap(entries) => RenderableEntries(entries)
    case DString(s) => Plain(s)
    case DNumber(text) => PrintedNumber(text)
    case DNull => true
  }

  predicate RenderableItems(ds: Docs) {
    ds.Docs? ==> Renderable(ds.head) && RenderableItems(ds.tail)
  }

  predicate RenderableEntries(es: Entries) {
    es.Entries? ==> Plain(es.key) && Renderable(es.value) && RenderableEntries(es.tail)
  }

  function Render(d: Doc): (ts: seq<Token>)
    requires Renderable(d)
    ensures |ts| >= 1
  {
    match d
    case DList(items) => ["["] + RenderItems(items) + ["]"]
    case DMap(entries) => ["{"] + RenderEntries(entries) + ["}"]
    case DString(s) => ["\"" + s + "\""]
    case DNumber(text) => [text]
    case DNull => ["null"]
  }

  function RenderItems(ds: Docs): seq<Token>
    requires RenderableItems(ds)
  {
    if ds.NoDocs? then [] else Render(ds.head) + RenderItems(ds.tail)
  }

  function RenderEntries(es: Entries): seq<Token>
    requires RenderableEntries(es)
  {
    if es.NoEntries? then [] else [KeyToken(es.key)] + Render(es.value) + RenderEntries(es.tail)
  }

  /** What the parser makes of a document: texts with "null" in them and exponents are lost. */
  function Meaning(d: Doc): Value
    requires Renderable(d)
  {
    match d
    case DList(items) => VList(ItemsMeaning(items, []))
    case DMap(entries) => VMap(EntriesMeaning(entries, map[]))
    case DString(s) => if ContainsNull(s) then VNull else VString(s)
    case DNumber(text) => VNumber(LeadingNumber(text))
    case DNull => VNull
  }

  function ItemsMeaning(ds: Docs, acc: seq<Value>): seq<Value>
    requires RenderableItems(ds)
  {
    if ds.NoDocs? then acc else ItemsMeaning(ds.tail, acc + [Meaning(ds.head)])
  }

  /** Of entries with the same key the last one counts. */
  function EntriesMeaning(es: Entries, acc: map<string, Value>): map<string, Value>
    requires RenderableEntries(es)
  {
    if es.NoEntries? then acc else EntriesMeaning(es.tail, acc[es.key := Meaning(es.value)])
  }

  /** The tokens ts stand in b from position i on. */
  ghost predicate At(b: seq<Token>, i: nat, ts: seq<Token>) {
    i + |ts| <= |b| && b[i..i + |ts|] == ts
  }

  lemma AtSplits(b: seq<Token>, i: nat, s: seq<Token>, t: seq<Token>)
    requires At(b, i, s + t)
    ensures At(b, i, s) && At(b, i + |s|, t)
  {
    assert b[i..i + |s|] == (s + t)[..|s|];
    assert b[i + |s|..i + |s| + |t|] == (s + t)[|s|..];
  }

  lemma AtOne(b: seq<Token>, i: nat, t: Token)
    requires At(b, i, [t])
    ensures i < |b| && b[i] == t
  {
    assert b[i..i + 1][0] == t;
  }

  // ----- Scalars survive

  lemma QuotedWhole(s: string)
    requires Plain(s)
    ensures Quoted("\"" + s + "\"") == Some(s) == Quoted("\"" + s + "\":")
  {
    var t, k := "\"" + s + "\"", "\"" + s + "\":";
    assert t[0] == '"' && k[0] == '"' && t[|s| + 1] == '"' && k[|s| + 1] == '"';
    assert IndexFrom(t, '"', 0) == 0 == IndexFrom(k, '"', 0);
    assert LastIndexBelow(t, '"', |t|) == |s| + 1;
    assert LastIndexBelow(k, '"', |k|) == |s| + 1;
    assert t[1..|s| + 1] == s && k[1..|s| + 1] == s;
  }

  /** The quotation marks are no part of a "null". */
  lemma NullInside(s: string)
    ensures ContainsNull("\"" + s + "\"") <==> ContainsNull(s)
  {
    var t := "\"" + s + "\"";
    if ContainsNull(s) {
      var i: nat :| i < |s| && NullAt(s, i);
      assert t[i + 1..i + 5] == s[i..i + 4];
      assert NullAt(t, i + 1);
    }
    if ContainsNull(t) {
      var i: nat :| i < |t| && NullAt(t, i);
      assert t[i..i + 4][0] == 'n' && t[i..i + 4][3] == 'l';
      assert s[i - 1..i + 3] == t[i..i + 4];
      assert NullAt(s, i - 1);
    }
  }

  /** A quoted text comes back as itself exactly when it does not contain "null", and as null otherwise. */
  lemma StringKeptIff(s: string)
    requires Plain(s)
    ensures ParseObject("\"" + s + "\"") == if ContainsNull(s) then VNull else VString(s)
  {
    QuotedWhole(s);
    NullInside(s);
  }

  /** Of a printed number the parser reads what stands before the exponent. */
  lemma NumberRead(s: string)
    requires PrintedNumber(s)
    ensures ParseObject(s) == VNumber(LeadingNumber(s))
    ensures Last(s) != '[' && Last(s) != ']' && Last(s) != '{' && Last(s) != '}' && Last(s) != ':'
  {
    forall i: nat | i + 4 <= |s| ensures !NullAt(s, i) { assert s[i..i + 4][0] == s[i]; }
    assert FindNumber(s, 0) == Some(s[0..NumberEnd(s, if s[0] == '-' then 1 else 0)]);
  }

  /** So it is read whole exactly when it has no exponent. */
  lemma NumberKeptIff(s: string)
    requires PrintedNumber(s)
    ensures ParseObject(s) == VNumber(s) <==> IsNumber(s)
    ensures 'E' in s ==> !IsNumber(s)
  {
    NumberRead(s);
    if IsNumber(s) { NumberChars(s); }
  }

  /** A number is made of digits, signs and points, and is a printed number. */
  lemma NumberChars(s: string)
    requires IsNumber(s)
    ensures forall i :: 0 <= i < |s| ==> IsDigit(s[i]) || s[i] == '-' || s[i] == '.'
    ensures PrintedNumber(s) && LeadingNumber(s) == s
  {
    var i := if s[0] == '-' then 1 else 0;
    var k := Digits(s, i);
  }

  // ----- Parsing gives the meaning back

  /** parseValue on the tokens of a document yields its meaning and stops on its last token. */
  lemma {:induction false} ParseValueRestores(d: Doc, b: seq<Token>, i: nat)
    requires Renderable(d) && At(b, i, Render(d))
    ensures i < |b| && ParseValue(b, i) == (Meaning(d), i + |Render(d)| - 1)
    decreases d, 1
  {
    match d
    case DList(items) =>
      ListTokens(items, b, i);
      ParseListRestores(items, b, i + 1, []);
    case DMap(entries) =>
      MapTokens(entries, b, i);
      ParseMapRestores(entries, b, i + 1, map[]);
    case DString(s) =>
      AtOne(b, i, "\"" + s + "\"");
      StringKeptIff(s);
    case DNumber(text) =>
      AtOne(b, i, text);
      NumberRead(text);
    case DNull =>
      AtOne(b, i, "null");
      assert NullAt("null", 0);
  }

  lemma ListTokens(items: Docs, b: seq<Token>, i: nat)
    requires RenderableItems(items) && At(b, i, ["["] + RenderItems(items) + ["]"])
    ensures i < |b| && b[i] == "[" && At(b, i + 1, RenderItems(items) + ["]"])
  {
    assert ["["] + RenderItems(items) + ["]"] == ["["] + (RenderItems(items) + ["]"]);
    AtSplits(b, i, ["["], RenderItems(items) + ["]"]);
    AtOne(b, i, "[");
  }

  lemma MapTokens(entries: Entries, b: seq<Token>, i: nat)
    requires RenderableEntries(entries) && At(b, i, ["{"] + RenderEntries(entries) + ["}"])
    ensures i < |b| && b[i] == "{" && At(b, i + 1, RenderEntries(entries) + ["}"])
  {
    assert ["{"] + RenderEntries(entries) + ["}"] == ["{"] + (RenderEntries(entries) + ["}"]);
    AtSplits(b, i, ["{"], RenderEntries(entries) + ["}"]);
    AtOne(b, i, "{");
  }

  /** parseList reads the items up to the closing bracket and stops on it. */
  lemma {:induction false} ParseListRestores(items: Docs, b: seq<Token>, i: nat, acc: seq<Value>)
    requires RenderableItems(items) && At(b, i, RenderItems(items) + ["]"])
    ensures ParseList(b, i, acc) == (ItemsMeaning(items, acc), i + |RenderItems(items)|)
    decreases items, 0
  {
    hide Render, RenderItems, ParseList, ParseValue, Meaning, ItemsMeaning, At;
    if items.NoDocs? {
      EndOfList(items, b, i, acc);
    } else {
      var d := items.head;
      ItemTokens(items, b, i, acc);
      ParseValueRestores(d, b, i);
      OneItem(d, b, i, acc);
      ParseListRestores(items.tail, b, i + |Render(d)|, acc + [Meaning(d)]);
    }
  }

  lemma EndOfList(ds: Docs, b: seq<Token>, i: nat, acc: seq<Value>)
    requires ds.NoDocs? && RenderableItems(ds) && At(b, i, RenderItems(ds) + ["]"])
    ensures ParseList(b, i, acc) == (ItemsMeaning(ds, acc), i + |RenderItems(ds)|)
  {
    assert RenderItems(ds) + ["]"] == ["]"];
    AtOne(b, i, "]");
  }

  lemma ItemTokens(ds: Docs, b: seq<Token>, i: nat, acc: seq<Value>)
    requires ds.Docs? && RenderableItems(ds) && At(b, i, RenderItems(ds) + ["]"])
    ensures At(b, i, Render(ds.head)) && At(b, i + |Render(ds.head)|, RenderItems(ds.tail) + ["]"])
    ensures |RenderItems(ds)| == |Render(ds.head)| + |RenderItems(ds.tail)|
    ensures ItemsMeaning(ds, acc) == ItemsMeaning(ds.tail, acc + [Meaning(ds.head)])
  {
    var d, rest := Render(ds.head), RenderItems(ds.tail) + ["]"];
    assert RenderItems(ds) + ["]"] == d + rest;
    AtSplits(b, i, d, rest);
  }

  /** In a list, one document is read as by parseValue and the loop goes on behind it. */
  lemma OneItem(d: Doc, b: seq<Token>, i: nat, acc: seq<Value>)
    requires Renderable(d) && At(b, i, Render(d)) && i < |b|
    requires ParseValue(b, i) == (Meaning(d), i + |Render(d)| - 1)
    ensures ParseList(b, i, acc) == ParseList(b, i + |Render(d)|, acc + [Meaning(d)])
  {
    match d
    case DList(items) => ListTokens(items, b, i);
    case DMap(entries) => MapTokens(entries, b, i);
    case DString(s) => AtOne(b, i, "\"" + s + "\"");
    case DNumber(text) =>
      AtOne(b, i, text);
      NumberRead(text);
    case DNull => AtOne(b, i, "null");
  }

  /** parseMap reads the entries up to the closing bracket and stops on it, also when it is the last token of all. */
  lemma {:induction false} ParseMapRestores(entries: Entries, b: seq<Token>, i: nat, acc: map<string, Value>)
    requires RenderableEntries(entries) && At(b, i, RenderEntries(entries) + ["}"])
    ensures ParseMap(b, i, acc) == (EntriesMeaning(entries, acc), i + |RenderEntries(entries)|)
    decreases entries, 0
  {
    hide Render, RenderEntries, ParseMap, ParseValue, Meaning, EntriesMeaning, At;
    if entries.NoEntries? {
      EndOfMap(entries, b, i, acc);
    } else {
      var d, j := entries.value, i + 1 + |Render(entries.value)|;
      EntryTokens(entries, b, i);
      ParseValueRestores(d, b, i + 1);
      OneEntry(entries, b, i, acc);
      ParseMapRestores(entries.tail, b, j, acc[entries.key := Meaning(d)]);
    }
  }

  lemma EndOfMap(es: Entries, b: seq<Token>, i: nat, acc: map<string, Value>)
    requires es.NoEntries? && RenderableEntries(es) && At(b, i, RenderEntries(es) + ["}"])
    ensures ParseMap(b, i, acc) == (EntriesMeaning(es, acc), i + |RenderEntries(es)|)
  {
    assert RenderEntries(es) + ["}"] == ["}"];
    AtOne(b, i, "}");
  }

  function KeyToken(key: string): Token {
    "\"" + key + "\":"
  }

  lemma EntryTokens(es: Entries, b: seq<Token>, i: nat)
    requires es.Entries? && RenderableEntries(es) && At(b, i, RenderEntries(es) + ["}"])
    ensures i < |b| - 1 && b[i] == KeyToken(es.key) && At(b, i + 1, Render(es.value))
    ensures At(b, i + 1 + |Render(es.value)|, RenderEntries(es.tail) + ["}"])
    ensures |RenderEntries(es)| == 1 + |Render(es.value)| + |RenderEntries(es.tail)|
  {
    var d, rest := Render(es.value), RenderEntries(es.tail) + ["}"];
    assert RenderEntries(es) + ["}"] == [KeyToken(es.key)] + (d + rest);
    hide Render, RenderEntries;
    AtSplits(b, i, [KeyToken(es.key)], d + rest);
    AtOne(b, i, KeyToken(es.key));
    AtSplits(b, i + 1, d, rest);
  }

  /** In a map, a key and its value are read and the loop goes on behind them. */
  lemma OneEntry(es: Entries, b: seq<Token>, i: nat, acc: map<string, Value>)
    requires es.Entries? && RenderableEntries(es) && i < |b| - 1 && b[i] == KeyToken(es.key)
    requires ParseValue(b, i + 1) == (Meaning(es.value), i + |Render(es.value)|)
    ensures ParseMap(b, i, acc) == ParseMap(b, i + 1 + |Render(es.value)|, acc[es.key := Meaning(es.value)])
    ensures EntriesMeaning(es, acc) == EntriesMeaning(es.tail, acc[es.key := Meaning(es.value)])
  {
    hide Render, Meaning, ParseValue, Quoted;
    QuotedWhole(es.key);
  }

  /** What parseFile makes of the tokens of a file: a list that starts behind the first token. */
  function ParseFile(b: seq<Token>): Value {
    VList(ParseList(b, 1, []).0)
  }

  lemma ParseFileRestores(items: Docs)
    requires RenderableItems(items)
    ensures ParseFile(Render(DList(items))) == Meaning(DList(items))
  {
    var b := Render(DList(items));
    assert At(b, 0, b);
    ListTokens(items, b, 0);
    ParseListRestores(items, b, 1, []);
  }

  // ----- Distinct keys lose nothing

  predicate HasKey(es: Entries, k: string) {
    es.Entries? && (es.key == k || HasKey(es.tail, k))
  }

  predicate DistinctKeys(es: Entries) {
    es.Entries? ==> !HasKey(es.tail, es.key) && DistinctKeys(es.tail)
  }

  function Find(es: Entries, k: string): (d: Doc)
    requires HasKey(es, k)
    ensures RenderableEntries(es) ==> Renderable(d)
  {
    if es.key == k then es.value else Find(es.tail, k)
  }

  /** With distinct keys the parsed map has exactly the keys of the document, each with the meaning of its value. */
  lemma {:induction false} EntriesKept(es: Entries, acc: map<string, Value>, k: string)
    requires RenderableEntries(es) && DistinctKeys(es)
    ensures HasKey(es, k) ==> k in EntriesMeaning(es, acc) && EntriesMeaning(es, acc)[k] == Meaning(Find(es, k))
    ensures !HasKey(es, k) ==> (k in EntriesMeaning(es, acc) <==> k in acc)
    ensures !HasKey(es, k) && k in acc ==> EntriesMeaning(es, acc)[k] == acc[k]
    decreases es
  {
    if es.Entries? { EntriesKept(es.tail, acc[es.key := Meaning(es.value)], k); }
  }
}

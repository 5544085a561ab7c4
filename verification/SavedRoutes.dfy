/**
 Saving the route collection of programming/ProgLab5 as JSON and loading it again: toJSON of the routes, the token
 parser, and the extraction of routes from parsed objects. A file is the list of its tokens.
 */
module SavedRoutes {
  import opened Wrappers
  import opened JsonTokens
  import opened Routes

  // ----- Numbers as text

  /** Printing by Double.toString and Integer.toString, and reading by Double.parseDouble. */
  datatype Numbers = Numbers(isDouble: real -> bool, printReal: real -> string, printInt: int -> string, read: string -> real)

  function Magnitude(x: real): real {
    if x < 0.0 then -x else x
  }

  /** The numbers that Java prints with an exponent. */
  predicate Scientific(x: real) {
    x != 0.0 && (Magnitude(x) < 0.001 || Magnitude(x) >= 10000000.0)
  }

  /**
   What Java promises of them: integers, and doubles without an exponent, are read as they were printed; an
   exponent follows a mantissa of one digit before the point.
   */
  ghost predicate JavaNumbers(f: Numbers) {
    && (forall n :: IsNumber(f.printInt(n)) && f.read(f.printInt(n)) == n as real)
    && (forall x :: f.isDouble(x) ==> PrintedNumber(f.printReal(x)))
    && (forall x :: f.isDouble(x) && !Scientific(x) ==> IsNumber(f.printReal(x)) && f.read(f.printReal(x)) == x)
    && (forall x :: f.isDouble(x) && Scientific(x) ==>
          PrintedNumber(f.printReal(x)) && 1.0 <= Magnitude(f.read(LeadingNumber(f.printReal(x)))) < 10.0)
  }

  /** What is read of a printed double is the double itself exactly when it was printed without an exponent. */
  lemma DoubleKeptIff(f: Numbers, x: real)
    requires JavaNumbers(f) && f.isDouble(x)
    ensures PrintedNumber(f.printReal(x)) && (f.read(LeadingNumber(f.printReal(x))) == x <==> !Scientific(x))
  {
    hide PrintedNumber, IsNumber, LeadingNumber;
    if !Scientific(x) { NumberChars(f.printReal(x)); }
  }

  lemma IntKept(f: Numbers, n: int)
    requires JavaNumbers(f)
    ensures PrintedNumber(f.printInt(n)) && f.read(LeadingNumber(f.printInt(n))) == n as real
  {
    NumberChars(f.printInt(n));
  }

  const MAX_LONG := 0x7fff_ffff_ffff_ffff
  const MIN_LONG := -0x8000_0000_0000_0000

  /** The conversion of a double to an integer type: towards zero, and to the nearest bound outside of the range. */
  function Narrowed(x: real, low: int, high: int): int {
    var n := if x < 0.0 then -(-x).Floor else x.Floor;
    if n < low then low else if n > high then high else n
  }

  function IntValue(x: real): int {
    Narrowed(x, MIN_INT, MAX_INT)
  }

  function LongValue(x: real): int {
    Narrowed(x, MIN_LONG, MAX_LONG)
  }

  // ----- Writing

  function CoordinatesDoc(f: Numbers, c: Coordinates): Doc {
    DMap(Entries("x", DNumber(f.printReal(c.x)), Entries("y", DNumber(f.printInt(c.y)), NoEntries)))
  }

  function FromDoc(f: Numbers, l: FromLocation): Doc {
    DMap(Entries("Location", DMap(
      Entries("x", DNumber(f.printReal(l.x)), Entries("y", DNumber(f.printInt(l.y)),
      Entries("z", DNumber(f.printReal(l.z)), Entries("name", DString(l.name), NoEntries))))), NoEntries))
  }

  function ToDoc(f: Numbers, l: ToLocation): Doc {
    DMap(Entries("Location", DMap(
      Entries("x", DNumber(f.printInt(l.x)), Entries("y", DNumber(f.printInt(l.y)),
      Entries("z", DNumber(f.printReal(l.z)), NoEntries)))), NoEntries))
  }

  function RouteFields(f: Numbers, e: Entry): Entries {
    Entries("id", DNumber(f.printInt(e.id)),
    Entries("name", DString(e.details.name),
    Entries("coordinates", CoordinatesDoc(f, e.details.coordinates),
    Entries("distance", DNumber(f.printReal(e.details.distance)),
    Entries("first_location", FromDoc(f, e.details.from),
    Entries("second_location", ToDoc(f, e.details.to), NoEntries))))))
  }

  /** Route.toJSON within the braces that saveInFile puts around it. */
  function RouteDoc(f: Numbers, e: Entry): Doc {
    DMap(Entries("Route", DMap(RouteFields(f, e)), NoEntries))
  }

  function RouteDocs(f: Numbers, es: seq<Entry>): Docs {
    if es == [] then NoDocs else Docs(RouteDoc(f, es[0]), RouteDocs(f, es[1..]))
  }

  // ----- Reading

  /** asMap().get(key); None where one of the two is null. */
  function Get(v: Option<Value>, key: string): Option<Value> {
    if v.Some? && v.value.VMap? && key in v.value.entries then Some(v.value.entries[key]) else None
  }

  function AsNumber(f: Numbers, v: Option<Value>): Option<real> {
    if v.Some? && v.value.VNumber? then Some(f.read(v.value.text)) else None
  }

  function AsString(v: Option<Value>): Option<string> {
    if v.Some? && v.value.VString? then Some(v.value.s) else None
  }

  function ExtractCoordinates(f: Numbers, v: Option<Value>): Option<Coordinates> {
    var x, y := AsNumber(f, Get(v, "x")), AsNumber(f, Get(v, "y"));
    if x.None? || y.None? then None else Some(Coordinates(x.value, IntValue(y.value)))
  }

  function ExtractFrom(f: Numbers, v: Option<Value>): Option<FromLocation> {
    var x, y, z := AsNumber(f, Get(v, "x")), AsNumber(f, Get(v, "y")), AsNumber(f, Get(v, "z"));
    var name := AsString(Get(v, "name"));
    if x.None? || y.None? || z.None? || name.None? then None
    else Some(FromLocation(x.value, LongValue(y.value), z.value, name.value))
  }

  function ExtractTo(f: Numbers, v: Option<Value>): Option<ToLocation> {
    var x, y, z := AsNumber(f, Get(v, "x")), AsNumber(f, Get(v, "y")), AsNumber(f, Get(v, "z"));
    if x.None? || y.None? || z.None? then None else Some(ToLocation(IntValue(x.value), IntValue(y.value), z.value))
  }

  /** extractRouteObject up to the last constructor; None where an exception makes the loader skip the object. */
  function Extract(f: Numbers, v: Value): Saved {
    var route := Get(Some(v), "Route");
    var coordinates := ExtractCoordinates(f, Get(route, "coordinates"));
    var from := ExtractFrom(f, Get(Get(route, "first_location"), "Location"));
    var to := ExtractTo(f, Get(Get(route, "second_location"), "Location"));
    var id, name, distance := AsNumber(f, Get(route, "id")), AsString(Get(route, "name")), AsNumber(f, Get(route, "distance"));
    if coordinates.None? || from.None? || to.None? || id.None? || name.None? || distance.None? then None
    else Some(Entry(IntValue(id.value), Details(name.value, coordinates.value, from.value, to.value, distance.value)))
  }

  function Extracted(f: Numbers, vs: seq<Value>): (objects: seq<Saved>)
    ensures |objects| == |vs|
  {
    seq(|vs|, i requires 0 <= i < |vs| => Extract(f, vs[i]))
  }

  // ----- One route

  /** The fields have values of their Java types, and no quotation marks in their texts. */
  ghost predicate TypedDetails(f: Numbers, d: Details) {
    && Plain(d.name) && f.isDouble(d.distance)
    && f.isDouble(d.coordinates.x) && MIN_INT <= d.coordinates.y <= MAX_INT
    && f.isDouble(d.from.x) && MIN_LONG <= d.from.y <= MAX_LONG && f.isDouble(d.from.z) && Plain(d.from.name)
    && MIN_INT <= d.to.x <= MAX_INT && MIN_INT <= d.to.y <= MAX_INT && f.isDouble(d.to.z)
  }

  ghost predicate Typed(f: Numbers, e: Entry) {
    MIN_INT <= e.id <= MAX_INT && TypedDetails(f, e.details)
  }

  /** Neither name contains "null". */
  predicate NamesSurvive(d: Details) {
    !ContainsNull(d.name) && !ContainsNull(d.from.name)
  }

  /** No number is printed with an exponent. */
  predicate NumbersSurvive(d: Details) {
    && !Scientific(d.distance) && !Scientific(d.coordinates.x)
    && !Scientific(d.from.x) && !Scientific(d.from.z) && !Scientific(d.to.z)
  }

  predicate Survives(d: Details) {
    NamesSurvive(d) && NumbersSurvive(d)
  }

  lemma ShortKeys()
    ensures Plain("x") && Plain("y") && Plain("z") && Plain("name") && Plain("Location")
    ensures "x" != "y" && "x" != "z" && "y" != "z" && "name" != "x" && "name" != "y" && "name" != "z"
  {
    assert "x"[0] == 'x' && "y"[0] == 'y' && "z"[0] == 'z' && |"name"| == 4;
  }

  /** The first field of an object is put into the map before the others. */
  lemma FieldRead(key: string, value: Doc, tail: Entries, acc: map<string, Value>)
    requires Plain(key) && Renderable(value) && RenderableEntries(tail)
    ensures RenderableEntries(Entries(key, value, tail))
    ensures EntriesMeaning(Entries(key, value, tail), acc) == EntriesMeaning(tail, acc[key := Meaning(value)])
  {
  }

  lemma NoFields(acc: map<string, Value>)
    ensures RenderableEntries(NoEntries) && EntriesMeaning(NoEntries, acc) == acc
  {
  }

  lemma MapRead(fields: Entries)
    requires RenderableEntries(fields)
    ensures Renderable(DMap(fields)) && Meaning(DMap(fields)) == VMap(EntriesMeaning(fields, map[]))
  {
  }

  lemma DoubleRead(f: Numbers, x: real)
    requires JavaNumbers(f) && f.isDouble(x)
    ensures Renderable(DNumber(f.printReal(x)))
    ensures AsNumber(f, Some(Meaning(DNumber(f.printReal(x))))).Some?
    ensures AsNumber(f, Some(Meaning(DNumber(f.printReal(x))))) == Some(x) <==> !Scientific(x)
  {
    DoubleKeptIff(f, x);
  }

  lemma IntRead(f: Numbers, n: int)
    requires JavaNumbers(f)
    ensures Renderable(DNumber(f.printInt(n)))
    ensures AsNumber(f, Some(Meaning(DNumber(f.printInt(n))))) == Some(n as real)
    ensures MIN_INT <= n <= MAX_INT ==> IntValue(n as real) == n
    ensures MIN_LONG <= n <= MAX_LONG ==> LongValue(n as real) == n
  {
    IntKept(f, n);
    NarrowedKeeps(n);
  }

  lemma NarrowedKeeps(n: int)
    ensures MIN_INT <= n <= MAX_INT ==> IntValue(n as real) == n
    ensures MIN_LONG <= n <= MAX_LONG ==> LongValue(n as real) == n
  {
  }

  lemma TextRead(s: string)
    requires Plain(s)
    ensures Renderable(DString(s))
    ensures AsString(Some(Meaning(DString(s)))) == if ContainsNull(s) then None else Some(s)
  {
  }

  lemma CoordinatesRead(f: Numbers, c: Coordinates)
    requires JavaNumbers(f) && f.isDouble(c.x) && MIN_INT <= c.y <= MAX_INT
    ensures Renderable(CoordinatesDoc(f, c))
    ensures ExtractCoordinates(f, Some(Meaning(CoordinatesDoc(f, c)))) == Some(c) <==> !Scientific(c.x)
  {
    hide JavaNumbers, Scientific, Renderable, RenderableEntries, Meaning, EntriesMeaning, AsNumber, IntValue, LongValue, Plain;
    ShortKeys();
    IntRead(f, c.y);
    DoubleRead(f, c.x);
    var dx, dy := DNumber(f.printReal(c.x)), DNumber(f.printInt(c.y));
    var t := Entries("y", dy, NoEntries);
    var m := map["x" := Meaning(dx)];
    NoFields(m["y" := Meaning(dy)]);
    FieldRead("y", dy, NoEntries, m);
    FieldRead("x", dx, t, map[]);
    MapRead(Entries("x", dx, t));
  }

  lemma FromRead(f: Numbers, l: FromLocation)
    requires JavaNumbers(f) && f.isDouble(l.x) && MIN_LONG <= l.y <= MAX_LONG && f.isDouble(l.z) && Plain(l.name)
    ensures Renderable(FromDoc(f, l))
    ensures ExtractFrom(f, Get(Some(Meaning(FromDoc(f, l))), "Location")) == Some(l)
       <==> !ContainsNull(l.name) && !Scientific(l.x) && !Scientific(l.z)
    ensures ContainsNull(l.name) ==> ExtractFrom(f, Get(Some(Meaning(FromDoc(f, l))), "Location")).None?
  {
    hide JavaNumbers, Scientific, Renderable, RenderableEntries, Meaning, EntriesMeaning, AsNumber, AsString, IntValue, LongValue,
         ContainsNull, Plain;
    ShortKeys();
    IntRead(f, l.y);
    DoubleRead(f, l.x);
    DoubleRead(f, l.z);
    TextRead(l.name);
    var dx, dy, dz, dn := DNumber(f.printReal(l.x)), DNumber(f.printInt(l.y)), DNumber(f.printReal(l.z)), DString(l.name);
    var t3 := Entries("name", dn, NoEntries);
    var t2 := Entries("z", dz, t3);
    var t1 := Entries("y", dy, t2);
    var m1 := map["x" := Meaning(dx)];
    var m2 := m1["y" := Meaning(dy)];
    var m3 := m2["z" := Meaning(dz)];
    NoFields(m3["name" := Meaning(dn)]);
    FieldRead("name", dn, NoEntries, m3);
    FieldRead("z", dz, t3, m2);
    FieldRead("y", dy, t2, m1);
    FieldRead("x", dx, t1, map[]);
    MapRead(Entries("x", dx, t1));
    OnlyField("Location", DMap(Entries("x", dx, t1)));
  }

  /** An object with one field. */
  lemma OnlyField(key: string, value: Doc)
    requires Plain(key) && Renderable(value)
    ensures Renderable(DMap(Entries(key, value, NoEntries)))
    ensures Get(Some(Meaning(DMap(Entries(key, value, NoEntries)))), key) == Some(Meaning(value))
  {
    hide Renderable, RenderableEntries, Meaning, EntriesMeaning, Plain;
    NoFields(map[key := Meaning(value)]);
    FieldRead(key, value, NoEntries, map[]);
    MapRead(Entries(key, value, NoEntries));
  }

  lemma ToRead(f: Numbers, l: ToLocation)
    requires JavaNumbers(f) && MIN_INT <= l.x <= MAX_INT && MIN_INT <= l.y <= MAX_INT && f.isDouble(l.z)
    ensures Renderable(ToDoc(f, l))
    ensures ExtractTo(f, Get(Some(Meaning(ToDoc(f, l))), "Location")) == Some(l) <==> !Scientific(l.z)
  {
    hide JavaNumbers, Scientific, Renderable, RenderableEntries, Meaning, EntriesMeaning, AsNumber, IntValue, LongValue, Plain;
    ShortKeys();
    IntRead(f, l.x);
    IntRead(f, l.y);
    DoubleRead(f, l.z);
    var dx, dy, dz := DNumber(f.printInt(l.x)), DNumber(f.printInt(l.y)), DNumber(f.printReal(l.z));
    var t2 := Entries("z", dz, NoEntries);
    var t1 := Entries("y", dy, t2);
    var m1 := map["x" := Meaning(dx)];
    var m2 := m1["y" := Meaning(dy)];
    NoFields(m2["z" := Meaning(dz)]);
    FieldRead("z", dz, NoEntries, m2);
    FieldRead("y", dy, t2, m1);
    FieldRead("x", dx, t1, map[]);
    MapRead(Entries("x", dx, t1));
    OnlyField("Location", DMap(Entries("x", dx, t1)));
  }

  lemma RouteKeys()
    ensures |"id"| == 2 && |"name"| == 4 && |"coordinates"| == 11 && |"distance"| == 8 && |"first_location"| == 14
    ensures |"second_location"| == 15
    ensures Plain("Route") && Plain("id") && Plain("name") && Plain("coordinates") && Plain("distance")
    ensures Plain("first_location") && Plain("second_location")
  {
  }

  /** The fields of a saved route as the extraction finds them. */
  lemma RouteFieldsRead(id: Doc, name: Doc, coordinates: Doc, distance: Doc, from: Doc, to: Doc) returns (m: map<string, Value>)
    requires Renderable(id) && Renderable(name) && Renderable(coordinates) && Renderable(distance) && Renderable(from) && Renderable(to)
    ensures var fields := Entries("id", id, Entries("name", name, Entries("coordinates", coordinates, Entries("distance", distance,
                            Entries("first_location", from, Entries("second_location", to, NoEntries))))));
            && Renderable(DMap(fields)) && Meaning(DMap(fields)) == VMap(m)
    ensures Get(Some(VMap(m)), "id") == Some(Meaning(id)) && Get(Some(VMap(m)), "name") == Some(Meaning(name))
    ensures Get(Some(VMap(m)), "coordinates") == Some(Meaning(coordinates)) && Get(Some(VMap(m)), "distance") == Some(Meaning(distance))
    ensures Get(Some(VMap(m)), "first_location") == Some(Meaning(from)) && Get(Some(VMap(m)), "second_location") == Some(Meaning(to))
  {
    RouteKeys();
    hide Renderable, RenderableEntries, Meaning, EntriesMeaning, Plain;
    var t5 := Entries("second_location", to, NoEntries);
    var t4 := Entries("first_location", from, t5);
    var t3 := Entries("distance", distance, t4);
    var t2 := Entries("coordinates", coordinates, t3);
    var t1 := Entries("name", name, t2);
    var m1 := map["id" := Meaning(id)];
    var m2 := m1["name" := Meaning(name)];
    var m3 := m2["coordinates" := Meaning(coordinates)];
    var m4 := m3["distance" := Meaning(distance)];
    var m5 := m4["first_location" := Meaning(from)];
    m := m5["second_location" := Meaning(to)];
    NoFields(m);
    FieldRead("second_location", to, NoEntries, m5);
    FieldRead("first_location", from, t5, m4);
    FieldRead("distance", distance, t4, m3);
    FieldRead("coordinates", coordinates, t3, m2);
    FieldRead("name", name, t2, m1);
    FieldRead("id", id, t1, map[]);
    MapRead(Entries("id", id, t1));
  }

  /** A saved route is extracted as it was exactly when it survives; with a "null" in a name it is not extracted at all. */
  lemma RouteKeptIff(f: Numbers, e: Entry)
    requires JavaNumbers(f) && Typed(f, e)
    ensures Renderable(RouteDoc(f, e))
    ensures Extract(f, Meaning(RouteDoc(f, e))) == Some(e) <==> Survives(e.details)
    ensures !NamesSurvive(e.details) ==> Extract(f, Meaning(RouteDoc(f, e))).None?
  {
    hide JavaNumbers, Scientific, Renderable, RenderableEntries, Meaning, EntriesMeaning, AsNumber, AsString, IntValue, LongValue,
         ContainsNull, Plain, ExtractCoordinates, ExtractFrom, ExtractTo, CoordinatesDoc, FromDoc, ToDoc, Get;
    var d := e.details;
    IntRead(f, e.id);
    TextRead(d.name);
    DoubleRead(f, d.distance);
    CoordinatesRead(f, d.coordinates);
    FromRead(f, d.from);
    ToRead(f, d.to);
    var m := RouteFieldsRead(DNumber(f.printInt(e.id)), DString(d.name), CoordinatesDoc(f, d.coordinates),
                             DNumber(f.printReal(d.distance)), FromDoc(f, d.from), ToDoc(f, d.to));
    RouteKeys();
    OnlyField("Route", DMap(RouteFields(f, e)));
  }

  // ----- The tokens of a route

  /** The tokens of a key and a value in front of others. */
  lemma FieldTokens(key: string, token: Token, value: Doc, tail: Entries)
    requires Plain(key) && Renderable(value) && RenderableEntries(tail) && token == KeyToken(key)
    ensures RenderableEntries(Entries(key, value, tail))
    ensures RenderEntries(Entries(key, value, tail)) == [token] + Render(value) + RenderEntries(tail)
  {
  }

  lemma MapTokensOf(fields: Entries)
    requires RenderableEntries(fields)
    ensures Renderable(DMap(fields)) && Render(DMap(fields)) == ["{"] + RenderEntries(fields) + ["}"]
  {
  }

  lemma NoTokens()
    ensures RenderableEntries(NoEntries) && RenderEntries(NoEntries) == []
  {
  }

  /** The tokens of objects with one and with three fields. */
  lemma OneField(k: string, t: Token, v: Doc)
    requires Plain(k) && Renderable(v) && t == KeyToken(k)
    ensures Renderable(DMap(Entries(k, v, NoEntries)))
    ensures Render(DMap(Entries(k, v, NoEntries))) == ["{", t] + Render(v) + ["}"]
  {
    hide Plain, Renderable, RenderableEntries, Render, RenderEntries, KeyToken;
    NoTokens();
    FieldTokens(k, t, v, NoEntries);
    MapTokensOf(Entries(k, v, NoEntries));
    assert ["{"] + ([t] + Render(v) + []) + ["}"] == ["{", t] + Render(v) + ["}"];
  }

  /** Numbers x, y and z, and what follows them. */
  lemma NumberFields(k: string, t: Token, text: string, tail: Entries)
    requires Plain(k) && PrintedNumber(text) && RenderableEntries(tail) && t == KeyToken(k)
    ensures RenderableEntries(Entries(k, DNumber(text), tail))
    ensures RenderEntries(Entries(k, DNumber(text), tail)) == [t, text] + RenderEntries(tail)
  {
    FieldTokens(k, t, DNumber(text), tail);
  }

  lemma ShortTokens()
    ensures KeyToken("x") == "\"x\":" && KeyToken("y") == "\"y\":" && KeyToken("z") == "\"z\":" && KeyToken("name") == "\"name\":"
    ensures KeyToken("Location") == "\"Location\":" && KeyToken("id") == "\"id\":" && KeyToken("distance") == "\"distance\":"
  {
  }

  lemma LongTokens()
    ensures KeyToken("Route") == "\"Route\":" && KeyToken("coordinates") == "\"coordinates\":"
  {
  }

  lemma LocationTokens()
    ensures KeyToken("first_location") == "\"first_location\":" && KeyToken("second_location") == "\"second_location\":"
  {
  }

  lemma Printed(f: Numbers, n: int, x: real)
    requires JavaNumbers(f)
    ensures PrintedNumber(f.printInt(n)) && (f.isDouble(x) ==> PrintedNumber(f.printReal(x)))
  {
    IntKept(f, n);
  }

  lemma CoordinatesTokens(f: Numbers, c: Coordinates)
    requires JavaNumbers(f) && f.isDouble(c.x)
    ensures Renderable(CoordinatesDoc(f, c))
    ensures Render(CoordinatesDoc(f, c)) == ["{"] + (["\"x\":", f.printReal(c.x)] + (["\"y\":", f.printInt(c.y)] + [])) + ["}"]
  {
    hide JavaNumbers, PrintedNumber, Plain, KeyToken, Render, RenderEntries, Renderable, RenderableEntries;
    ShortKeys();
    ShortTokens();
    NoTokens();
    Printed(f, c.y, c.x);
    var t := Entries("y", DNumber(f.printInt(c.y)), NoEntries);
    NumberFields("y", "\"y\":", f.printInt(c.y), NoEntries);
    NumberFields("x", "\"x\":", f.printReal(c.x), t);
    MapTokensOf(Entries("x", DNumber(f.printReal(c.x)), t));
  }

  lemma FromTokens(f: Numbers, l: FromLocation)
    requires JavaNumbers(f) && f.isDouble(l.x) && f.isDouble(l.z) && Plain(l.name)
    ensures Renderable(FromDoc(f, l))
    ensures Render(FromDoc(f, l))
         == ["{", "\"Location\":"]
            + (["{"] + (["\"x\":", f.printReal(l.x)] + (["\"y\":", f.printInt(l.y)] + (["\"z\":", f.printReal(l.z)]
               + (["\"name\":"] + ["\"" + l.name + "\""] + [])))) + ["}"])
            + ["}"]
  {
    TextTokens(l.name);
    hide JavaNumbers, PrintedNumber, Plain, KeyToken, Render, RenderEntries, Renderable, RenderableEntries;
    ShortKeys();
    ShortTokens();
    NoTokens();
    Printed(f, l.y, l.x);
    Printed(f, l.y, l.z);
    var t3 := Entries("name", DString(l.name), NoEntries);
    var t2 := Entries("z", DNumber(f.printReal(l.z)), t3);
    var t1 := Entries("y", DNumber(f.printInt(l.y)), t2);
    var t0 := Entries("x", DNumber(f.printReal(l.x)), t1);
    FieldTokens("name", "\"name\":", DString(l.name), NoEntries);
    NumberFields("z", "\"z\":", f.printReal(l.z), t3);
    NumberFields("y", "\"y\":", f.printInt(l.y), t2);
    NumberFields("x", "\"x\":", f.printReal(l.x), t1);
    MapTokensOf(t0);
    OneField("Location", "\"Location\":", DMap(t0));
  }

  lemma TextTokens(s: string)
    requires Plain(s)
    ensures Renderable(DString(s)) && Render(DString(s)) == ["\"" + s + "\""]
  {
  }

  lemma ToTokens(f: Numbers, l: ToLocation)
    requires JavaNumbers(f) && f.isDouble(l.z)
    ensures Renderable(ToDoc(f, l))
    ensures Render(ToDoc(f, l))
         == ["{", "\"Location\":"]
            + (["{"] + (["\"x\":", f.printInt(l.x)] + (["\"y\":", f.printInt(l.y)] + (["\"z\":", f.printReal(l.z)] + []))) + ["}"])
            + ["}"]
  {
    hide JavaNumbers, PrintedNumber, Plain, KeyToken, Render, RenderEntries, Renderable, RenderableEntries;
    ShortKeys();
    ShortTokens();
    NoTokens();
    Printed(f, l.x, l.z);
    Printed(f, l.y, l.z);
    var t2 := Entries("z", DNumber(f.printReal(l.z)), NoEntries);
    var t1 := Entries("y", DNumber(f.printInt(l.y)), t2);
    var t0 := Entries("x", DNumber(f.printInt(l.x)), t1);
    NumberFields("z", "\"z\":", f.printReal(l.z), NoEntries);
    NumberFields("y", "\"y\":", f.printInt(l.y), t2);
    NumberFields("x", "\"x\":", f.printInt(l.x), t1);
    MapTokensOf(t0);
    OneField("Location", "\"Location\":", DMap(t0));
  }

  /** What saveInFile writes for a route, token by token; the tokens of its parts are those of the lemmas above. */
  lemma RouteTokens(f: Numbers, e: Entry)
    requires JavaNumbers(f) && Typed(f, e)
    ensures Renderable(RouteDoc(f, e)) && Renderable(CoordinatesDoc(f, e.details.coordinates))
    ensures Renderable(FromDoc(f, e.details.from)) && Renderable(ToDoc(f, e.details.to))
    ensures Render(RouteDoc(f, e))
         == ["{", "\"Route\":"]
            + (["{"]
               + (["\"id\":", f.printInt(e.id)]
                  + (["\"name\":"] + ["\"" + e.details.name + "\""]
                     + (["\"coordinates\":"] + Render(CoordinatesDoc(f, e.details.coordinates))
                        + (["\"distance\":", f.printReal(e.details.distance)]
                           + (["\"first_location\":"] + Render(FromDoc(f, e.details.from))
                              + (["\"second_location\":"] + Render(ToDoc(f, e.details.to)) + []))))))
               + ["}"])
            + ["}"]
  {
    var d := e.details;
    CoordinatesTokens(f, d.coordinates);
    FromTokens(f, d.from);
    ToTokens(f, d.to);
    TextTokens(d.name);
    hide JavaNumbers, PrintedNumber, Plain, KeyToken, Render, RenderEntries, Renderable, RenderableEntries, CoordinatesDoc, FromDoc, ToDoc;
    RouteKeys();
    ShortTokens();
    LongTokens();
    LocationTokens();
    NoTokens();
    Printed(f, e.id, d.distance);
    var t5 := Entries("second_location", ToDoc(f, d.to), NoEntries);
    var t4 := Entries("first_location", FromDoc(f, d.from), t5);
    var t3 := Entries("distance", DNumber(f.printReal(d.distance)), t4);
    var t2 := Entries("coordinates", CoordinatesDoc(f, d.coordinates), t3);
    var t1 := Entries("name", DString(d.name), t2);
    var t0 := Entries("id", DNumber(f.printInt(e.id)), t1);
    FieldTokens("second_location", "\"second_location\":", ToDoc(f, d.to), NoEntries);
    FieldTokens("first_location", "\"first_location\":", FromDoc(f, d.from), t5);
    NumberFields("distance", "\"distance\":", f.printReal(d.distance), t4);
    FieldTokens("coordinates", "\"coordinates\":", CoordinatesDoc(f, d.coordinates), t3);
    FieldTokens("name", "\"name\":", DString(d.name), t2);
    NumberFields("id", "\"id\":", f.printInt(e.id), t1);
    MapTokensOf(t0);
    OneField("Route", "\"Route\":", DMap(t0));
  }

  // ----- The whole file

  /** The tokens of the file that saveInFile writes. */
  function SavedFile(f: Numbers, es: seq<Entry>): seq<Token>
    requires RenderableItems(RouteDocs(f, es))
  {
    Render(DList(RouteDocs(f, es)))
  }

  /** The collection that a fresh program makes of a file. */
  function Reloaded(f: Numbers, file: seq<Token>): State {
    Load(State(0, []), Extracted(f, match ParseFile(file) case VList(items) => items case _ => []))
  }

  ghost predicate AllTyped(f: Numbers, es: seq<Entry>) {
    forall i :: 0 <= i < |es| ==> Typed(f, es[i])
  }

  lemma {:induction false} FileRenderable(f: Numbers, es: seq<Entry>)
    requires JavaNumbers(f) && AllTyped(f, es)
    ensures RenderableItems(RouteDocs(f, es))
    decreases |es|
  {
    if es != [] {
      RouteKeptIff(f, es[0]);
      hide JavaNumbers, Typed, RouteDoc, Renderable;
      FileRenderable(f, es[1..]);
    }
  }

  /** The parsed list holds what each route means, in order. */
  lemma {:induction false} FileMeaning(f: Numbers, es: seq<Entry>, acc: seq<Value>)
    requires RenderableItems(RouteDocs(f, es))
    ensures var vs := ItemsMeaning(RouteDocs(f, es), acc);
            && |vs| == |acc| + |es| && vs[..|acc|] == acc
            && forall i :: 0 <= i < |es| ==> Renderable(RouteDoc(f, es[i])) && vs[|acc| + i] == Meaning(RouteDoc(f, es[i]))
    decreases |es|
  {
    hide RouteDoc, Renderable, Meaning;
    if es != [] {
      var d := RouteDoc(f, es[0]);
      var vs := ItemsMeaning(RouteDocs(f, es), acc);
      FileMeaning(f, es[1..], acc + [Meaning(d)]);
      assert vs == ItemsMeaning(RouteDocs(f, es[1..]), acc + [Meaning(d)]);
      assert vs[..|acc|] == vs[..|acc| + 1][..|acc|] && vs[|acc|] == vs[..|acc| + 1][|acc|];
      forall i | 0 <= i < |es| ensures Renderable(RouteDoc(f, es[i])) && vs[|acc| + i] == Meaning(RouteDoc(f, es[i])) {
        if i > 0 { assert es[i] == es[1..][i - 1]; }
      }
    }
  }

  /** Writes the list token by token. */
  method SaveInFile(f: Numbers, es: seq<Entry>) returns (file: seq<Token>)
    requires RenderableItems(RouteDocs(f, es))
    ensures file == SavedFile(f, es)
  {
    hide RenderableItems, Renderable, RenderItems, Render, RouteDocs, RouteDoc, SavedFile;
    file := ["["];
    WholeFile(f, es);
    for i := 0 to |es|
      invariant RenderableItems(RouteDocs(f, es[i..]))
      invariant SavedFile(f, es) == file + RenderItems(RouteDocs(f, es[i..])) + ["]"]
    {
      NextRoute(f, es, i);
      var tokens := Render(RouteDoc(f, es[i]));
      ghost var rest := RenderItems(RouteDocs(f, es[i + 1..]));
      assert file + (tokens + rest) + ["]"] == file + tokens + rest + ["]"];
      file := file + tokens;
    }
    NoRoutes(f, es);
    assert file + [] + ["]"] == file + ["]"];
    file := file + ["]"];
  }

  lemma WholeFile(f: Numbers, es: seq<Entry>)
    requires RenderableItems(RouteDocs(f, es))
    ensures es[0..] == es && SavedFile(f, es) == ["["] + RenderItems(RouteDocs(f, es[0..])) + ["]"]
  {
    assert es[0..] == es;
  }

  lemma NextRoute(f: Numbers, es: seq<Entry>, i: nat)
    requires i < |es| && RenderableItems(RouteDocs(f, es[i..]))
    ensures Renderable(RouteDoc(f, es[i])) && RenderableItems(RouteDocs(f, es[i + 1..]))
    ensures RenderItems(RouteDocs(f, es[i..])) == Render(RouteDoc(f, es[i])) + RenderItems(RouteDocs(f, es[i + 1..]))
  {
    assert es[i..][1..] == es[i + 1..];
    hide RouteDoc, Render, Renderable;
  }

  lemma NoRoutes(f: Numbers, es: seq<Entry>)
    ensures RenderableItems(RouteDocs(f, es[|es|..])) && RenderItems(RouteDocs(f, es[|es|..])) == []
  {
  }

  /** What a fresh program does with a file: parseFile and then convertToListRoute. */
  method LoadFile(f: Numbers, file: seq<Token>) returns (c: Collection)
    ensures c.Valid() && c.View() == Reloaded(f, file)
  {
    hide Extract, Load, EntriesOf;
    var parser := new Parser(file);
    var items := parser.ParseListLoop();
    c := ConvertToList(Extracted(f, items));
  }

  /** What the extraction yields for the routes of a file. */
  function SavedObjects(f: Numbers, es: seq<Entry>): (objects: seq<Saved>)
    requires RenderableItems(RouteDocs(f, es))
  {
    Extracted(f, ItemsMeaning(RouteDocs(f, es), []))
  }

  lemma ReloadedObjects(f: Numbers, es: seq<Entry>)
    requires RenderableItems(RouteDocs(f, es))
    ensures Reloaded(f, SavedFile(f, es)) == Load(State(0, []), SavedObjects(f, es))
  {
    var ds := RouteDocs(f, es);
    ParseFileRestores(ds);
    hide Render, ParseFile, RouteDocs, Load, Extracted, ItemsMeaning;
    assert ParseFile(SavedFile(f, es)) == VList(ItemsMeaning(ds, []));
  }

  lemma ObjectKeptIff(f: Numbers, es: seq<Entry>, i: nat)
    requires JavaNumbers(f) && i < |es| && Typed(f, es[i]) && RenderableItems(RouteDocs(f, es))
    ensures |SavedObjects(f, es)| == |es|
    ensures SavedObjects(f, es)[i] == Some(es[i]) <==> Survives(es[i].details)
    ensures !NamesSurvive(es[i].details) ==> SavedObjects(f, es)[i].None?
  {
    hide JavaNumbers, Typed, RouteDoc, RouteDocs, Renderable, RenderableItems, Meaning, Extract, Survives, NamesSurvive, ItemsMeaning;
    FileMeaning(f, es, []);
    RouteKeptIff(f, es[i]);
  }

  lemma ObjectsKeptIff(f: Numbers, es: seq<Entry>)
    requires JavaNumbers(f) && AllTyped(f, es) && RenderableItems(RouteDocs(f, es))
    ensures |SavedObjects(f, es)| == |es|
    ensures forall i :: 0 <= i < |es| ==> (SavedObjects(f, es)[i] == Some(es[i]) <==> Survives(es[i].details))
    ensures forall i :: 0 <= i < |es| && !NamesSurvive(es[i].details) ==> SavedObjects(f, es)[i].None?
  {
    FileMeaning(f, es, []);
    hide JavaNumbers, Typed, RouteDoc, RouteDocs, Renderable, RenderableItems, Meaning, Extract, Survives, NamesSurvive, ItemsMeaning;
    assert |SavedObjects(f, es)| == |es|;
    hide SavedObjects;
    forall i | 0 <= i < |es|
      ensures SavedObjects(f, es)[i] == Some(es[i]) <==> Survives(es[i].details)
      ensures !NamesSurvive(es[i].details) ==> SavedObjects(f, es)[i].None?
    {
      ObjectKeptIff(f, es, i);
    }
  }

  ghost predicate AllSurvive(es: seq<Entry>) {
    forall i :: 0 <= i < |es| ==> Survives(es[i].details)
  }

  /**
   Saving a good collection and starting the program anew gives the same list back if and only if no name in it
   contains "null" and no number in it is printed with an exponent.
   */
  lemma ReloadRestoresIff(f: Numbers, s: State)
    requires JavaNumbers(f) && Good(s) && AllTyped(f, s.entries)
    ensures RenderableItems(RouteDocs(f, s.entries))
    ensures Reloaded(f, SavedFile(f, s.entries)).entries == s.entries <==> AllSurvive(s.entries)
    ensures AllSurvive(s.entries) ==> Good(Reloaded(f, SavedFile(f, s.entries)))
  {
    hide JavaNumbers, AllTyped, RouteDocs, RenderableItems, Survives, SavedFile, SavedObjects, Reloaded, Load, Good;
    var es := s.entries;
    FileRenderable(f, es);
    ObjectsKeptIff(f, es);
    ReloadedObjects(f, es);
    LoadKeepsIff(s, SavedObjects(f, es));
  }

  /** Where numbers survive, exactly the routes with a "null" in a name are lost, and the others keep their order. */
  lemma ReloadFilters(f: Numbers, s: State)
    requires JavaNumbers(f) && Good(s) && AllTyped(f, s.entries)
    requires forall i :: 0 <= i < |s.entries| ==> NumbersSurvive(s.entries[i].details)
    ensures RenderableItems(RouteDocs(f, s.entries))
    ensures Reloaded(f, SavedFile(f, s.entries)).entries == Filter(s.entries, (e: Entry) => NamesSurvive(e.details))
  {
    var es, keep := s.entries, (e: Entry) => NamesSurvive(e.details);
    GoodLoads(s);
    hide JavaNumbers, AllTyped, RouteDocs, RenderableItems, NamesSurvive, NumbersSurvive, SavedFile, SavedObjects, Reloaded, Load, Good,
         LoadableFrom;
    FileRenderable(f, es);
    ObjectsKeptIff(f, es);
    ReloadedObjects(f, es);
    LoadFilters(State(0, []), es, SavedObjects(f, es), keep);
  }

  /** A route that the user called nullable does not come back. */
  lemma NullableIsLost(f: Numbers, d: Details)
    requires JavaNumbers(f) && TypedDetails(f, d) && Acceptable(d) && NumbersSurvive(d) && d.name == "nullable"
    ensures Good(State(1, [Entry(1, d)])) && RenderableItems(RouteDocs(f, [Entry(1, d)]))
    ensures Reloaded(f, SavedFile(f, [Entry(1, d)])).entries == []
  {
    var s := State(1, [Entry(1, d)]);
    assert d.name[0..4] == "null" && NullAt(d.name, 0);
    hide JavaNumbers, TypedDetails, RouteDocs, RenderableItems, NumbersSurvive, SavedFile, Reloaded;
    ReloadFilters(f, s);
    assert s.entries[1..] == [];
  }

  /** A route of distance 1.0E7 does not come back as it was. */
  lemma LongRouteChanges(f: Numbers, d: Details)
    requires JavaNumbers(f) && TypedDetails(f, d) && Acceptable(d) && d.distance == 10000000.0
    ensures Good(State(1, [Entry(1, d)])) && RenderableItems(RouteDocs(f, [Entry(1, d)]))
    ensures Reloaded(f, SavedFile(f, [Entry(1, d)])).entries != [Entry(1, d)]
  {
    var s := State(1, [Entry(1, d)]);
    assert !Survives(s.entries[0].details);
    hide JavaNumbers, TypedDetails, RouteDocs, RenderableItems, Survives, SavedFile, Reloaded;
    ReloadRestoresIff(f, s);
  }

  // ----- Whole runs

  ghost predicate AllDetails(es: seq<Entry>, p: Details -> bool) {
    forall i :: 0 <= i < |es| ==> p(es[i].details)
  }

  ghost predicate Brings(c: Command, p: Details -> bool) {
    match c
    case Add(d) => p(d)
    case Update(_, d) => p(d)
    case AddIfMax(d) => p(d)
    case _ => true
  }

  /** What holds of all routes that are entered holds of all routes in the list. */
  lemma StepDetails(s: State, c: Command, p: Details -> bool)
    requires AllDetails(s.entries, p) && Brings(c, p)
    ensures AllDetails(Step(s, c).0.entries, p)
  {
    hide Acceptable, Compare, Greatest, Successor;
    match c
    case RemoveGreater(d) => FilterDetails(s.entries, Kept(GreaterThan(d)), p);
    case RemoveLower(d) => FilterDetails(s.entries, Kept(LowerThan(d)), p);
    case _ =>
  }

  lemma FilterDetails(es: seq<Entry>, keep: Entry -> bool, p: Details -> bool)
    requires AllDetails(es, p)
    ensures AllDetails(Filter(es, keep), p)
  {
    FilterKeeps(es, keep);
    hide Filter;
    var kept := Filter(es, keep);
    forall i | 0 <= i < |kept| ensures p(kept[i].details) { assert kept[i] in es; }
  }

  lemma {:induction false} RunDetails(s: State, cs: seq<Command>, p: Details -> bool)
    requires AllDetails(s.entries, p) && forall i :: 0 <= i < |cs| ==> Brings(cs[i], p)
    ensures AllDetails(Run(s, cs).entries, p)
    decreases |cs|
  {
    if cs != [] {
      hide Step, AllDetails, Brings;
      StepDetails(s, cs[0], p);
      RunDetails(Step(s, cs[0]).0, cs[1..], p);
    }
  }

  /** What a user may enter so that it can be saved. */
  ghost function Savable(f: Numbers): Details -> bool {
    (d: Details) => TypedDetails(f, d) && Survives(d)
  }

  /** Whatever a user does with savable routes in a fresh program, the saved list comes back as it was. */
  lemma RunReloads(f: Numbers, cs: seq<Command>)
    requires JavaNumbers(f) && Made(State(0, []), cs) <= MAX_INT
    requires forall i :: 0 <= i < |cs| ==> Brings(cs[i], Savable(f))
    ensures RenderableItems(RouteDocs(f, Run(State(0, []), cs).entries))
    ensures Reloaded(f, SavedFile(f, Run(State(0, []), cs).entries)).entries == Run(State(0, []), cs).entries
  {
    var start, end := State(0, []), Run(State(0, []), cs);
    hide Run, Made, JavaNumbers, RouteDocs, RenderableItems, SavedFile, Reloaded, TypedDetails, Survives, Brings;
    RunKeepsGood(start, cs);
    RunDetails(start, cs, Savable(f));
    assert AllTyped(f, end.entries) && AllSurvive(end.entries);
    ReloadRestoresIff(f, end);
  }
}

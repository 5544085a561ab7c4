/**
 The route collection of programming/ProgLab5: identifiers drawn from a static counter, commands over an
 in-place list, and the loader that reads a saved list back. Doubles are reals; ints wrap.
 */
module Routes {
  import opened Wrappers

  const MAX_INT := 0x7fff_ffff
  const MIN_INT := -0x8000_0000

  /** n + 1 as a Java int. */
  function Successor(n: int): int {
    if n == MAX_INT then MIN_INT else n + 1
  }

  datatype Coordinates = Coordinates(x: real, y: int)
  datatype FromLocation = FromLocation(x: real, y: int, z: real, name: string)
  datatype ToLocation = ToLocation(x: int, y: int, z: real)

  /** The fields of a route that the user gives. */
  datatype Details = Details(name: string, coordinates: Coordinates, from: FromLocation, to: ToLocation, distance: real)

  /** What the constructors of Coordinates, Location and Route accept. */
  predicate Acceptable(d: Details) {
    d.coordinates.x > -140.0 && d.from.name != "" && d.name != "" && d.distance > 1.0
  }

  // ----- compareTo

  function CompareReals(a: real, b: real): int {
    if a > b then 1 else if a < b then -1 else 0
  }

  /** String.compareTo from index i on. */
  function CompareStrings(a: string, b: string, i: nat): int
    requires i <= |a| && i <= |b|
    decreases |a| - i
  {
    if i == |a| || i == |b| then |a| - |b|
    else if a[i] != b[i] then a[i] as int - b[i] as int
    else CompareStrings(a, b, i + 1)
  }

  function Square(a: real): real {
    a * a
  }

  // The root is increasing, so moduli compare as their squares.
  function PlaneModulus(c: Coordinates): real { Square(c.x) + Square(c.y as real) }
  function FromModulus(l: FromLocation): real { Square(l.x) + Square(l.y as real) + Square(l.z) }
  function ToModulus(l: ToLocation): real { Square(l.x as real) + Square(l.y as real) + Square(l.z) }

  function CompareFrom(a: FromLocation, b: FromLocation): int {
    var c := CompareReals(FromModulus(a), FromModulus(b));
    if c != 0 then c else CompareStrings(a.name, b.name, 0)
  }

  function Compare(a: Details, b: Details): int {
    if a.distance > b.distance then 1
    else if a.distance < b.distance then -1
    else if CompareReals(PlaneModulus(a.coordinates), PlaneModulus(b.coordinates)) != 0
    then CompareReals(PlaneModulus(a.coordinates), PlaneModulus(b.coordinates))
    else if CompareFrom(a.from, b.from) != 0 then CompareFrom(a.from, b.from)
    else if CompareReals(ToModulus(a.to), ToModulus(b.to)) != 0 then CompareReals(ToModulus(a.to), ToModulus(b.to))
    else CompareStrings(a.name, b.name, 0)
  }

  lemma {:induction false} CompareStringsFlips(a: string, b: string, i: nat)
    requires i <= |a| && i <= |b|
    ensures CompareStrings(a, b, i) == -CompareStrings(b, a, i)
    decreases |a| - i
  {
    if i < |a| && i < |b| && a[i] == b[i] { CompareStringsFlips(a, b, i + 1); }
  }

  lemma {:induction false} CompareStringsTransitive(a: string, b: string, c: string, i: nat)
    requires i <= |a| && i <= |b| && i <= |c|
    requires CompareStrings(a, b, i) <= 0 && CompareStrings(b, c, i) <= 0
    ensures CompareStrings(a, c, i) <= 0
    ensures CompareStrings(a, b, i) < 0 || CompareStrings(b, c, i) < 0 ==> CompareStrings(a, c, i) < 0
    decreases |a| - i
  {
    if i < |a| && i < |b| && i < |c| && a[i] == b[i] && b[i] == c[i] { CompareStringsTransitive(a, b, c, i + 1); }
  }

  lemma CompareFlips(a: Details, b: Details)
    ensures Compare(a, b) == -Compare(b, a)
  {
    hide PlaneModulus, FromModulus, ToModulus, CompareStrings;
    CompareStringsFlips(a.name, b.name, 0);
    CompareStringsFlips(a.from.name, b.from.name, 0);
  }

  lemma CompareTransitive(a: Details, b: Details, c: Details)
    requires Compare(a, b) <= 0 && Compare(b, c) <= 0
    ensures Compare(a, c) <= 0
    ensures Compare(a, b) < 0 || Compare(b, c) < 0 ==> Compare(a, c) < 0
  {
    hide PlaneModulus, FromModulus, ToModulus, CompareStrings;
    if CompareStrings(a.name, b.name, 0) <= 0 && CompareStrings(b.name, c.name, 0) <= 0 {
      CompareStringsTransitive(a.name, b.name, c.name, 0);
    }
    if CompareStrings(a.from.name, b.from.name, 0) <= 0 && CompareStrings(b.from.name, c.from.name, 0) <= 0 {
      CompareStringsTransitive(a.from.name, b.from.name, c.from.name, 0);
    }
  }

  // ----- What compareTo means, key by key

  /** a is a proper start of b, or has the smaller character at the first difference. */
  ghost predicate TextBefore(a: string, b: string) {
    exists k: nat :: k <= |a| && k < |b| && a[..k] == b[..k] && (k == |a| || a[k] < b[k])
  }

  /** Lexicographic: the first of the two pairs of values that differs decides. */
  ghost predicate First(x: real, y: real, rest: bool) {
    x < y || (x == y && rest)
  }

  /**
   The order of routes: by distance, then by the squared distance of the coordinates from the origin, of the start
   from the origin, by the name of the start, by the squared distance of the end, by name.
   */
  ghost predicate Before(a: Details, b: Details) {
    var p, q, s, t, u, v := a.coordinates, b.coordinates, a.from, b.from, a.to, b.to;
    First(a.distance, b.distance,
    First(p.x * p.x + p.y as real * p.y as real, q.x * q.x + q.y as real * q.y as real,
    First(s.x * s.x + s.y as real * s.y as real + s.z * s.z, t.x * t.x + t.y as real * t.y as real + t.z * t.z,
    TextBefore(s.name, t.name) || (s.name == t.name &&
    First(u.x as real * u.x as real + u.y as real * u.y as real + u.z * u.z,
          v.x as real * v.x as real + v.y as real * v.y as real + v.z * v.z,
    TextBefore(a.name, b.name))))))
  }

  lemma {:induction false} CompareStringsMeans(a: string, b: string, i: nat)
    requires i <= |a| && i <= |b| && a[..i] == b[..i]
    ensures CompareStrings(a, b, i) < 0 ==> TextBefore(a, b)
    ensures CompareStrings(a, b, i) > 0 ==> TextBefore(b, a)
    ensures CompareStrings(a, b, i) == 0 ==> a == b
    decreases |a| - i
  {
    if i < |a| && i < |b| && a[i] == b[i] {
      assert a[..i + 1] == a[..i] + [a[i]] && b[..i + 1] == b[..i] + [b[i]];
      CompareStringsMeans(a, b, i + 1);
    } else if i == |a| == |b| {
      assert a == a[..i] && b == b[..i];
    }
  }

  /** Of two texts at most one is before the other, and none before itself. */
  lemma TextBeforeOneWay(a: string, b: string)
    requires TextBefore(a, b)
    ensures !TextBefore(b, a)
  {
    var k: nat :| k <= |a| && k < |b| && a[..k] == b[..k] && (k == |a| || a[k] < b[k]);
    forall l: nat | l <= |b| && l < |a| && b[..l] == a[..l] ensures !(l == |b| || b[l] < a[l]) {
      if l < k { assert a[l] == a[..k][l] == b[..k][l] == b[l]; }
    }
  }

  lemma CompareStringsIff(a: string, b: string)
    ensures CompareStrings(a, b, 0) < 0 <==> TextBefore(a, b)
    ensures CompareStrings(a, b, 0) > 0 <==> TextBefore(b, a)
    ensures CompareStrings(a, b, 0) == 0 <==> a == b
  {
    CompareStringsMeans(a, b, 0);
    hide TextBefore;
    if TextBefore(a, b) { TextBeforeOneWay(a, b); }
    if TextBefore(b, a) { TextBeforeOneWay(b, a); }
  }

  /** compareTo is negative for the route before and positive for the route after. */
  lemma CompareIsOrder(a: Details, b: Details)
    ensures Compare(a, b) < 0 <==> Before(a, b)
    ensures Compare(a, b) > 0 <==> Before(b, a)
  {
    hide CompareStrings, TextBefore;
    CompareStringsIff(a.name, b.name);
    CompareStringsIff(a.from.name, b.from.name);
    CompareStringsIff(b.name, a.name);
    CompareStringsIff(b.from.name, a.from.name);
  }

  // ----- The collection as a value

  datatype Entry = Entry(id: int, details: Details)

  datatype State = State(instances: int, entries: seq<Entry>)

  datatype Command =
    | Add(d: Details)
    | Update(id: Option<int>, d: Details)
    | RemoveById(id: Option<int>)
    | AddIfMax(d: Details)
    | RemoveGreater(d: Details)
    | RemoveLower(d: Details)
    | RemoveAnyByDistance(distance: Option<real>)
    | Clear

  datatype Outcome = Done | Missing | Threw

  /** The first entry with the given id, or the length. */
  function IndexOf(es: seq<Entry>, id: int, i: nat): (j: nat)
    requires i <= |es|
    ensures i <= j <= |es| && (j < |es| ==> es[j].id == id) && forall k :: i <= k < j ==> es[k].id != id
    decreases |es| - i
  {
    if i == |es| || es[i].id == id then i else IndexOf(es, id, i + 1)
  }

  predicate Near(a: real, b: real) {
    -0.00000001 < a - b < 0.00000001
  }

  function IndexNear(es: seq<Entry>, x: real, i: nat): (j: nat)
    requires i <= |es|
    ensures i <= j <= |es| && (j < |es| ==> Near(es[j].details.distance, x))
    ensures forall k :: i <= k < j ==> !Near(es[k].details.distance, x)
    decreases |es| - i
  {
    if i == |es| || Near(es[i].details.distance, x) then i else IndexNear(es, x, i + 1)
  }

  /** The distance of the route is less than e away from x. */
  ghost predicate Within(r: Entry, x: real, e: real) {
    x - e < r.details.distance < x + e
  }

  ghost predicate FirstWithin(es: seq<Entry>, i: nat, x: real, e: real) {
    i < |es| && Within(es[i], x, e) && forall k :: 0 <= k < i ==> !Within(es[k], x, e)
  }

  function Without(es: seq<Entry>, i: nat): seq<Entry>
    requires i < |es|
  {
    es[..i] + es[i + 1..]
  }

  /** The entries that satisfy keep, in their order. */
  function Filter(es: seq<Entry>, keep: Entry -> bool): seq<Entry> {
    if es == [] then [] else (if keep(es[0]) then [es[0]] else []) + Filter(es[1..], keep)
  }

  function GreaterThan(d: Details): Details -> bool {
    (x: Details) => Compare(d, x) < 0
  }

  function LowerThan(d: Details): Details -> bool {
    (x: Details) => Compare(d, x) > 0
  }

  function Kept(drop: Details -> bool): Entry -> bool {
    (e: Entry) => !drop(e.details)
  }

  /** Collections.max: the first of the greatest among the first n. */
  function Greatest(es: seq<Entry>, n: nat): (m: Details)
    requires 1 <= n <= |es|
    ensures exists i :: 0 <= i < n && es[i].details == m
  {
    if n == 1 then es[0].details
    else
      var m := Greatest(es, n - 1);
      if Compare(es[n - 1].details, m) > 0 then es[n - 1].details else m
  }

  /** A command on the collection. A route that is made takes the next id even when it is not stored. */
  function Step(s: State, c: Command): (State, Outcome) {
    match c
    case Add(d) =>
      if !Acceptable(d) then (s, Threw)
      else (State(Successor(s.instances), s.entries + [Entry(Successor(s.instances), d)]), Done)
    case Update(id, d) =>
      if s.entries == [] then (s, Missing)
      else if id.None? then (s, Threw)
      else
        var i := IndexOf(s.entries, id.value, 0);
        if i == |s.entries| then (s, Missing)
        else if !Acceptable(d) then (s, Threw)
        else (State(Successor(s.instances), s.entries[i := Entry(s.entries[i].id, d)]), Done)
    case RemoveById(id) =>
      if s.entries == [] then (s, Missing)
      else if id.None? then (s, Threw)
      else
        var i := IndexOf(s.entries, id.value, 0);
        if i == |s.entries| then (s, Missing) else (s.(entries := Without(s.entries, i)), Done)
    case AddIfMax(d) =>
      if !Acceptable(d) then (s, Threw)
      else
        var made := s.(instances := Successor(s.instances));
        if s.entries == [] then (made, Threw)
        else if Compare(d, Greatest(s.entries, |s.entries|)) > 0
        then (made.(entries := s.entries + [Entry(Successor(s.instances), d)]), Done)
        else (made, Missing)
    case RemoveGreater(d) =>
      if !Acceptable(d) then (s, Threw)
      else (State(Successor(s.instances), Filter(s.entries, Kept(GreaterThan(d)))), Done)
    case RemoveLower(d) =>
      if !Acceptable(d) then (s, Threw)
      else (State(Successor(s.instances), Filter(s.entries, Kept(LowerThan(d)))), Done)
    case RemoveAnyByDistance(x) =>
      if s.entries == [] then (s, Missing)
      else if x.None? then (s, Threw)
      else
        var i := IndexNear(s.entries, x.value, 0);
        if i == |s.entries| then (s, Missing) else (s.(entries := Without(s.entries, i)), Done)
    case Clear => (s.(entries := []), Done)
  }

  // ----- What every command keeps

  /** Ids are positive, strictly increasing and at most the counter; all details are acceptable. */
  ghost predicate Good(s: State) {
    && 0 <= s.instances <= MAX_INT
    && Increasing(s.entries)
    && forall i :: 0 <= i < |s.entries| ==> 0 < s.entries[i].id <= s.instances && Acceptable(s.entries[i].details)
  }

  ghost predicate Increasing(es: seq<Entry>) {
    forall i, j :: 0 <= i < j < |es| ==> es[i].id < es[j].id
  }

  /** Whether the command makes a route. */
  predicate Makes(s: State, c: Command) {
    match c
    case Add(d) => Acceptable(d)
    case Update(id, d) =>
      id.Some? && IndexOf(s.entries, id.value, 0) < |s.entries| && Acceptable(d)
    case AddIfMax(d) => Acceptable(d)
    case RemoveGreater(d) => Acceptable(d)
    case RemoveLower(d) => Acceptable(d)
    case _ => false
  }

  lemma {:induction false} FilterKeeps(es: seq<Entry>, keep: Entry -> bool)
    ensures forall e :: e in Filter(es, keep) <==> e in es && keep(e)
    ensures Increasing(es) ==> Increasing(Filter(es, keep))
  {
    if es != [] {
      FilterKeeps(es[1..], keep);
      assert es == [es[0]] + es[1..];
      if Increasing(es) { FilterIncreasing(es, Filter(es[1..], keep)); }
    }
  }

  lemma FilterIncreasing(es: seq<Entry>, rest: seq<Entry>)
    requires es != [] && Increasing(es) && Increasing(rest) && forall e :: e in rest ==> e in es[1..]
    ensures Increasing([es[0]] + rest)
  {
    forall i | 0 <= i < |rest| ensures es[0].id < rest[i].id {
      assert rest[i] in rest && rest[i] in es[1..];
      var k :| 0 <= k < |es[1..]| && es[1..][k] == rest[i];
      assert es[1..][k] == es[k + 1];
    }
  }

  lemma StepCounts(s: State, c: Command)
    ensures Step(s, c).0.instances == if Makes(s, c) then Successor(s.instances) else s.instances
  {
    hide Compare, Greatest, Filter;
  }

  /** A good collection stays good unless a route is made when the counter has reached its last value. */
  lemma StepKeepsGood(s: State, c: Command)
    requires Good(s)
    ensures Good(Step(s, c).0) <==> !(Makes(s, c) && s.instances == MAX_INT)
  {
    StepCounts(s, c);
    GoodRange(s);
    hide Step, Makes;
    if !(Makes(s, c) && s.instances == MAX_INT) { StepWithRoom(s, c); }
  }

  lemma StepWithRoom(s: State, c: Command)
    requires Good(s) && !(Makes(s, c) && s.instances == MAX_INT)
    ensures Good(Step(s, c).0)
  {
    GoodRange(s);
    hide Compare, Greatest, Good, Filter, Acceptable, IndexOf, IndexNear;
    match c
    case Add(d) => if Acceptable(d) { AppendGood(s, d); }
    case Update(id, d) => if Makes(s, c) { ReplaceGood(s, IndexOf(s.entries, id.value, 0), d); }
    case RemoveById(id) => if id.Some? { WithoutGood(s, IndexOf(s.entries, id.value, 0)); }
    case AddIfMax(d) =>
      if Acceptable(d) {
        AppendGood(s, d);
        CounterGood(s);
      }
    case RemoveGreater(d) => if Acceptable(d) { FilterGood(s, Kept(GreaterThan(d))); }
    case RemoveLower(d) => if Acceptable(d) { FilterGood(s, Kept(LowerThan(d))); }
    case RemoveAnyByDistance(x) => if x.Some? { WithoutGood(s, IndexNear(s.entries, x.value, 0)); }
    case Clear => ClearGood(s);
  }

  lemma CounterGood(s: State)
    requires Good(s) && s.instances < MAX_INT
    ensures Good(s.(instances := s.instances + 1))
  {
  }

  lemma AppendGood(s: State, d: Details)
    requires Good(s) && s.instances < MAX_INT && Acceptable(d)
    ensures Good(State(s.instances + 1, s.entries + [Entry(s.instances + 1, d)]))
  {
  }

  lemma ReplaceGood(s: State, i: nat, d: Details)
    requires Good(s) && s.instances < MAX_INT && i < |s.entries| && Acceptable(d)
    ensures Good(State(s.instances + 1, s.entries[i := Entry(s.entries[i].id, d)]))
  {
  }

  lemma WithoutGood(s: State, i: nat)
    requires Good(s)
    ensures i < |s.entries| ==> Good(s.(entries := Without(s.entries, i)))
  {
  }

  lemma ClearGood(s: State)
    requires Good(s)
    ensures Good(s.(entries := []))
  {
  }

  lemma FilterGood(s: State, keep: Entry -> bool)
    requires Good(s) && s.instances < MAX_INT
    ensures Good(State(s.instances + 1, Filter(s.entries, keep)))
  {
    FilterKeeps(s.entries, keep);
    var f := Filter(s.entries, keep);
    forall i | 0 <= i < |f| ensures 0 < f[i].id <= s.instances && Acceptable(f[i].details) {
      assert f[i] in s.entries;
    }
  }

  function Run(s: State, cs: seq<Command>): State
    decreases |cs|
  {
    if cs == [] then s else Run(Step(s, cs[0]).0, cs[1..])
  }

  /** The number of routes that a run makes. */
  function Made(s: State, cs: seq<Command>): nat
    decreases |cs|
  {
    if cs == [] then 0 else (if Makes(s, cs[0]) then 1 else 0) + Made(Step(s, cs[0]).0, cs[1..])
  }

  ghost predicate GoodThroughout(s: State, cs: seq<Command>)
    decreases |cs|
  {
    Good(s) && (cs != [] ==> GoodThroughout(Step(s, cs[0]).0, cs[1..]))
  }

  /** A run keeps the collection good at every moment if and only if the counter has room for all routes it makes. */
  lemma {:induction false} RunKeepsGood(s: State, cs: seq<Command>)
    requires Good(s)
    ensures GoodThroughout(s, cs) <==> s.instances + Made(s, cs) <= MAX_INT
    ensures GoodThroughout(s, cs) ==> Good(Run(s, cs)) && Run(s, cs).instances == s.instances + Made(s, cs)
    decreases |cs|
  {
    if cs != [] {
      hide Step, Makes, Good;
      StepKeepsGood(s, cs[0]);
      StepCounts(s, cs[0]);
      GoodRange(s);
      if Good(Step(s, cs[0]).0) { RunKeepsGood(Step(s, cs[0]).0, cs[1..]); }
    }
  }

  lemma GoodRange(s: State)
    requires Good(s)
    ensures 0 <= s.instances <= MAX_INT
  {
  }

  /** add_if_max stores the route exactly when it is greater than every route of the collection. */
  lemma {:induction false} GreaterThanGreatest(es: seq<Entry>, n: nat, d: Details)
    requires 1 <= n <= |es|
    ensures Compare(d, Greatest(es, n)) > 0 <==> forall i :: 0 <= i < n ==> Compare(d, es[i].details) > 0
    decreases n
  {
    hide Compare;
    if n > 1 {
      GreaterThanGreatest(es, n - 1, d);
      var m, last := Greatest(es, n - 1), es[n - 1].details;
      CompareFlips(d, m);
      CompareFlips(d, last);
      CompareFlips(last, m);
      if Compare(last, m) > 0 {
        if Compare(d, last) > 0 { CompareTransitive(m, last, d); }
      } else {
        if Compare(d, m) > 0 { CompareTransitive(last, m, d); }
      }
    }
  }

  // ----- What the comparing commands do, in terms of the order

  ghost function NotAfter(d: Details): Entry -> bool {
    (e: Entry) => !Before(d, e.details)
  }

  ghost function NotBefore(d: Details): Entry -> bool {
    (e: Entry) => !Before(e.details, d)
  }

  function Shorter(x: real): Entry -> bool {
    (e: Entry) => e.details.distance < x
  }

  function Longer(x: real): Entry -> bool {
    (e: Entry) => e.details.distance > x
  }

  lemma {:induction false} FilterCongruent(es: seq<Entry>, p: Entry -> bool, q: Entry -> bool)
    requires forall e :: p(e) == q(e)
    ensures Filter(es, p) == Filter(es, q)
  {
    if es != [] { FilterCongruent(es[1..], p, q); }
  }

  lemma FilterFirst(es: seq<Entry>, p: Entry -> bool)
    requires es != []
    ensures Filter(es, p) == (if p(es[0]) then [es[0]] else []) + Filter(es[1..], p)
  {
  }

  lemma FilterMore(e: Entry, rest: seq<Entry>, p: Entry -> bool)
    ensures Filter([e] + rest, p) == (if p(e) then [e] else []) + Filter(rest, p)
  {
    assert ([e] + rest)[1..] == rest;
  }

  lemma {:induction false} FilterTwice(es: seq<Entry>, p: Entry -> bool, q: Entry -> bool)
    requires forall e :: q(e) ==> p(e)
    ensures Filter(Filter(es, p), q) == Filter(es, q)
  {
    if es != [] {
      FilterTwice(es[1..], p, q);
      FilterFirst(es, p);
      FilterFirst(es, q);
      FilterMore(es[0], Filter(es[1..], p), q);
      hide Filter;
      if !p(es[0]) { assert !q(es[0]) && [] + Filter(es[1..], p) == Filter(es[1..], p); }
    }
  }

  /**
   remove_greater keeps exactly the routes that are not after the given one, in order: none that is longer is left,
   and the shorter ones stay as they are.
   */
  lemma RemoveGreaterKeeps(s: State, d: Details)
    requires Acceptable(d)
    ensures var kept := Step(s, RemoveGreater(d)).0.entries;
            && kept == Filter(s.entries, NotAfter(d))
            && (forall e :: e in kept ==> e.details.distance <= d.distance)
            && Filter(kept, Shorter(d.distance)) == Filter(s.entries, Shorter(d.distance))
  {
    forall e: Entry ensures Kept(GreaterThan(d))(e) == NotAfter(d)(e) { CompareIsOrder(d, e.details); }
    FilterCongruent(s.entries, Kept(GreaterThan(d)), NotAfter(d));
    FilterKeeps(s.entries, NotAfter(d));
    FilterTwice(s.entries, NotAfter(d), Shorter(d.distance));
  }

  lemma RemoveLowerKeeps(s: State, d: Details)
    requires Acceptable(d)
    ensures var kept := Step(s, RemoveLower(d)).0.entries;
            && kept == Filter(s.entries, NotBefore(d))
            && (forall e :: e in kept ==> e.details.distance >= d.distance)
            && Filter(kept, Longer(d.distance)) == Filter(s.entries, Longer(d.distance))
  {
    forall e: Entry ensures Kept(LowerThan(d))(e) == NotBefore(d)(e) { CompareIsOrder(d, e.details); }
    FilterCongruent(s.entries, Kept(LowerThan(d)), NotBefore(d));
    FilterKeeps(s.entries, NotBefore(d));
    FilterTwice(s.entries, NotBefore(d), Longer(d.distance));
  }

  /** add_if_max stores the route exactly when all others are before it: always if it is longer than all, and never if one is longer. */
  lemma AddIfMaxStores(s: State, d: Details)
    requires Acceptable(d) && s.entries != []
    ensures var after := Step(s, AddIfMax(d)).0.entries;
            && after == s.entries + (if forall e :: e in s.entries ==> Before(e.details, d)
                                     then [Entry(Successor(s.instances), d)] else [])
            && ((forall e :: e in s.entries ==> e.details.distance < d.distance) ==> after == s.entries + [Entry(Successor(s.instances), d)])
            && ((exists e :: e in s.entries && e.details.distance > d.distance) ==> after == s.entries)
  {
    var es := s.entries;
    GreaterThanGreatest(es, |es|, d);
    forall i | 0 <= i < |es| ensures Compare(d, es[i].details) > 0 <==> Before(es[i].details, d) { CompareIsOrder(d, es[i].details); }
    forall e: Entry ensures e.details.distance < d.distance ==> Before(e.details, d) { }
    forall e: Entry ensures e.details.distance > d.distance ==> !Before(e.details, d) { }
    hide Compare, Before, Greatest;
    assert forall e :: e in es ==> exists i :: 0 <= i < |es| && es[i] == e;
  }

  // ----- The collection in place

  class Route {
    const id: int
    var details: Details

    constructor (id: int, details: Details)
      ensures this.id == id && this.details == details
    {
      this.id := id;
      this.details := details;
    }
  }

  function EntriesOf(data: seq<Route>): (es: seq<Entry>)
    reads data
    ensures |es| == |data| && forall i :: 0 <= i < |data| ==> es[i] == Entry(data[i].id, data[i].details)
  {
    if data == [] then [] else [Entry(data[0].id, data[0].details)] + EntriesOf(data[1..])
  }

  class Collection {
    var instances: int
    var data: seq<Route>

    ghost predicate Valid()
      reads this
    {
      forall i, j :: 0 <= i < j < |data| ==> data[i] != data[j]
    }

    ghost function View(): State
      reads this, data
    {
      State(instances, EntriesOf(data))
    }

    constructor ()
      ensures Valid() && View() == State(0, [])
    {
      instances := 0;
      data := [];
    }

    /** The constructor that draws the next id; a rejected field raises before the counter moves. */
    method NewRoute(d: Details) returns (r: Option<Route>)
      modifies this`instances
      ensures r.Some? == Acceptable(d)
      ensures r.None? <==> d.coordinates.x <= -140.0 || d.from.name == "" || d.name == "" || d.distance <= 1.0
      ensures r.Some? ==> fresh(r.value) && r.value.id == Successor(old(instances)) == instances && r.value.details == d
      ensures r.None? ==> instances == old(instances)
    {
      if !Acceptable(d) { return None; }
      var route := new Route(Successor(instances), d);
      instances := Successor(instances);
      r := Some(route);
    }

    method AddRoute(d: Details) returns (o: Outcome)
      requires Valid()
      modifies this
      ensures Valid() && (View(), o) == Step(old(View()), Add(d))
    {
      hide EntriesOf, Acceptable;
      ghost var es := EntriesOf(data);
      var r := NewRoute(d);
      if r.None? { return Threw; }
      data := data + [r.value];
      assert EntriesOf(data) == es + [Entry(instances, d)];
      o := Done;
    }

    method UpdateRoute(id: Option<int>, d: Details) returns (o: Outcome)
      requires Valid()
      modifies this, data
      ensures Valid() && (View(), o) == Step(old(View()), Update(id, d))
    {
      hide EntriesOf;
      ghost var es := EntriesOf(data);
      for i := 0 to |data|
        invariant View() == old(View()) && data == old(data)
        invariant i > 0 ==> id.Some?
        invariant id.Some? ==> IndexOf(es, id.value, 0) == IndexOf(es, id.value, i)
      {
        if id.None? { return Threw; }
        if data[i].id == id.value {
          var r := NewRoute(d);
          if r.None? { return Threw; }
          data[i].details := r.value.details;
          assert EntriesOf(data) == es[i := Entry(es[i].id, d)];
          return Done;
        }
      }
      o := Missing;
    }

    method RemoveRouteById(id: Option<int>) returns (o: Outcome)
      requires Valid()
      modifies this
      ensures Valid() && (View(), o) == Step(old(View()), RemoveById(id))
    {
      hide EntriesOf;
      ghost var es := EntriesOf(data);
      for i := 0 to |data|
        invariant View() == old(View()) && data == old(data)
        invariant i > 0 ==> id.Some?
        invariant id.Some? ==> IndexOf(es, id.value, 0) == IndexOf(es, id.value, i)
      {
        if id.None? { return Threw; }
        if data[i].id == id.value {
          RemoveAt(i);
          return Done;
        }
      }
      o := Missing;
    }

    /** data.remove(i) */
    method RemoveAt(i: nat)
      requires Valid() && i < |data|
      modifies this`data
      ensures Valid() && data == old(data[..i]) + old(data[i + 1..])
      ensures EntriesOf(data) == Without(old(EntriesOf(data)), i)
    {
      data := data[..i] + data[i + 1..];
    }

    method AddRouteIfMax(d: Details) returns (o: Outcome)
      requires Valid()
      modifies this
      ensures Valid() && (View(), o) == Step(old(View()), AddIfMax(d))
    {
      hide Compare, EntriesOf;
      ghost var es := EntriesOf(data);
      var r := NewRoute(d);
      if r.None? { return Threw; }
      if |data| == 0 { return Threw; }
      var max := MaxRoute();
      if Compare(r.value.details, max) > 0 {
        data := data + [r.value];
        assert EntriesOf(data) == es + [Entry(instances, d)];
        o := Done;
      } else {
        o := Missing;
      }
    }

    /** Collections.max */
    method MaxRoute() returns (max: Details)
      requires |data| > 0
      ensures max == Greatest(EntriesOf(data), |data|)
    {
      hide Compare, EntriesOf;
      max := data[0].details;
      for i := 1 to |data|
        invariant max == Greatest(EntriesOf(data), i)
      {
        if Compare(data[i].details, max) > 0 { max := data[i].details; }
      }
    }

    /** From the end of the list to its start, every route that satisfies drop is removed. */
    method RemoveWhere(drop: Details -> bool)
      requires Valid()
      modifies this`data
      ensures Valid() && EntriesOf(data) == Filter(old(EntriesOf(data)), Kept(drop))
    {
      hide EntriesOf, Filter;
      ghost var es := EntriesOf(data);
      ghost var keep := Kept(drop);
      var i := |data| - 1;
      NothingFiltered(es, keep);
      while i >= 0
        invariant -1 <= i < |data| && Valid() && i < |es|
        invariant EntriesOf(data) == es[..i + 1] + Filter(es[i + 1..], keep)
      {
        FilterDownStep(es, i, keep);
        assert EntriesOf(data)[i] == es[i];
        if drop(data[i].details) { RemoveAt(i); }
        i := i - 1;
      }
      assert es[..0] + Filter(es[0..], keep) == Filter(es[0..], keep) && es[0..] == es;
    }

    method RemoveGreaterRoutes(d: Details) returns (o: Outcome)
      requires Valid()
      modifies this
      ensures Valid() && (View(), o) == Step(old(View()), RemoveGreater(d))
    {
      hide Compare, EntriesOf, Filter, Kept;
      var r := NewRoute(d);
      if r.None? { return Threw; }
      RemoveWhere(GreaterThan(r.value.details));
      o := Done;
    }

    method RemoveLowerRoutes(d: Details) returns (o: Outcome)
      requires Valid()
      modifies this
      ensures Valid() && (View(), o) == Step(old(View()), RemoveLower(d))
    {
      hide Compare, EntriesOf, Filter, Kept;
      var r := NewRoute(d);
      if r.None? { return Threw; }
      RemoveWhere(LowerThan(r.value.details));
      o := Done;
    }

    method RemoveRouteByDistance(x: Option<real>) returns (o: Outcome)
      requires Valid()
      modifies this
      ensures Valid() && (View(), o) == Step(old(View()), RemoveAnyByDistance(x))
      ensures o.Done? ==> x.Some? && exists i: nat :: FirstWithin(old(EntriesOf(data)), i, x.value, 0.00000001)
                                                   && EntriesOf(data) == Without(old(EntriesOf(data)), i)
      ensures o.Missing? && x.Some? ==> forall i :: 0 <= i < |old(data)| ==> !Within(old(EntriesOf(data))[i], x.value, 0.00000001)
    {
      hide EntriesOf;
      ghost var es := EntriesOf(data);
      for i := 0 to |data|
        invariant View() == old(View()) && data == old(data)
        invariant i > 0 ==> x.Some?
        invariant x.Some? ==> IndexNear(es, x.value, 0) == IndexNear(es, x.value, i)
      {
        if x.None? { return Threw; }
        if Near(data[i].details.distance, x.value) {
          RemoveAt(i);
          return Done;
        }
      }
      o := Missing;
    }

    /** The constructor that is given an id, and the list it is added to; a rejected object changes nothing. */
    method TakeSaved(o: Saved)
      requires Valid()
      modifies this
      ensures Valid() && View() == LoadOne(old(View()), o)
    {
      hide EntriesOf, Acceptable;
      ghost var es := EntriesOf(data);
      if o.Some? && Acceptable(o.value.details) && o.value.id > instances {
        var route := new Route(o.value.id, o.value.details);
        instances := o.value.id;
        data := data + [route];
        assert EntriesOf(data) == es + [o.value];
      }
    }

    method ClearRoutes() returns (o: Outcome)
      modifies this
      ensures Valid() && (View(), o) == Step(old(View()), Clear)
    {
      data := [];
      o := Done;
    }
  }

  lemma NothingFiltered(es: seq<Entry>, keep: Entry -> bool)
    ensures es[..|es|] + Filter(es[|es|..], keep) == es
  {
  }

  /** Going down from the end, position i is kept or dropped. */
  lemma FilterDownStep(es: seq<Entry>, i: nat, keep: Entry -> bool)
    requires i < |es|
    ensures keep(es[i]) ==> es[..i] + Filter(es[i..], keep) == es[..i + 1] + Filter(es[i + 1..], keep)
    ensures !keep(es[i]) ==> es[..i] + Filter(es[i..], keep) == Without(es[..i + 1] + Filter(es[i + 1..], keep), i)
  {
    assert es[i..][0] == es[i] && es[i..][1..] == es[i + 1..];
  }

  // ----- Loading a saved list

  /** A saved object: its id and fields, or None when a field is missing. */
  type Saved = Option<Entry>

  /** The loader: an object is taken when its fields are acceptable and its id is above the counter. */
  function Load(s: State, objects: seq<Saved>): State
    decreases |objects|
  {
    if objects == [] then s else Load(LoadOne(s, objects[0]), objects[1..])
  }

  function LoadOne(s: State, o: Saved): State {
    if o.Some? && Acceptable(o.value.details) && o.value.id > s.instances
    then State(o.value.id, s.entries + [o.value]) else s
  }

  method ConvertToList(objects: seq<Saved>) returns (c: Collection)
    ensures c.Valid() && c.View() == Load(State(0, []), objects)
  {
    hide EntriesOf, Acceptable;
    c := new Collection();
    for i := 0 to |objects|
      invariant c.Valid() && fresh(c) && Load(State(0, []), objects) == Load(c.View(), objects[i..])
    {
      LoadNext(c.View(), objects, i);
      c.TakeSaved(objects[i]);
    }
  }

  lemma LoadNext(s: State, objects: seq<Saved>, i: nat)
    requires i < |objects|
    ensures Load(s, objects[i..]) == Load(LoadOne(s, objects[i]), objects[i + 1..])
  {
    assert objects[i..][1..] == objects[i + 1..];
  }

  function SavedForm(es: seq<Entry>): seq<Saved> {
    seq(|es|, i requires 0 <= i < |es| => Some(es[i]))
  }

  ghost predicate LoadableFrom(inst: int, es: seq<Entry>) {
    && Increasing(es)
    && forall i :: 0 <= i < |es| ==> es[i].id > inst && Acceptable(es[i].details)
  }

  lemma {:induction false} LoadGrows(s: State, objects: seq<Saved>)
    ensures |Load(s, objects).entries| <= |s.entries| + |objects|
    decreases |objects|
  {
    if objects != [] { LoadGrows(LoadOne(s, objects[0]), objects[1..]); }
  }

  /** Everything is taken, in order, if and only if the ids rise from above the counter and all fields are acceptable. */
  lemma {:induction false} LoadTakesAllIff(s: State, es: seq<Entry>)
    ensures |Load(s, SavedForm(es)).entries| == |s.entries| + |es| <==> LoadableFrom(s.instances, es)
    ensures LoadableFrom(s.instances, es) ==>
      Load(s, SavedForm(es)) == State(if es == [] then s.instances else es[|es| - 1].id, s.entries + es)
    decreases |es|
  {
    if es == [] {
      assert s.entries + es == s.entries;
    } else {
      var next := LoadOne(s, Some(es[0]));
      assert SavedForm(es)[1..] == SavedForm(es[1..]);
      LoadTakesAllIff(next, es[1..]);
      LoadGrows(next, SavedForm(es[1..]));
      LoadableUnfolds(s.instances, es);
      if LoadableFrom(s.instances, es) {
        assert s.entries + [es[0]] + es[1..] == s.entries + es;
      }
    }
  }

  lemma LoadableUnfolds(inst: int, es: seq<Entry>)
    requires es != []
    ensures LoadableFrom(inst, es) <==> es[0].id > inst && Acceptable(es[0].details) && LoadableFrom(es[0].id, es[1..])
  {
    if es[0].id > inst && Acceptable(es[0].details) && LoadableFrom(es[0].id, es[1..]) {
      forall i | 0 <= i < |es| ensures es[i].id > inst && Acceptable(es[i].details) {
        if i > 0 { assert es[i] == es[1..][i - 1]; }
      }
      forall i, j | 0 <= i < j < |es| ensures es[i].id < es[j].id {
        assert es[j] == es[1..][j - 1];
        if i > 0 { assert es[i] == es[1..][i - 1]; }
      }
    }
    if LoadableFrom(inst, es) {
      forall i | 0 <= i < |es[1..]| ensures es[1..][i].id > es[0].id && Acceptable(es[1..][i].details) {
        assert es[1..][i] == es[i + 1];
      }
      assert Increasing(es[1..]);
    }
  }

  /** The loader gives a good collection back when it gets all its objects as they were. */
  lemma LoaderRestores(s: State)
    requires Good(s)
    ensures Load(State(0, []), SavedForm(s.entries)).entries == s.entries
    ensures 0 <= Load(State(0, []), SavedForm(s.entries)).instances <= s.instances
    ensures Good(Load(State(0, []), SavedForm(s.entries)))
  {
    hide Acceptable, Load, SavedForm, LoadableFrom;
    GoodLoads(s);
    LoadTakesAllIff(State(0, []), s.entries);
    assert [] + s.entries == s.entries;
  }

  /** When nothing is rejected the list consists of the objects themselves. */
  lemma {:induction false} LoadIsObjects(s: State, objects: seq<Saved>)
    ensures |Load(s, objects).entries| == |s.entries| + |objects| ==>
      forall i :: 0 <= i < |objects| ==> objects[i] == Some(Load(s, objects).entries[|s.entries| + i])
    ensures |s.entries| <= |Load(s, objects).entries| && Load(s, objects).entries[..|s.entries|] == s.entries
    decreases |objects|
  {
    hide Acceptable;
    if objects != [] {
      var next, rest := LoadOne(s, objects[0]), objects[1..];
      LoadIsObjects(next, rest);
      LoadGrows(next, rest);
      var es := Load(s, objects).entries;
      assert es[..|s.entries|] == es[..|next.entries|][..|s.entries|] == s.entries;
      if |es| == |s.entries| + |objects| {
        assert es[|s.entries|] == es[..|next.entries|][|s.entries|];
        forall i | 0 <= i < |objects| ensures objects[i] == Some(es[|s.entries| + i]) {
          if i > 0 { assert objects[i] == rest[i - 1]; }
        }
      }
    }
  }

  /** A good collection is loaded as it was exactly when every object is as it was. */
  lemma LoadKeepsIff(s: State, objects: seq<Saved>)
    requires Good(s) && |objects| == |s.entries|
    ensures Load(State(0, []), objects).entries == s.entries <==> forall i :: 0 <= i < |objects| ==> objects[i] == Some(s.entries[i])
    ensures Load(State(0, []), objects).entries == s.entries ==> Good(Load(State(0, []), objects))
  {
    hide Load, Good;
    LoadIsObjects(State(0, []), objects);
    if forall i :: 0 <= i < |objects| ==> objects[i] == Some(s.entries[i]) {
      assert objects == SavedForm(s.entries);
      LoaderRestores(s);
    }
  }

  lemma GoodLoads(s: State)
    requires Good(s)
    ensures LoadableFrom(0, s.entries)
  {
  }

  /** Objects that cannot be extracted are skipped, the others are taken in order. */
  lemma {:induction false} LoadFilters(s: State, es: seq<Entry>, objects: seq<Saved>, keep: Entry -> bool)
    requires LoadableFrom(s.instances, es) && |objects| == |es|
    requires forall i :: 0 <= i < |es| ==> objects[i] == if keep(es[i]) then Some(es[i]) else None
    ensures Load(s, objects).entries == s.entries + Filter(es, keep)
    decreases |es|
  {
    if es != [] {
      var next := LoadOne(s, objects[0]);
      LoadableUnfolds(s.instances, es);
      LoadableLater(s.instances, es);
      var head := if keep(es[0]) then [es[0]] else [];
      assert next.entries == s.entries + head && LoadableFrom(next.instances, es[1..]);
      assert Load(s, objects) == Load(next, objects[1..]) && Filter(es, keep) == head + Filter(es[1..], keep);
      hide LoadableFrom, Acceptable, Load, LoadOne, Filter;
      LoadFilters(next, es[1..], objects[1..], keep);
      assert s.entries + head + Filter(es[1..], keep) == s.entries + (head + Filter(es[1..], keep));
    }
  }

  lemma LoadableLater(inst: int, es: seq<Entry>)
    requires es != [] && LoadableFrom(inst, es)
    ensures LoadableFrom(inst, es[1..])
  {
  }
}

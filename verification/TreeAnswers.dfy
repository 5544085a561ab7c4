/**
 What a tree of ai/mod2/k-means-tree/tree.py answers for a row, with or without a depth limit, said by counting
 labels over the rows that agree with it on the columns tested on its way down.
 */
module TreeAnswers {
  import opened Wrappers
  import opened KMeans
  import opened ClusterTree

  // ----- The way of a row

  predicate Descends(t: Tree, x: Vector) {
    t.childAttr.Some? && t.childAttr.value < |x| && x[t.childAttr.value] in t.nodes
  }

  /** The columns tested on the way down, in order. */
  function Path(t: Tree, x: Vector): seq<nat> {
    if Descends(t, x) then [t.childAttr.value] + Path(t.nodes[x[t.childAttr.value]], x) else []
  }

  /** The node at which the way ends. */
  function End(t: Tree, x: Vector): Tree {
    if Descends(t, x) then End(t.nodes[x[t.childAttr.value]], x) else t
  }

  lemma {:induction false} LookupAtEnd(t: Tree, x: Vector)
    ensures Lookup(t, x) == End(t, x).cluster && Steps(t, x) == |Path(t, x)| && !Descends(End(t, x), x)
  {
    if Descends(t, x) { LookupAtEnd(t.nodes[x[t.childAttr.value]], x); }
  }

  function Elements(p: seq<nat>): set<nat> {
    set a | a in p
  }

  // ----- Counting labels

  /** How many of the first n rows agree with x on s and have label c. */
  ghost function Tally(rows: seq<Vector>, labels: seq<nat>, x: Vector, s: set<nat>, c: nat, d: nat, n: nat): nat
    requires |rows| == |labels| && n <= |rows| && Rows(rows, d) && |x| == d
  {
    if n == 0 then 0
    else Tally(rows, labels, x, s, c, d, n - 1) + if Agree(rows[n - 1], x, s, d) && labels[n - 1] == c then 1 else 0
  }

  ghost function Votes(rows: seq<Vector>, labels: seq<nat>, x: Vector, s: set<nat>, c: nat, d: nat): nat
    requires |rows| == |labels| && Rows(rows, d) && |x| == d
  {
    Tally(rows, labels, x, s, c, d, |rows|)
  }

  /** Of the labels of the rows that agree with x on s, c is the most frequent, and the smallest of several. */
  ghost predicate Wins(rows: seq<Vector>, labels: seq<nat>, x: Vector, s: set<nat>, c: nat, d: nat)
    requires |rows| == |labels| && Rows(rows, d) && |x| == d
  {
    && Votes(rows, labels, x, s, c, d) > 0
    && forall b: nat :: b != c ==>
         || Votes(rows, labels, x, s, b, d) < Votes(rows, labels, x, s, c, d)
         || (Votes(rows, labels, x, s, b, d) == Votes(rows, labels, x, s, c, d) && c < b)
  }

  /** Some row agrees with x on s. */
  ghost predicate Met(rows: seq<Vector>, x: Vector, s: set<nat>, d: nat)
    requires Rows(rows, d) && |x| == d
  {
    exists i :: 0 <= i < |rows| && Agree(rows[i], x, s, d)
  }

  /** All rows that agree with x on s have one label. */
  ghost predicate Unanimous(rows: seq<Vector>, labels: seq<nat>, x: Vector, s: set<nat>, d: nat)
    requires |rows| == |labels| && Rows(rows, d) && |x| == d
  {
    forall i, j :: 0 <= i < |rows| && 0 <= j < |rows| && Agree(rows[i], x, s, d) && Agree(rows[j], x, s, d) ==> labels[i] == labels[j]
  }

  lemma {:induction false} TallyOfPrefix(rows: seq<Vector>, labels: seq<nat>, row: Vector, mark: nat, x: Vector, s: set<nat>, c: nat,
                                         d: nat, n: nat)
    requires |rows| == |labels| && n <= |rows| && Rows(rows, d) && |x| == d && |row| == d
    ensures Rows(rows + [row], d)
    ensures Tally(rows + [row], labels + [mark], x, s, c, d, n) == Tally(rows, labels, x, s, c, d, n)
    decreases n
  {
    if n > 0 { TallyOfPrefix(rows, labels, row, mark, x, s, c, d, n - 1); }
  }

  /** Counting in the group of a value is counting with one more column to agree on. */
  lemma {:induction false} SelectTally(rows: seq<Vector>, labels: seq<nat>, a: nat, d: nat, n: nat, x: Vector, s: set<nat>, c: nat)
    requires |rows| == |labels| && n <= |rows| && Rows(rows, d) && |x| == d && a < d
    ensures var g := Select(rows, labels, a, x[a], d, n);
            Votes(g.0, g.1, x, s, c, d) == Tally(rows, labels, x, s + {a}, c, d, n)
    decreases n
  {
    if n > 0 {
      SelectTally(rows, labels, a, d, n - 1, x, s, c);
      var g := Select(rows, labels, a, x[a], d, n - 1);
      var row, mark := rows[n - 1], labels[n - 1];
      assert Agree(row, x, s + {a}, d) <==> row[a] == x[a] && Agree(row, x, s, d);
      if row[a] == x[a] { TallyOfPrefix(g.0, g.1, row, mark, x, s, c, d, |g.0|); }
    }
  }

  lemma {:induction false} TallyIsCount(rows: seq<Vector>, labels: seq<nat>, x: Vector, c: nat, d: nat, n: nat)
    requires |rows| == |labels| && n <= |rows| && Rows(rows, d) && |x| == d
    ensures Tally(rows, labels, x, {}, c, d, n) == Count(labels[..n], c)
    decreases n
  {
    if n > 0 {
      TallyIsCount(rows, labels, x, c, d, n - 1);
      assert labels[..n] == labels[..n - 1] + [labels[n - 1]];
      assert Agree(rows[n - 1], x, {}, d);
    }
  }

  /** The mode of a frame wins among all its rows. */
  lemma ModeWins(rows: seq<Vector>, labels: seq<nat>, x: Vector, d: nat)
    requires |rows| == |labels| && rows != [] && Rows(rows, d) && |x| == d
    ensures Wins(rows, labels, x, {}, SmallestMode(labels, |labels|), d)
  {
    var m := SmallestMode(labels, |labels|);
    assert labels[..|labels|] == labels;
    forall b: nat ensures Votes(rows, labels, x, {}, b, d) == Count(labels, b) { TallyIsCount(rows, labels, x, b, d, |rows|); }
    hide SmallestMode, Tally, Votes;
    forall b: nat | b != m ensures Count(labels, b) < Count(labels, m) || (Count(labels, b) == Count(labels, m) && m < b) {
      if b in labels {
        var i :| 0 <= i < |labels| && labels[i] == b;
      }
    }
  }

  // ----- What a node answers

  /** The clusters of the children of a node, in the order of the values. */
  ghost function ChildClusters(t: Tree, values: seq<real>): (cs: seq<nat>)
    ensures |cs| == |values|
  {
    seq(|values|, j requires 0 <= j < |values| => if values[j] in t.nodes then t.nodes[values[j]].cluster else 0)
  }

  /** The node has a child for each value and no other, and carries the first of their most frequent clusters. */
  ghost predicate Summarises(t: Tree, values: seq<real>) {
    && (forall v :: v in t.nodes <==> v in values)
    && exists p :: 0 <= p < |values| && FirstMostFrequent(ChildClusters(t, values), |values|, p) && ChildClusters(t, values)[p] == t.cluster
  }

  ghost predicate DistinctValues(unique: map<nat, seq<real>>, attrs: set<nat>) {
    forall a, i, j :: a in attrs && a in unique && 0 <= i < j < |unique[a]| ==> unique[a][i] != unique[a][j]
  }

  /**
   What a node without children says about x after a way of n tests: the rows that agree with x on all columns
   tested decide, or on all but the last if there are none. The way ends early only if nothing is left to decide.
   */
  ghost predicate Decides(c: nat, n: nat, all: set<nat>, butLast: set<nat>, rows: seq<Vector>, labels: seq<nat>, d: nat, room: nat, x: Vector)
    requires |rows| == |labels| && Rows(rows, d) && |x| == d
  {
    if Met(rows, x, all, d) then Wins(rows, labels, x, all, c, d) && (Unanimous(rows, labels, x, all, d) || n == room)
    else n > 0 && Met(rows, x, butLast, d) && Wins(rows, labels, x, butLast, c, d)
  }

  function Front(p: seq<nat>): seq<nat> {
    if p == [] then [] else p[..|p| - 1]
  }

  /**
   The answer of a tree for x, counted over the rows of the frame: the way of x ends at a node without children, or
   at one that has no child for the value of x, which then is none of the values of that column.
   */
  ghost predicate Answers(t: Tree, rows: seq<Vector>, labels: seq<nat>, unique: map<nat, seq<real>>, d: nat, room: nat, x: Vector)
    requires |rows| == |labels| && Rows(rows, d) && |x| == d
  {
    var end := End(t, x);
    if end.nodes == map[] then
      var p := Path(t, x);
      Decides(end.cluster, |p|, Elements(p), Elements(Front(p)), rows, labels, d, room, x)
    else
      && end.childAttr.Some? && end.childAttr.value < d && end.childAttr.value in unique
      && x[end.childAttr.value] !in unique[end.childAttr.value]
      && Summarises(end, unique[end.childAttr.value])
  }

  /** Agreement with x on s within the group of its value is agreement on s and the column. */
  lemma GroupMeets(rows: seq<Vector>, labels: seq<nat>, a: nat, d: nat, x: Vector, s: set<nat>, wide: set<nat>)
    requires |rows| == |labels| && Rows(rows, d) && |x| == d && a < d && wide == s + {a}
    ensures var g := Select(rows, labels, a, x[a], d, |rows|);
            && (Met(g.0, x, s, d) <==> Met(rows, x, wide, d))
            && (Unanimous(g.0, g.1, x, s, d) ==> Unanimous(rows, labels, x, wide, d))
  {
    var g := Select(rows, labels, a, x[a], d, |rows|);
    hide Select;
    forall i | 0 <= i < |rows| && Agree(rows[i], x, wide, d)
      ensures exists k :: 0 <= k < |g.0| && g.0[k] == rows[i] && g.1[k] == labels[i] && Agree(g.0[k], x, s, d)
    {
      assert a in wide;
      var k := SelectKeeps(rows, labels, a, x[a], d, |rows|, i);
    }
    if Met(g.0, x, s, d) {
      var k :| 0 <= k < |g.0| && Agree(g.0[k], x, s, d);
      var i := SelectFrom(rows, labels, a, x[a], d, |rows|, k);
      assert Agree(rows[i], x, wide, d);
    }
  }

  lemma GroupWins(rows: seq<Vector>, labels: seq<nat>, a: nat, d: nat, x: Vector, s: set<nat>, wide: set<nat>, c: nat)
    requires |rows| == |labels| && Rows(rows, d) && |x| == d && a < d && wide == s + {a}
    ensures var g := Select(rows, labels, a, x[a], d, |rows|);
            Wins(g.0, g.1, x, s, c, d) ==> Wins(rows, labels, x, wide, c, d)
  {
    var g := Select(rows, labels, a, x[a], d, |rows|);
    forall b: nat ensures Votes(g.0, g.1, x, s, b, d) == Votes(rows, labels, x, wide, b, d) {
      SelectTally(rows, labels, a, d, |rows|, x, s, b);
    }
    hide Select, Votes;
  }

  lemma ElementsAfter(a: nat, p: seq<nat>)
    ensures Elements([a] + p) == Elements(p) + {a}
    ensures p != [] ==> Elements(Front([a] + p)) == Elements(Front(p)) + {a}
  {
    if p != [] { assert ([a] + p)[..|p|] == [a] + p[..|p| - 1]; }
  }

  /** What decides in the group of the value of x decides in the frame with one more column. */
  lemma DecidesAbove(c: nat, n: nat, all: set<nat>, butLast: set<nat>, rows: seq<Vector>, labels: seq<nat>, d: nat, room: nat, x: Vector,
                     a: nat, all': set<nat>, butLast': set<nat>)
    requires |rows| == |labels| && Rows(rows, d) && |x| == d && room > 0 && a < d
    requires all' == all + {a} && (n > 0 ==> butLast' == butLast + {a})
    ensures var g := Select(rows, labels, a, x[a], d, |rows|);
            Decides(c, n, all, butLast, g.0, g.1, d, room - 1, x) ==> Decides(c, n + 1, all', butLast', rows, labels, d, room, x)
  {
    var g := Select(rows, labels, a, x[a], d, |rows|);
    hide Met, Wins, Unanimous, Select;
    GroupMeets(rows, labels, a, d, x, all, all');
    GroupWins(rows, labels, a, d, x, all, all', c);
    if n > 0 {
      GroupMeets(rows, labels, a, d, x, butLast, butLast');
      GroupWins(rows, labels, a, d, x, butLast, butLast', c);
    }
    if Decides(c, n, all, butLast, g.0, g.1, d, room - 1, x) {
      assert Decides(c, n + 1, all', butLast', rows, labels, d, room, x);
    }
  }

  /** What the child answers for the rows of its group, the node answers for all its rows. */
  lemma AnswersAbove(t: Tree, rows: seq<Vector>, labels: seq<nat>, unique: map<nat, seq<real>>, d: nat, room: nat, x: Vector, a: nat)
    requires |rows| == |labels| && Rows(rows, d) && |x| == d && room > 0
    requires t.childAttr == Some(a) && a < d && x[a] in t.nodes
    requires var g := Select(rows, labels, a, x[a], d, |rows|); Answers(t.nodes[x[a]], g.0, g.1, unique, d, room - 1, x)
    ensures Answers(t, rows, labels, unique, d, room, x)
  {
    var p, end := Path(t.nodes[x[a]], x), End(t.nodes[x[a]], x);
    assert Path(t, x) == [a] + p && End(t, x) == end;
    hide Path, End, Decides, Select, Summarises, Elements, Front;
    if end.nodes == map[] {
      var q := [a] + p;
      ElementsAfter(a, p);
      DecidesAbove(end.cluster, |p|, Elements(p), Elements(Front(p)), rows, labels, d, room, x, a, Elements(q), Elements(Front(q)));
    }
  }

  /** A leaf with the mode of its rows. */
  lemma ModeAnswers(t: Tree, rows: seq<Vector>, labels: seq<nat>, unique: map<nat, seq<real>>, d: nat, room: nat, x: Vector)
    requires |rows| == |labels| && rows != [] && Rows(rows, d) && |x| == d
    requires t.nodes == map[] && t.cluster == SmallestMode(labels, |labels|) && (room == 0 || OneLabel(labels))
    ensures Answers(t, rows, labels, unique, d, room, x)
  {
    ModeWins(rows, labels, x, d);
    hide Wins, SmallestMode;
    assert Path(t, x) == [] && End(t, x) == t && Elements([]) == {};
    assert Agree(rows[0], x, {}, d);
  }

  /** The leaf for a value that no row has: the rows of the node above decide. */
  lemma EmptyGroupAnswers(t: Tree, rows: seq<Vector>, labels: seq<nat>, unique: map<nat, seq<real>>, d: nat, room: nat, x: Vector, a: nat)
    requires |rows| == |labels| && rows != [] && Rows(rows, d) && |x| == d && t.childAttr == Some(a) && a < d && x[a] in t.nodes
    requires Select(rows, labels, a, x[a], d, |rows|).0 == [] && t.nodes[x[a]] == Leaf(SmallestMode(labels, |labels|))
    ensures Answers(t, rows, labels, unique, d, room, x)
  {
    ModeWins(rows, labels, x, d);
    hide Wins, SmallestMode, Select;
    var leaf := t.nodes[x[a]];
    assert Path(leaf, x) == [] && End(leaf, x) == leaf;
    assert Path(t, x) == [a] && End(t, x) == leaf && Elements([]) == {} && Elements([a]) == {a} && [a][..0] == [];
    assert Agree(rows[0], x, {}, d);
    GroupMeets(rows, labels, a, d, x, {}, {a});
  }

  lemma {:induction false} ChildrenClusters(rows: seq<Vector>, labels: seq<nat>, rest: set<nat>, unique: map<nat, seq<real>>,
                                            d: nat, depth: nat, limit: Option<nat>, pick: Chooser, a: nat, n: nat)
    requires Frame(rows, labels, rest, unique, d) && rows != [] && Chooses(pick)
    requires a < d && a in unique && n <= |unique[a]| && forall i, j :: 0 <= i < j < |unique[a]| ==> unique[a][i] != unique[a][j]
    requires Children(rows, labels, rest, unique, d, depth, limit, pick, a, n).Some?
    ensures var c := Children(rows, labels, rest, unique, d, depth, limit, pick, a, n).value;
            forall j :: 0 <= j < n ==> unique[a][j] in c.0 && c.0[unique[a][j]].cluster == c.1[j]
    decreases n
  {
    hide Child;
    if n > 0 { ChildrenClusters(rows, labels, rest, unique, d, depth, limit, pick, a, n - 1); }
  }

  lemma SummarisesChildren(t: Tree, values: seq<real>, clusters: seq<nat>)
    requires |clusters| == |values| >= 1 && t.cluster == FirstMode(clusters, |clusters|)
    requires forall v :: v in t.nodes <==> v in values
    requires forall j :: 0 <= j < |values| ==> values[j] in t.nodes && t.nodes[values[j]].cluster == clusters[j]
    ensures Summarises(t, values)
  {
    assert ChildClusters(t, values) == clusters;
    var p := FirstModeAt(clusters, |clusters|);
    assert FirstMostFrequent(ChildClusters(t, values), |values|, p) && ChildClusters(t, values)[p] == t.cluster;
  }

  /** A node with children carries the first most frequent of their clusters. */
  lemma NodeSummarises(rows: seq<Vector>, labels: seq<nat>, attrs: set<nat>, unique: map<nat, seq<real>>, d: nat,
                       depth: nat, limit: Option<nat>, pick: Chooser)
    requires Frame(rows, labels, attrs, unique, d) && rows != [] && Chooses(pick) && attrs != {} && !OneLabel(labels)
    requires DistinctValues(unique, attrs) && (limit.None? || depth <= limit.value)
    requires Build(rows, labels, attrs, unique, d, depth, limit, pick).Some?
    ensures var t := Build(rows, labels, attrs, unique, d, depth, limit, pick).value;
            t.childAttr == Some(pick(rows, labels, attrs)) && Summarises(t, unique[pick(rows, labels, attrs)])
  {
    hide GainsDefined, FirstMode, Summarises, Child, Select;
    var a := pick(rows, labels, attrs);
    var values, rest := unique[a], attrs - {a};
    RemoveShrinks(attrs, a);
    var c := Children(rows, labels, rest, unique, d, depth, limit, pick, a, |values|).value;
    var t := Build(rows, labels, attrs, unique, d, depth, limit, pick).value;
    assert t == Node(Some(a), c.0, FirstMode(c.1, |c.1|));
    hide Build, Children;
    ChildrenClusters(rows, labels, rest, unique, d, depth, limit, pick, a, |values|);
    assert values[..|values|] == values;
    forall v ensures v in t.nodes <==> v in values {
      ChildStored(rows, labels, rest, unique, d, depth, limit, pick, a, |values|, v);
    }
    SummarisesChildren(t, values, c.1);
  }

  lemma {:induction false} BuildAnswers(rows: seq<Vector>, labels: seq<nat>, attrs: set<nat>, unique: map<nat, seq<real>>,
                                        d: nat, depth: nat, limit: Option<nat>, pick: Chooser, x: Vector)
    requires Frame(rows, labels, attrs, unique, d) && rows != [] && Chooses(pick) && |x| == d && DistinctValues(unique, attrs)
    requires Build(rows, labels, attrs, unique, d, depth, limit, pick).Some?
    ensures Answers(Build(rows, labels, attrs, unique, d, depth, limit, pick).value, rows, labels, unique, d,
                    Room(|attrs|, depth, limit), x)
    decreases |attrs|
  {
    hide Answers, Select, SmallestMode, Path, End;
    var t, room := Build(rows, labels, attrs, unique, d, depth, limit, pick).value, Room(|attrs|, depth, limit);
    if attrs == {} {
      ModeAnswers(t, rows, labels, unique, d, room, x);
    } else if OneLabel(labels) {
      assert SmallestMode(labels, |labels|) in labels;
      ModeAnswers(t, rows, labels, unique, d, room, x);
    } else if limit.Some? && depth > limit.value {
      ModeAnswers(t, rows, labels, unique, d, room, x);
    } else {
      var a := pick(rows, labels, attrs);
      NodeSummarises(rows, labels, attrs, unique, d, depth, limit, pick);
      if x[a] in t.nodes {
        BuildAnswersBelow(rows, labels, attrs, unique, d, depth, limit, pick, x);
      } else {
        UnknownValueAnswers(t, rows, labels, unique, d, room, x, a);
      }
    }
  }

  lemma UnknownValueAnswers(t: Tree, rows: seq<Vector>, labels: seq<nat>, unique: map<nat, seq<real>>, d: nat, room: nat, x: Vector, a: nat)
    requires |rows| == |labels| && Rows(rows, d) && |x| == d && t.childAttr == Some(a) && a < d && a in unique
    requires Summarises(t, unique[a]) && unique[a] != [] && x[a] !in t.nodes
    ensures Answers(t, rows, labels, unique, d, room, x)
  {
    HasChildren(t, unique[a]);
    hide Summarises;
    var v, w := unique[a][0], x[a];
    assert v in unique[a] && v in t.nodes && w !in unique[a];
  }

  lemma HasChildren(t: Tree, values: seq<real>)
    requires Summarises(t, values)
    ensures forall v :: v in t.nodes <==> v in values
  {
  }

  lemma {:induction false} BuildAnswersBelow(rows: seq<Vector>, labels: seq<nat>, attrs: set<nat>, unique: map<nat, seq<real>>,
                                             d: nat, depth: nat, limit: Option<nat>, pick: Chooser, x: Vector)
    requires Frame(rows, labels, attrs, unique, d) && rows != [] && Chooses(pick) && |x| == d && DistinctValues(unique, attrs)
    requires Build(rows, labels, attrs, unique, d, depth, limit, pick).Some?
    requires attrs != {} && !OneLabel(labels) && (limit.None? || depth <= limit.value)
    requires x[pick(rows, labels, attrs)] in Build(rows, labels, attrs, unique, d, depth, limit, pick).value.nodes
    ensures Answers(Build(rows, labels, attrs, unique, d, depth, limit, pick).value, rows, labels, unique, d,
                    Room(|attrs|, depth, limit), x)
    decreases |attrs|, 0
  {
    hide Answers, SmallestMode, Path, End, Select, GainsDefined;
    var t := Build(rows, labels, attrs, unique, d, depth, limit, pick).value;
    var a := pick(rows, labels, attrs);
    RemoveShrinks(attrs, a);
    assert |attrs - {a}| == |attrs| - 1;
    ChildStored(rows, labels, attrs - {a}, unique, d, depth, limit, pick, a, |unique[a]|, x[a]);
    var g := Select(rows, labels, a, x[a], d, |rows|);
    if g.0 == [] {
      EmptyGroupAnswers(t, rows, labels, unique, d, Room(|attrs|, depth, limit), x, a);
    } else {
      BuildAnswers(g.0, g.1, attrs - {a}, unique, d, depth + 1, limit, pick, x);
      AnswersAbove(t, rows, labels, unique, d, Room(|attrs|, depth, limit), x, a);
    }
  }

  // ----- The finished tree

  /** The answer of the tree of the data for any row at all. */
  lemma TreeAnswersAll(data: seq<Vector>, cents: seq<Vector>, d: nat, limit: Option<nat>, pick: Chooser, x: Vector)
    requires Rows(data, d) && data != [] && Rows(cents, d) && |cents| >= 1 && Chooses(pick) && |x| == d
    requires Treeable(data, cents, d, limit)
    ensures TreeOf(data, cents, d, limit, pick).Some?
    ensures Answers(TreeOf(data, cents, d, limit, pick).value, data, Labels(data, cents, d), UniqueAttrs(data, d), d, Room(d, 1, limit), x)
    ensures Lookup(TreeOf(data, cents, d, limit, pick).value, x) == End(TreeOf(data, cents, d, limit, pick).value, x).cluster
  {
    TreeBuiltIff(data, cents, d, limit);
    UniquesDistinct(data, d);
    hide Build, Answers, UniqueAttrs, Labels, Treeable, DistinctValues;
    FrameOfData(data, cents, d);
    BuildAnswers(data, Labels(data, cents, d), Columns(d), UniqueAttrs(data, d), d, 1, limit, pick, x);
    LookupAtEnd(TreeOf(data, cents, d, limit, pick).value, x);
  }

  lemma UniquesDistinct(data: seq<Vector>, d: nat)
    requires Rows(data, d)
    ensures DistinctValues(UniqueAttrs(data, d), Columns(d))
  {
  }

  /**
   Whatever the depth limit, the tree looks a row of the data up to the most frequent k-means label, and the
   smallest of several, among the rows that agree with it on the columns tested on its way. The way goes on until
   those rows have one label, all columns are tested or the limit is reached.
   */
  lemma TreeAnswersTraining(data: seq<Vector>, cents: seq<Vector>, d: nat, limit: Option<nat>, pick: Chooser, i: nat)
    requires Rows(data, d) && data != [] && Rows(cents, d) && |cents| >= 1 && Chooses(pick) && i < |data|
    requires Treeable(data, cents, d, limit)
    ensures TreeOf(data, cents, d, limit, pick).Some?
    ensures var t, labels := TreeOf(data, cents, d, limit, pick).value, Labels(data, cents, d);
            var tested := Elements(Path(t, data[i]));
            && Wins(data, labels, data[i], tested, Lookup(t, data[i]), d)
            && (Unanimous(data, labels, data[i], tested, d) || |Path(t, data[i])| == Room(d, 1, limit))
  {
    hide TreeOf, Treeable, Labels, Wins, Unanimous, Path, End, Elements, UniqueAttrs;
    TreeAnswersAll(data, cents, d, limit, pick, data[i]);
    var t := TreeOf(data, cents, d, limit, pick).value;
    assert Agree(data[i], data[i], Elements(Path(t, data[i])), d);
    ValuesCovered(data, d, i);
  }

  lemma ValuesCovered(data: seq<Vector>, d: nat, i: nat)
    requires Rows(data, d) && i < |data|
    ensures forall a: nat :: a < d && a in UniqueAttrs(data, d) ==> data[i][a] in UniqueAttrs(data, d)[a]
  {
  }
}

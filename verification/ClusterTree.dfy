/**
 The decision tree of ai/mod2/k-means-tree/tree.py. A row is a vector, an attribute an index into it,
 and the remaining columns of a data frame are a set of attributes.
 */
module ClusterTree {
  import opened Wrappers
  import opened KMeans

  datatype Tree = Node(childAttr: Option<nat>, nodes: map<real, Tree>, cluster: nat)

  /** The attribute with the greatest gain; only its being one of the columns matters here. */
  type Chooser = (seq<Vector>, seq<nat>, set<nat>) -> nat

  ghost predicate Chooses(pick: Chooser) {
    forall rows, labels, attrs :: attrs != {} ==> pick(rows, labels, attrs) in attrs
  }

  // ----- Modes

  function Count(s: seq<nat>, x: nat): nat {
    multiset(s)[x]
  }

  /** The smallest of the most frequent values among the first n; pandas mode().iloc[0]. */
  function SmallestMode(s: seq<nat>, n: nat): (m: nat)
    requires 1 <= n <= |s|
    ensures m in s && forall i :: 0 <= i < n ==> Count(s, s[i]) < Count(s, m) || (Count(s, s[i]) == Count(s, m) && m <= s[i])
  {
    if n == 1 then s[0]
    else
      var m, c := SmallestMode(s, n - 1), s[n - 1];
      if Count(s, c) > Count(s, m) || (Count(s, c) == Count(s, m) && c < m) then c else m
  }

  /** No value among the first n is more frequent than the one at p, and those before p are less frequent. */
  ghost predicate FirstMostFrequent(s: seq<nat>, n: nat, p: nat)
    requires p < |s| && n <= |s|
  {
    forall q :: 0 <= q < n ==> Count(s, s[q]) <= Count(s, s[p]) && (q < p ==> Count(s, s[q]) < Count(s, s[p]))
  }

  /** The first position of a most frequent value among the first n. */
  function FirstModeAt(s: seq<nat>, n: nat): (p: nat)
    requires 1 <= n <= |s|
    ensures p < n && FirstMostFrequent(s, n, p)
  {
    if n == 1 then 0
    else
      var p := FirstModeAt(s, n - 1);
      if Count(s, s[n - 1]) > Count(s, s[p]) then n - 1 else p
  }

  /** The first of the most frequent values among the first n; statistics.mode. */
  function FirstMode(s: seq<nat>, n: nat): nat
    requires 1 <= n <= |s|
  {
    s[FirstModeAt(s, n)]
  }

  predicate OneLabel(labels: seq<nat>)
    requires labels != []
  {
    forall i :: 0 <= i < |labels| ==> labels[i] == labels[0]
  }

  // ----- Building

  ghost predicate Frame(rows: seq<Vector>, labels: seq<nat>, attrs: set<nat>, unique: map<nat, seq<real>>, d: nat) {
    && |rows| == |labels| && Rows(rows, d)
    && forall a :: a in attrs ==> a < d && a in unique && unique[a] != []
  }

  /** The rows among the first n that have value v for attribute a, with their labels. */
  function Select(rows: seq<Vector>, labels: seq<nat>, a: nat, v: real, d: nat, n: nat): (g: (seq<Vector>, seq<nat>))
    requires |rows| == |labels| && n <= |rows| && Rows(rows, d) && a < d
    ensures |g.0| == |g.1| && Rows(g.0, d)
    ensures forall i :: 0 <= i < |g.0| ==> g.0[i][a] == v
  {
    if n == 0 then ([], [])
    else
      var (r, l) := Select(rows, labels, a, v, d, n - 1);
      if rows[n - 1][a] == v then (r + [rows[n - 1]], l + [labels[n - 1]]) else (r, l)
  }

  /** gain divides by the split information, which is zero just when the column is constant. */
  predicate GainsDefined(rows: seq<Vector>, attrs: set<nat>, d: nat)
    requires rows != [] && Rows(rows, d) && forall a :: a in attrs ==> a < d
  {
    forall a :: a in attrs ==> exists i :: 0 <= i < |rows| && rows[i][a] != rows[0][a]
  }

  function Leaf(cluster: nat): Tree {
    Node(None, map[], cluster)
  }

  /** The tree of a data frame; None when a gain divides by zero on the way. */
  function Build(rows: seq<Vector>, labels: seq<nat>, attrs: set<nat>, unique: map<nat, seq<real>>, d: nat,
                 depth: nat, limit: Option<nat>, pick: Chooser): Option<Tree>
    requires Frame(rows, labels, attrs, unique, d) && rows != [] && Chooses(pick)
    decreases |attrs|, 0
  {
    if attrs == {} then Some(Leaf(SmallestMode(labels, |labels|)))
    else if OneLabel(labels) then Some(Leaf(labels[0]))
    else if !GainsDefined(rows, attrs, d) then None
    else
      var a := pick(rows, labels, attrs);
      if limit.Some? && depth > limit.value then Some(Node(Some(a), map[], SmallestMode(labels, |labels|)))
      else
        RemoveShrinks(attrs, a);
        match Children(rows, labels, attrs - {a}, unique, d, depth, limit, pick, a, |unique[a]|)
        case None => None
        case Some(c) => Some(Node(Some(a), c.0, FirstMode(c.1, |c.1|)))
  }

  /** The children for the first n values of attribute a, and their clusters in that order. */
  function Children(rows: seq<Vector>, labels: seq<nat>, rest: set<nat>, unique: map<nat, seq<real>>, d: nat,
                    depth: nat, limit: Option<nat>, pick: Chooser, a: nat, n: nat)
    : (r: Option<(map<real, Tree>, seq<nat>)>)
    requires Frame(rows, labels, rest, unique, d) && rows != [] && Chooses(pick)
    requires a < d && a in unique && n <= |unique[a]|
    ensures r.Some? ==> |r.value.1| == n
    decreases |rest|, n + 1
  {
    if n == 0 then Some((map[], []))
    else
      match Children(rows, labels, rest, unique, d, depth, limit, pick, a, n - 1)
      case None => None
      case Some(c) =>
        match Child(rows, labels, rest, unique, d, depth, limit, pick, a, unique[a][n - 1])
        case None => None
        case Some(t) => Some((c.0[unique[a][n - 1] := t], c.1 + [t.cluster]))
  }

  /** The child for one value: a leaf with the common label where no row has it. */
  function Child(rows: seq<Vector>, labels: seq<nat>, rest: set<nat>, unique: map<nat, seq<real>>, d: nat,
                 depth: nat, limit: Option<nat>, pick: Chooser, a: nat, v: real): Option<Tree>
    requires Frame(rows, labels, rest, unique, d) && rows != [] && Chooses(pick) && a < d
    decreases |rest|, 1
  {
    var g := Select(rows, labels, a, v, d, |rows|);
    if g.0 == [] then Some(Leaf(SmallestMode(labels, |labels|)))
    else Build(g.0, g.1, rest, unique, d, depth + 1, limit, pick)
  }

  lemma RemoveShrinks(attrs: set<nat>, a: nat)
    requires a in attrs
    ensures |attrs - {a}| < |attrs|
  {
  }

  method SelectRows(rows: seq<Vector>, labels: seq<nat>, a: nat, v: real, d: nat) returns (r: seq<Vector>, l: seq<nat>)
    requires |rows| == |labels| && Rows(rows, d) && a < d
    ensures (r, l) == Select(rows, labels, a, v, d, |rows|)
  {
    r, l := [], [];
    for i := 0 to |rows|
      invariant (r, l) == Select(rows, labels, a, v, d, i)
    {
      if rows[i][a] == v { r, l := r + [rows[i]], l + [labels[i]]; }
    }
  }

  method CreateNode(rows: seq<Vector>, labels: seq<nat>, attrs: set<nat>, unique: map<nat, seq<real>>, d: nat,
                    depth: nat, limit: Option<nat>, pick: Chooser) returns (r: Option<Tree>)
    requires Frame(rows, labels, attrs, unique, d) && rows != [] && Chooses(pick)
    ensures r == Build(rows, labels, attrs, unique, d, depth, limit, pick)
    decreases |attrs|
  {
    hide Select, OneLabel, GainsDefined;
    if attrs == {} { return Some(Leaf(SmallestMode(labels, |labels|))); }
    if OneLabel(labels) { return Some(Leaf(labels[0])); }
    if !GainsDefined(rows, attrs, d) { return None; }
    var a := pick(rows, labels, attrs);
    if limit.Some? && depth > limit.value { return Some(Node(Some(a), map[], SmallestMode(labels, |labels|))); }
    var nodes: map<real, Tree> := map[];
    var clusters: seq<nat> := [];
    var values, rest := unique[a], attrs - {a};
    RemoveShrinks(attrs, a);
    ghost var whole := Children(rows, labels, rest, unique, d, depth, limit, pick, a, |values|);
    for i := 0 to |values|
      invariant Children(rows, labels, rest, unique, d, depth, limit, pick, a, i) == Some((nodes, clusters))
    {
      var group, groupLabels := SelectRows(rows, labels, a, values[i], d);
      var child;
      if group == [] {
        child := Some(Leaf(SmallestMode(labels, |labels|)));
      } else {
        child := CreateNode(group, groupLabels, rest, unique, d, depth + 1, limit, pick);
      }
      assert child == Child(rows, labels, rest, unique, d, depth, limit, pick, a, values[i]);
      if child.None? {
        NoneStays(rows, labels, rest, unique, d, depth, limit, pick, a, i + 1, |values|);
        return None;
      }
      nodes := nodes[values[i] := child.value];
      clusters := clusters + [child.value.cluster];
    }
    r := Some(Node(Some(a), nodes, FirstMode(clusters, |clusters|)));
  }

  lemma {:induction false} NoneStays(rows: seq<Vector>, labels: seq<nat>, rest: set<nat>, unique: map<nat, seq<real>>,
                                     d: nat, depth: nat, limit: Option<nat>, pick: Chooser, a: nat, i: nat, n: nat)
    requires Frame(rows, labels, rest, unique, d) && rows != [] && Chooses(pick)
    requires a < d && a in unique && i <= n <= |unique[a]|
    requires Children(rows, labels, rest, unique, d, depth, limit, pick, a, i).None?
    ensures Children(rows, labels, rest, unique, d, depth, limit, pick, a, n).None?
  {
    if i < n { NoneStays(rows, labels, rest, unique, d, depth, limit, pick, a, i, n - 1); }
  }

  /** Rows with different labels and a column in which all of them agree cannot be split: the gain divides by zero. */
  lemma ConstantColumnFails(rows: seq<Vector>, labels: seq<nat>, attrs: set<nat>, unique: map<nat, seq<real>>, d: nat,
                            depth: nat, limit: Option<nat>, pick: Chooser, a: nat)
    requires Frame(rows, labels, attrs, unique, d) && rows != [] && Chooses(pick) && a in attrs
    requires forall i, j :: 0 <= i < j < |rows| ==> rows[i][a] == rows[j][a]
    ensures Build(rows, labels, attrs, unique, d, depth, limit, pick).None?
       <==> exists i, j :: 0 <= i < j < |rows| && labels[i] != labels[j]
  {
    assert forall i :: 0 <= i < |rows| ==> rows[i][a] == rows[0][a];
    if i :| 0 <= i < |labels| && labels[i] != labels[0] {
      assert !OneLabel(labels);
    }
  }

  // ----- Looking up

  function Lookup(t: Tree, row: Vector): nat {
    if t.childAttr.Some? && t.childAttr.value < |row| && row[t.childAttr.value] in t.nodes
    then Lookup(t.nodes[row[t.childAttr.value]], row) else t.cluster
  }

  /** How many levels a lookup goes down. */
  function Steps(t: Tree, row: Vector): nat {
    if t.childAttr.Some? && t.childAttr.value < |row| && row[t.childAttr.value] in t.nodes
    then 1 + Steps(t.nodes[row[t.childAttr.value]], row) else 0
  }

  /** No path in the tree is longer than n. */
  ghost predicate Fits(t: Tree, n: nat)
    decreases n
  {
    forall v :: v in t.nodes ==> n > 0 && Fits(t.nodes[v], n - 1)
  }

  ghost predicate AttrsBelow(t: Tree, d: nat)
    decreases t
  {
    (t.childAttr.Some? ==> t.childAttr.value < d) && forall v :: v in t.nodes ==> AttrsBelow(t.nodes[v], d)
  }

  method Predict(t: Tree, data: seq<Vector>, d: nat) returns (predicted: seq<nat>)
    requires Rows(data, d) && AttrsBelow(t, d)
    ensures |predicted| == |data| && forall i :: 0 <= i < |data| ==> predicted[i] == Lookup(t, data[i])
  {
    predicted := [];
    for i := 0 to |data|
      invariant |predicted| == i && forall k :: 0 <= k < i ==> predicted[k] == Lookup(t, data[k])
    {
      var node := t;
      while node.childAttr.Some? && data[i][node.childAttr.value] in node.nodes
        invariant AttrsBelow(node, d) && Lookup(node, data[i]) == Lookup(t, data[i])
        decreases node
      {
        var v := data[i][node.childAttr.value];
        assert v in node.nodes && AttrsBelow(node.nodes[v], d);
        node := node.nodes[v];
      }
      predicted := predicted + [node.cluster];
    }
  }

  lemma {:induction false} StepsBounded(t: Tree, row: Vector, n: nat)
    requires Fits(t, n)
    ensures Steps(t, row) <= n
    decreases n
  {
    if t.childAttr.Some? && t.childAttr.value < |row| && row[t.childAttr.value] in t.nodes {
      var v := row[t.childAttr.value];
      assert v in t.nodes && n > 0 && Fits(t.nodes[v], n - 1);
      StepsBounded(t.nodes[v], row, n - 1);
    }
  }

  // ----- What the tree does on the rows it was built from

  ghost predicate Agree(x: Vector, y: Vector, attrs: set<nat>, d: nat)
    requires |x| == |y| == d
  {
    forall a :: a in attrs && a < d ==> x[a] == y[a]
  }

  /** Rows that agree on all columns have the same label. */
  ghost predicate Functional(rows: seq<Vector>, labels: seq<nat>, attrs: set<nat>, d: nat)
    requires |rows| == |labels| && Rows(rows, d)
  {
    forall i, j :: 0 <= i < |rows| && 0 <= j < |rows| && Agree(rows[i], rows[j], attrs, d) ==> labels[i] == labels[j]
  }

  /** Every value of every column is one of the unique values. */
  ghost predicate Covered(rows: seq<Vector>, attrs: set<nat>, unique: map<nat, seq<real>>, d: nat)
    requires Rows(rows, d)
  {
    forall i, a :: 0 <= i < |rows| && a in attrs && a < d && a in unique ==> rows[i][a] in unique[a]
  }

  /** Where a row of the frame stands in its group. */
  lemma {:induction false} SelectKeeps(rows: seq<Vector>, labels: seq<nat>, a: nat, v: real, d: nat, n: nat, i: nat)
    returns (k: nat)
    requires |rows| == |labels| && n <= |rows| && Rows(rows, d) && a < d && i < n && rows[i][a] == v
    ensures k < |Select(rows, labels, a, v, d, n).0|
    ensures Select(rows, labels, a, v, d, n).0[k] == rows[i] && Select(rows, labels, a, v, d, n).1[k] == labels[i]
    decreases n
  {
    if i == n - 1 {
      k := |Select(rows, labels, a, v, d, n - 1).0|;
    } else {
      k := SelectKeeps(rows, labels, a, v, d, n - 1, i);
    }
  }

  /** Every row of the group is a row of the frame. */
  lemma {:induction false} SelectFrom(rows: seq<Vector>, labels: seq<nat>, a: nat, v: real, d: nat, n: nat, k: nat)
    returns (i: nat)
    requires |rows| == |labels| && n <= |rows| && Rows(rows, d) && a < d
    requires k < |Select(rows, labels, a, v, d, n).0|
    ensures i < n && Select(rows, labels, a, v, d, n).0[k] == rows[i] && Select(rows, labels, a, v, d, n).1[k] == labels[i]
    decreases n
  {
    if rows[n - 1][a] == v && k == |Select(rows, labels, a, v, d, n - 1).0| {
      i := n - 1;
    } else {
      i := SelectFrom(rows, labels, a, v, d, n - 1, k);
    }
  }

  lemma GroupInherits(rows: seq<Vector>, labels: seq<nat>, attrs: set<nat>, unique: map<nat, seq<real>>, d: nat, a: nat, v: real)
    requires Frame(rows, labels, attrs, unique, d) && a in attrs
    requires Functional(rows, labels, attrs, d) && Covered(rows, attrs, unique, d)
    ensures var g := Select(rows, labels, a, v, d, |rows|);
            Functional(g.0, g.1, attrs - {a}, d) && Covered(g.0, attrs - {a}, unique, d)
  {
    var g := Select(rows, labels, a, v, d, |rows|);
    hide Select;
    forall k, l | 0 <= k < |g.0| && 0 <= l < |g.0| && Agree(g.0[k], g.0[l], attrs - {a}, d)
      ensures g.1[k] == g.1[l]
    {
      var i := SelectFrom(rows, labels, a, v, d, |rows|, k);
      var j := SelectFrom(rows, labels, a, v, d, |rows|, l);
      assert Agree(rows[i], rows[j], attrs, d);
    }
    GroupCovered(rows, labels, attrs, unique, d, a, v);
  }

  /** The child stored for a value is the one built for it. */
  lemma {:induction false} ChildStored(rows: seq<Vector>, labels: seq<nat>, rest: set<nat>, unique: map<nat, seq<real>>,
                                       d: nat, depth: nat, limit: Option<nat>, pick: Chooser, a: nat, n: nat, v: real)
    requires Frame(rows, labels, rest, unique, d) && rows != [] && Chooses(pick)
    requires a < d && a in unique && n <= |unique[a]|
    requires Children(rows, labels, rest, unique, d, depth, limit, pick, a, n).Some?
    ensures v in Children(rows, labels, rest, unique, d, depth, limit, pick, a, n).value.0 <==> v in unique[a][..n]
    ensures v in Children(rows, labels, rest, unique, d, depth, limit, pick, a, n).value.0 ==>
              Some(Children(rows, labels, rest, unique, d, depth, limit, pick, a, n).value.0[v])
              == Child(rows, labels, rest, unique, d, depth, limit, pick, a, v)
    decreases n
  {
    hide Child;
    if n > 0 {
      assert unique[a][..n] == unique[a][..n - 1] + [unique[a][n - 1]];
      ChildStored(rows, labels, rest, unique, d, depth, limit, pick, a, n - 1, v);
    }
  }

  /** Without a depth limit the tree returns the label of every row it was built from. */
  lemma {:induction false} BuildReproduces(rows: seq<Vector>, labels: seq<nat>, attrs: set<nat>, unique: map<nat, seq<real>>,
                                           d: nat, depth: nat, pick: Chooser, i: nat)
    requires Frame(rows, labels, attrs, unique, d) && rows != [] && Chooses(pick) && i < |rows|
    requires Functional(rows, labels, attrs, d) && Covered(rows, attrs, unique, d)
    requires Build(rows, labels, attrs, unique, d, depth, None, pick).Some?
    ensures Lookup(Build(rows, labels, attrs, unique, d, depth, None, pick).value, rows[i]) == labels[i]
    decreases |attrs|
  {
    hide Select, GainsDefined, FirstMode, SmallestMode;
    if attrs == {} {
      var m := SmallestMode(labels, |labels|);
      var j :| 0 <= j < |labels| && labels[j] == m;
      assert Agree(rows[i], rows[j], attrs, d);
    } else if !OneLabel(labels) {
      var a := pick(rows, labels, attrs);
      var v := rows[i][a];
      RemoveShrinks(attrs, a);
      ChildStored(rows, labels, attrs - {a}, unique, d, depth, None, pick, a, |unique[a]|, v);
      assert v in unique[a] && unique[a][..|unique[a]|] == unique[a];
      GroupInherits(rows, labels, attrs, unique, d, a, v);
      var k := SelectKeeps(rows, labels, a, v, d, |rows|, i);
      var g := Select(rows, labels, a, v, d, |rows|);
      BuildReproduces(g.0, g.1, attrs - {a}, unique, d, depth + 1, pick, k);
    }
  }

  /** Levels left below a node of the given depth. */
  function Room(attrs: nat, depth: nat, limit: Option<nat>): nat {
    if limit.None? then attrs
    else if limit.value + 1 < depth then 0
    else if limit.value + 1 - depth < attrs then limit.value + 1 - depth else attrs
  }

  /** No path is longer than the number of attributes or than the depth limit allows. */
  lemma {:induction false} BuildFits(rows: seq<Vector>, labels: seq<nat>, attrs: set<nat>, unique: map<nat, seq<real>>,
                                     d: nat, depth: nat, limit: Option<nat>, pick: Chooser)
    requires Frame(rows, labels, attrs, unique, d) && rows != [] && Chooses(pick)
    requires Build(rows, labels, attrs, unique, d, depth, limit, pick).Some?
    ensures Fits(Build(rows, labels, attrs, unique, d, depth, limit, pick).value, Room(|attrs|, depth, limit))
    ensures AttrsBelow(Build(rows, labels, attrs, unique, d, depth, limit, pick).value, d)
    decreases |attrs|
  {
    if attrs != {} && !OneLabel(labels) {
      var a := pick(rows, labels, attrs);
      if limit.None? || depth <= limit.value {
        RemoveShrinks(attrs, a);
        var t := Build(rows, labels, attrs, unique, d, depth, limit, pick).value;
        forall v | v in t.nodes
          ensures Room(|attrs|, depth, limit) > 0 && Fits(t.nodes[v], Room(|attrs|, depth, limit) - 1) && AttrsBelow(t.nodes[v], d)
        {
          ChildFits(rows, labels, attrs, unique, d, depth, limit, pick, a, v, t.nodes[v]);
        }
      }
    }
  }

  lemma {:induction false} ChildFits(rows: seq<Vector>, labels: seq<nat>, attrs: set<nat>, unique: map<nat, seq<real>>, d: nat,
                                     depth: nat, limit: Option<nat>, pick: Chooser, a: nat, v: real, t: Tree)
    requires Frame(rows, labels, attrs, unique, d) && rows != [] && Chooses(pick) && a in attrs
    requires limit.None? || depth <= limit.value
    requires Children(rows, labels, attrs - {a}, unique, d, depth, limit, pick, a, |unique[a]|).Some?
    requires v in Children(rows, labels, attrs - {a}, unique, d, depth, limit, pick, a, |unique[a]|).value.0
    requires t == Children(rows, labels, attrs - {a}, unique, d, depth, limit, pick, a, |unique[a]|).value.0[v]
    ensures Room(|attrs|, depth, limit) > 0 && Fits(t, Room(|attrs|, depth, limit) - 1) && AttrsBelow(t, d)
    decreases |attrs|, 0
  {
    RemoveShrinks(attrs, a);
    assert |attrs - {a}| == |attrs| - 1;
    ChildStored(rows, labels, attrs - {a}, unique, d, depth, limit, pick, a, |unique[a]|, v);
    var g := Select(rows, labels, a, v, d, |rows|);
    if g.0 != [] {
      BuildFits(g.0, g.1, attrs - {a}, unique, d, depth + 1, limit, pick);
    }
  }

  // ----- When the construction succeeds

  /** The columns on which two rows agree. */
  ghost function Shared(x: Vector, y: Vector, attrs: set<nat>, d: nat): set<nat>
    requires |x| == |y| == d
  {
    set a | a in attrs && a < d && x[a] == y[a]
  }

  /** Among the rows that agree with x on s, column c is not constant. */
  ghost predicate Varies(rows: seq<Vector>, x: Vector, s: set<nat>, c: nat, d: nat)
    requires Rows(rows, d) && |x| == d && c < d
  {
    exists m :: 0 <= m < |rows| && Agree(rows[m], x, s, d) && rows[m][c] != x[c]
  }

  /**
   Wherever two rows of different labels agree on a column, some row agrees with them on all their other
   common columns and differs on this one.
   */
  ghost predicate Separable(rows: seq<Vector>, labels: seq<nat>, attrs: set<nat>, d: nat)
    requires |rows| == |labels| && Rows(rows, d)
  {
    forall i, j, c :: 0 <= i < |rows| && 0 <= j < |rows| && labels[i] != labels[j] && c in Shared(rows[i], rows[j], attrs, d)
      ==> Varies(rows, rows[i], Shared(rows[i], rows[j], attrs, d) - {c}, c, d)
  }

  /** Rows i and j of different labels agree on s, and another column c is constant among the rows that do. */
  ghost predicate Blocked(rows: seq<Vector>, labels: seq<nat>, attrs: set<nat>, d: nat, i: nat, j: nat, s: set<nat>, c: nat)
    requires |rows| == |labels| && Rows(rows, d)
  {
    && i < |rows| && j < |rows| && labels[i] != labels[j]
    && s <= attrs && Agree(rows[i], rows[j], s, d)
    && c in attrs - s && c < d && !Varies(rows, rows[i], s, c, d)
  }

  /** Separable as far as n columns go. */
  ghost predicate SeparableTo(rows: seq<Vector>, labels: seq<nat>, attrs: set<nat>, d: nat, n: nat)
    requires |rows| == |labels| && Rows(rows, d)
  {
    forall i, j, s, c :: Blocked(rows, labels, attrs, d, i, j, s, c) ==> |s| > n
  }

  /** Without a bound on the columns it is enough to look at all common columns of two rows at once. */
  lemma SeparableMeansAll(rows: seq<Vector>, labels: seq<nat>, attrs: set<nat>, d: nat)
    requires |rows| == |labels| && Rows(rows, d)
    ensures Separable(rows, labels, attrs, d) <==> SeparableTo(rows, labels, attrs, d, |attrs|)
  {
    if !SeparableTo(rows, labels, attrs, d, |attrs|) {
      var i, j, s, c :| Blocked(rows, labels, attrs, d, i, j, s, c) && |s| <= |attrs|;
      BlockedInseparable(rows, labels, attrs, d, i, j, s, c);
    }
    if SeparableTo(rows, labels, attrs, d, |attrs|) {
      forall i, j, c | 0 <= i < |rows| && 0 <= j < |rows| && labels[i] != labels[j] && c in Shared(rows[i], rows[j], attrs, d)
        ensures Varies(rows, rows[i], Shared(rows[i], rows[j], attrs, d) - {c}, c, d)
      {
        var s := Shared(rows[i], rows[j], attrs, d) - {c};
        SubsetSize(s, attrs);
        assert !Blocked(rows, labels, attrs, d, i, j, s, c);
        assert Agree(rows[i], rows[j], s, d);
      }
    }
  }

  lemma BlockedInseparable(rows: seq<Vector>, labels: seq<nat>, attrs: set<nat>, d: nat, i: nat, j: nat, s: set<nat>, c: nat)
    requires |rows| == |labels| && Rows(rows, d) && Blocked(rows, labels, attrs, d, i, j, s, c)
    ensures !Separable(rows, labels, attrs, d)
  {
    var all := Shared(rows[i], rows[j], attrs, d);
    assert Agree(rows[j], rows[i], s, d) && c in all;
    forall m | 0 <= m < |rows| && Agree(rows[m], rows[i], all - {c}, d) ensures rows[m][c] == rows[i][c] {
      assert Agree(rows[m], rows[i], s, d);
    }
    assert !Varies(rows, rows[i], all - {c}, c, d);
  }

  lemma {:induction false} SubsetSize(s: set<nat>, t: set<nat>)
    requires s <= t
    ensures |s| <= |t|
  {
    if s != {} {
      var a :| a in s;
      SubsetSize(s - {a}, t - {a});
    }
  }

  lemma SeparableHasGains(rows: seq<Vector>, labels: seq<nat>, attrs: set<nat>, d: nat, n: nat)
    requires |rows| == |labels| && Rows(rows, d) && rows != [] && (forall a :: a in attrs ==> a < d)
    requires SeparableTo(rows, labels, attrs, d, n) && !OneLabel(labels)
    ensures GainsDefined(rows, attrs, d)
  {
    var j :| 0 <= j < |labels| && labels[j] != labels[0];
    forall c | c in attrs ensures exists i :: 0 <= i < |rows| && rows[i][c] != rows[0][c] {
      assert !Blocked(rows, labels, attrs, d, 0, j, {}, c);
      assert Agree(rows[0], rows[j], {}, d);
    }
  }

  /** The rows of one value of a column are again separable by the other columns. */
  lemma GroupSeparable(rows: seq<Vector>, labels: seq<nat>, attrs: set<nat>, d: nat, n: nat, a: nat, v: real)
    requires |rows| == |labels| && Rows(rows, d) && a in attrs && a < d && SeparableTo(rows, labels, attrs, d, n) && n > 0
    ensures var g := Select(rows, labels, a, v, d, |rows|);
            SeparableTo(g.0, g.1, attrs - {a}, d, n - 1)
  {
    var g := Select(rows, labels, a, v, d, |rows|);
    hide Select;
    forall k: nat, l: nat, s: set<nat>, c: nat | Blocked(g.0, g.1, attrs - {a}, d, k, l, s, c) ensures |s| > n - 1 {
      var i := SelectFrom(rows, labels, a, v, d, |rows|, k);
      var j := SelectFrom(rows, labels, a, v, d, |rows|, l);
      forall m | 0 <= m < |rows| && Agree(rows[m], rows[i], s + {a}, d) ensures rows[m][c] == rows[i][c] {
        assert a in s + {a};
        var o := SelectKeeps(rows, labels, a, v, d, |rows|, m);
        assert Agree(g.0[o], g.0[k], s, d);
      }
      assert Blocked(rows, labels, attrs, d, i, j, s + {a}, c);
    }
  }

  /** Separable rows are never in the way of the construction, whatever is picked. */
  lemma {:induction false} SeparableBuilds(rows: seq<Vector>, labels: seq<nat>, attrs: set<nat>, unique: map<nat, seq<real>>,
                                           d: nat, depth: nat, limit: Option<nat>, pick: Chooser)
    requires Frame(rows, labels, attrs, unique, d) && rows != [] && Chooses(pick)
    requires SeparableTo(rows, labels, attrs, d, Room(|attrs|, depth, limit))
    ensures Build(rows, labels, attrs, unique, d, depth, limit, pick).Some?
    decreases |attrs|, 0
  {
    if attrs != {} && !OneLabel(labels) {
      hide SeparableTo, GainsDefined;
      SeparableHasGains(rows, labels, attrs, d, Room(|attrs|, depth, limit));
      var a := pick(rows, labels, attrs);
      RemoveShrinks(attrs, a);
      if limit.None? || depth <= limit.value {
        SeparableChildren(rows, labels, attrs, unique, d, depth, limit, pick, a, |unique[a]|);
      }
    }
  }

  lemma {:induction false} SeparableChildren(rows: seq<Vector>, labels: seq<nat>, attrs: set<nat>, unique: map<nat, seq<real>>,
                                             d: nat, depth: nat, limit: Option<nat>, pick: Chooser, a: nat, n: nat)
    requires Frame(rows, labels, attrs, unique, d) && rows != [] && Chooses(pick) && (limit.None? || depth <= limit.value)
    requires SeparableTo(rows, labels, attrs, d, Room(|attrs|, depth, limit))
    requires a in attrs && n <= |unique[a]| && |attrs - {a}| < |attrs|
    ensures Children(rows, labels, attrs - {a}, unique, d, depth, limit, pick, a, n).Some?
    decreases |attrs - {a}|, n + 1
  {
    hide SeparableTo, Build, Select;
    if n > 0 {
      SeparableChildren(rows, labels, attrs, unique, d, depth, limit, pick, a, n - 1);
      var v := unique[a][n - 1];
      var g := Select(rows, labels, a, v, d, |rows|);
      assert |attrs - {a}| == |attrs| - 1;
      GroupSeparable(rows, labels, attrs, d, Room(|attrs|, depth, limit), a, v);
      if g.0 != [] { SeparableBuilds(g.0, g.1, attrs - {a}, unique, d, depth + 1, limit, pick); }
    }
  }

  ghost function AnyOf(s: set<nat>): (a: nat)
    ensures s != {} ==> a in s
  {
    if s == {} then 0 else var a :| a in s; a
  }

  /** Picks columns of s as long as there are any. */
  ghost function PickFrom(s: set<nat>): (pick: Chooser)
    ensures Chooses(pick)
    ensures forall rows, labels, attrs :: attrs * s != {} ==> pick(rows, labels, attrs) in attrs * s
  {
    (rows: seq<Vector>, labels: seq<nat>, attrs: set<nat>) => if attrs * s != {} then AnyOf(attrs * s) else AnyOf(attrs)
  }

  /** A child that cannot be built is missing in the end. */
  lemma ChildFails(rows: seq<Vector>, labels: seq<nat>, attrs: set<nat>, unique: map<nat, seq<real>>, d: nat,
                   depth: nat, limit: Option<nat>, pick: Chooser, v: real)
    requires Frame(rows, labels, attrs, unique, d) && rows != [] && Chooses(pick) && attrs != {} && !OneLabel(labels)
    requires v in unique[pick(rows, labels, attrs)] && (limit.None? || depth <= limit.value)
    requires Child(rows, labels, attrs - {pick(rows, labels, attrs)}, unique, d, depth, limit, pick, pick(rows, labels, attrs), v).None?
    ensures Build(rows, labels, attrs, unique, d, depth, limit, pick).None?
  {
    hide Child, GainsDefined;
    var a := pick(rows, labels, attrs);
    RemoveShrinks(attrs, a);
    var n :| 0 <= n < |unique[a]| && unique[a][n] == v;
    NoneStays(rows, labels, attrs - {a}, unique, d, depth, limit, pick, a, n + 1, |unique[a]|);
  }

  /** A block by no column at all is a constant column. */
  lemma BlockedNow(rows: seq<Vector>, labels: seq<nat>, attrs: set<nat>, d: nat, i: nat, j: nat, c: nat)
    requires |rows| == |labels| && Rows(rows, d) && rows != [] && (forall a :: a in attrs ==> a < d)
    requires Blocked(rows, labels, attrs, d, i, j, {}, c)
    ensures !GainsDefined(rows, attrs, d)
  {
    assert forall m :: 0 <= m < |rows| ==> Agree(rows[m], rows[i], {}, d);
    assert forall m :: 0 <= m < |rows| ==> rows[m][c] == rows[i][c];
  }

  /** Splitting by a column of a block leaves the block in the group of its rows. */
  lemma GroupBlocked(rows: seq<Vector>, labels: seq<nat>, attrs: set<nat>, d: nat, i: nat, j: nat, s: set<nat>, c: nat, a: nat)
    returns (k: nat, l: nat)
    requires |rows| == |labels| && Rows(rows, d) && Blocked(rows, labels, attrs, d, i, j, s, c) && a in s && a < d
    ensures var g := Select(rows, labels, a, rows[i][a], d, |rows|);
            g.0 != [] && Blocked(g.0, g.1, attrs - {a}, d, k, l, s - {a}, c)
  {
    var v := rows[i][a];
    k := SelectKeeps(rows, labels, a, v, d, |rows|, i);
    l := SelectKeeps(rows, labels, a, v, d, |rows|, j);
    var g := Select(rows, labels, a, v, d, |rows|);
    hide Select;
    forall m | 0 <= m < |g.0| && Agree(g.0[m], rows[i], s - {a}, d) ensures g.0[m][c] == rows[i][c] {
      var o := SelectFrom(rows, labels, a, v, d, |rows|, m);
      assert Agree(rows[o], rows[i], s, d);
    }
  }

  /** A construction that splits by the columns of a block first reaches a frame with a constant column. */
  lemma {:induction false} BlockedFails(rows: seq<Vector>, labels: seq<nat>, attrs: set<nat>, unique: map<nat, seq<real>>,
                                        d: nat, depth: nat, limit: Option<nat>, first: set<nat>, i: nat, j: nat, c: nat)
    requires Frame(rows, labels, attrs, unique, d) && Covered(rows, attrs, unique, d) && rows != []
    requires Blocked(rows, labels, attrs, d, i, j, attrs * first, c)
    requires |attrs * first| <= Room(|attrs|, depth, limit)
    ensures Build(rows, labels, attrs, unique, d, depth, limit, PickFrom(first)).None?
    decreases |attrs|
  {
    hide PickFrom, Select, Covered;
    var pick, s := PickFrom(first), attrs * first;
    var a := pick(rows, labels, attrs);
    assert !OneLabel(labels);
    if s == {} {
      BlockedNow(rows, labels, attrs, d, i, j, c);
    } else {
      var v := rows[i][a];
      RemoveShrinks(attrs, a);
      assert (attrs - {a}) * first == s - {a} && |attrs - {a}| == |attrs| - 1;
      var k, l := GroupBlocked(rows, labels, attrs, d, i, j, s, c, a);
      GroupCovered(rows, labels, attrs, unique, d, a, v);
      var g := Select(rows, labels, a, v, d, |rows|);
      BlockedFails(g.0, g.1, attrs - {a}, unique, d, depth + 1, limit, first, k, l, c);
      hide Build, Blocked;
      assert v in unique[a] by { RowCovered(rows, attrs, unique, d, i, a); }
      ChildFails(rows, labels, attrs, unique, d, depth, limit, pick, v);
    }
  }

  lemma RowCovered(rows: seq<Vector>, attrs: set<nat>, unique: map<nat, seq<real>>, d: nat, i: nat, a: nat)
    requires Rows(rows, d) && Covered(rows, attrs, unique, d) && i < |rows| && a in attrs && a < d && a in unique
    ensures rows[i][a] in unique[a]
  {
  }

  lemma GroupCovered(rows: seq<Vector>, labels: seq<nat>, attrs: set<nat>, unique: map<nat, seq<real>>, d: nat, a: nat, v: real)
    requires Frame(rows, labels, attrs, unique, d) && a in attrs && Covered(rows, attrs, unique, d)
    ensures Covered(Select(rows, labels, a, v, d, |rows|).0, attrs - {a}, unique, d)
  {
    var g := Select(rows, labels, a, v, d, |rows|);
    hide Select;
    forall k, b | 0 <= k < |g.0| && b in attrs - {a} && b < d && b in unique ensures g.0[k][b] in unique[b] {
      var i := SelectFrom(rows, labels, a, v, d, |rows|, k);
    }
  }

  /**
   The construction succeeds for every way to pick the attributes if and only if the rows are separable as far as
   the construction may go down.
   */
  lemma BuildsIffSeparable(rows: seq<Vector>, labels: seq<nat>, attrs: set<nat>, unique: map<nat, seq<real>>, d: nat,
                           depth: nat, limit: Option<nat>)
    requires Frame(rows, labels, attrs, unique, d) && rows != [] && Covered(rows, attrs, unique, d)
    ensures (forall pick: Chooser | Chooses(pick) :: Build(rows, labels, attrs, unique, d, depth, limit, pick).Some?)
       <==> SeparableTo(rows, labels, attrs, d, Room(|attrs|, depth, limit))
  {
    hide Build;
    var n := Room(|attrs|, depth, limit);
    if SeparableTo(rows, labels, attrs, d, n) {
      forall pick: Chooser | Chooses(pick) ensures Build(rows, labels, attrs, unique, d, depth, limit, pick).Some? {
        SeparableBuilds(rows, labels, attrs, unique, d, depth, limit, pick);
      }
    } else {
      var i, j, s, c :| Blocked(rows, labels, attrs, d, i, j, s, c) && |s| <= n;
      assert attrs * s == s;
      BlockedFails(rows, labels, attrs, unique, d, depth, limit, s, i, j, c);
      assert Chooses(PickFrom(s));
    }
  }

  /** A block by the picked column alone makes the construction fail one level down. */
  lemma BlockedByPick(rows: seq<Vector>, labels: seq<nat>, attrs: set<nat>, unique: map<nat, seq<real>>, d: nat,
                      depth: nat, pick: Chooser, i: nat, j: nat, c: nat)
    requires Frame(rows, labels, attrs, unique, d) && Covered(rows, attrs, unique, d) && rows != [] && Chooses(pick)
    requires attrs != {} && Blocked(rows, labels, attrs, d, i, j, {pick(rows, labels, attrs)}, c)
    ensures Build(rows, labels, attrs, unique, d, depth, None, pick).None?
  {
    hide GainsDefined, Select, Covered;
    var a := pick(rows, labels, attrs);
    var v := rows[i][a];
    RemoveShrinks(attrs, a);
    var k, l := GroupBlocked(rows, labels, attrs, d, i, j, {a}, c, a);
    var g := Select(rows, labels, a, v, d, |rows|);
    assert {a} - {a} == {} && !OneLabel(labels) && !OneLabel(g.1);
    BlockedNow(g.0, g.1, attrs - {a}, d, k, l, c);
    RowCovered(rows, attrs, unique, d, i, a);
    ChildFails(rows, labels, attrs, unique, d, depth, None, pick, v);
  }

  /** Four rows of which no column is constant. */
  function FourRows(): (rows: seq<Vector>)
    ensures Rows(rows, 3)
  {
    [[0.0, 0.0, 0.0], [0.0, 1.0, 0.0], [1.0, 0.0, 1.0], [1.0, 1.0, 1.0]]
  }

  /** In the first two of them the third column is constant. */
  lemma FourRowsBlocked()
    ensures GainsDefined(FourRows(), {0, 1, 2}, 3)
    ensures Blocked(FourRows(), [0, 1, 2, 3], {0, 1, 2}, 3, 0, 1, {0}, 2)
  {
    var rows := FourRows();
    assert rows[3][0] != rows[0][0] && rows[3][1] != rows[0][1] && rows[3][2] != rows[0][2];
    forall m | 0 <= m < |rows| && Agree(rows[m], rows[0], {0}, 3) ensures rows[m][2] == rows[0][2] {
      assert rows[m][0] == rows[0][0];
    }
  }

  /** All gains are defined at the root, yet after a split by the first column the construction fails below it. */
  lemma FailsBelowTheRoot(unique: map<nat, seq<real>>, depth: nat, pick: Chooser)
    requires Frame(FourRows(), [0, 1, 2, 3], {0, 1, 2}, unique, 3) && Covered(FourRows(), {0, 1, 2}, unique, 3)
    requires Chooses(pick) && pick(FourRows(), [0, 1, 2, 3], {0, 1, 2}) == 0
    ensures GainsDefined(FourRows(), {0, 1, 2}, 3) && !Separable(FourRows(), [0, 1, 2, 3], {0, 1, 2}, 3)
    ensures Build(FourRows(), [0, 1, 2, 3], {0, 1, 2}, unique, 3, depth, None, pick).None?
  {
    FourRowsBlocked();
    hide FourRows, GainsDefined, Separable, Covered, Blocked, Build;
    BlockedInseparable(FourRows(), [0, 1, 2, 3], {0, 1, 2}, 3, 0, 1, {0}, 2);
    BlockedByPick(FourRows(), [0, 1, 2, 3], {0, 1, 2}, unique, 3, depth, pick, 0, 1, 2);
  }

  // ----- The whole class

  /** The values of column a among the first n rows, each once, in order of appearance. */
  function Uniques(data: seq<Vector>, a: nat, d: nat, n: nat): (u: seq<real>)
    requires Rows(data, d) && a < d && n <= |data|
    ensures forall i :: 0 <= i < n ==> data[i][a] in u
    ensures forall i, j :: 0 <= i < j < |u| ==> u[i] != u[j]
  {
    if n == 0 then []
    else
      var u := Uniques(data, a, d, n - 1);
      if data[n - 1][a] in u then u else u + [data[n - 1][a]]
  }

  /** Each of them has a row, at which none of those listed after it has appeared yet. */
  lemma {:induction false} UniquesInOrder(data: seq<Vector>, a: nat, d: nat, n: nat, k: nat) returns (i: nat)
    requires Rows(data, d) && a < d && n <= |data| && k < |Uniques(data, a, d, n)|
    ensures i < n && data[i][a] == Uniques(data, a, d, n)[k]
    ensures forall j, l :: 0 <= j <= i && k < l < |Uniques(data, a, d, n)| ==> data[j][a] != Uniques(data, a, d, n)[l]
  {
    var u := Uniques(data, a, d, n - 1);
    if k < |u| {
      i := UniquesInOrder(data, a, d, n - 1, k);
      forall j | 0 <= j <= i ensures data[j][a] in u { }
    } else {
      i := n - 1;
    }
  }

  function UniqueAttrs(data: seq<Vector>, d: nat): map<nat, seq<real>>
    requires Rows(data, d)
  {
    map a: nat | 0 <= a < d :: Uniques(data, a, d, |data|)
  }

  function Columns(d: nat): (c: set<nat>)
    ensures |c| == d && forall a: nat :: a in c <==> a < d
  {
    if d == 0 then {} else Columns(d - 1) + {d - 1}
  }

  /** The tree of the data labelled by its nearest centroids. */
  function TreeOf(data: seq<Vector>, cents: seq<Vector>, d: nat, limit: Option<nat>, pick: Chooser): Option<Tree>
    requires Rows(data, d) && data != [] && Rows(cents, d) && |cents| >= 1 && Chooses(pick)
  {
    FrameOfData(data, cents, d);
    Build(data, Labels(data, cents, d), Columns(d), UniqueAttrs(data, d), d, 1, limit, pick)
  }

  lemma FrameOfData(data: seq<Vector>, cents: seq<Vector>, d: nat)
    requires Rows(data, d) && data != [] && Rows(cents, d) && |cents| >= 1
    ensures Frame(data, Labels(data, cents, d), Columns(d), UniqueAttrs(data, d), d)
  {
    forall a | a in Columns(d) ensures UniqueAttrs(data, d)[a] != [] {
      assert data[0][a] in Uniques(data, a, d, |data|);
    }
  }

  method Construct(data: seq<Vector>, cents: seq<Vector>, d: nat, limit: Option<nat>, pick: Chooser) returns (r: Option<Tree>)
    requires Rows(data, d) && data != [] && Rows(cents, d) && |cents| >= 1 && Chooses(pick)
    ensures r == TreeOf(data, cents, d, limit, pick)
    ensures r.Some? ==> AttrsBelow(r.value, d)
  {
    var predicted := KMeans.Predict(data, cents, d);
    FrameOfData(data, cents, d);
    r := CreateNode(data, predicted, Columns(d), UniqueAttrs(data, d), d, 1, limit, pick);
    if r.Some? { BuildFits(data, predicted, Columns(d), UniqueAttrs(data, d), d, 1, limit, pick); }
  }

  /** Equal rows have equal labels, and every value of the data is among the unique ones. */
  lemma LabelsFunctional(data: seq<Vector>, cents: seq<Vector>, d: nat)
    requires Rows(data, d) && data != [] && Rows(cents, d) && |cents| >= 1
    ensures Functional(data, Labels(data, cents, d), Columns(d), d) && Covered(data, Columns(d), UniqueAttrs(data, d), d)
  {
    var labels := Labels(data, cents, d);
    forall j, k | 0 <= j < |data| && 0 <= k < |data| && Agree(data[j], data[k], Columns(d), d)
      ensures labels[j] == labels[k]
    {
      assert forall a: nat :: a < d ==> a in Columns(d);
      assert data[j] == data[k];
    }
  }

  /** With the given depth limit the labelled data are separable as far as the tree may go down. */
  ghost predicate Treeable(data: seq<Vector>, cents: seq<Vector>, d: nat, limit: Option<nat>)
    requires Rows(data, d) && Rows(cents, d) && |cents| >= 1
  {
    SeparableTo(data, Labels(data, cents, d), Columns(d), d, Room(d, 1, limit))
  }

  /** The tree of the data can be built, whatever attributes are chosen, if and only if the data are treeable. */
  lemma TreeBuiltIff(data: seq<Vector>, cents: seq<Vector>, d: nat, limit: Option<nat>)
    requires Rows(data, d) && data != [] && Rows(cents, d) && |cents| >= 1
    ensures (forall pick: Chooser | Chooses(pick) :: TreeOf(data, cents, d, limit, pick).Some?) <==> Treeable(data, cents, d, limit)
    ensures limit.None? ==> (Treeable(data, cents, d, limit) <==> Separable(data, Labels(data, cents, d), Columns(d), d))
  {
    hide Build, Columns, UniqueAttrs, Labels, Separable, SeparableTo;
    FrameOfData(data, cents, d);
    LabelsFunctional(data, cents, d);
    BuildsIffSeparable(data, Labels(data, cents, d), Columns(d), UniqueAttrs(data, d), d, 1, limit);
    SeparableMeansAll(data, Labels(data, cents, d), Columns(d), d);
    forall pick: Chooser | Chooses(pick)
      ensures TreeOf(data, cents, d, limit, pick)
           == Build(data, Labels(data, cents, d), Columns(d), UniqueAttrs(data, d), d, 1, limit, pick)
    {
    }
  }

  /** A tree without a depth limit returns the k-means label of every row of the data. */
  lemma FinishedTreeReproduces(data: seq<Vector>, cents: seq<Vector>, d: nat, pick: Chooser, i: nat)
    requires Rows(data, d) && data != [] && Rows(cents, d) && |cents| >= 1 && Chooses(pick) && i < |data|
    requires TreeOf(data, cents, d, None, pick).Some?
    ensures Lookup(TreeOf(data, cents, d, None, pick).value, data[i]) == Nearest(data[i], cents)
  {
    hide Nearest, Build, Columns, UniqueAttrs, Lookup;
    FrameOfData(data, cents, d);
    LabelsFunctional(data, cents, d);
    BuildReproduces(data, Labels(data, cents, d), Columns(d), UniqueAttrs(data, d), d, 1, pick, i);
  }

  /** No lookup in a finished tree goes down more levels than attributes and depth limit allow. */
  lemma FinishedTreeFits(data: seq<Vector>, cents: seq<Vector>, d: nat, limit: Option<nat>, pick: Chooser, row: Vector)
    requires Rows(data, d) && data != [] && Rows(cents, d) && |cents| >= 1 && Chooses(pick)
    requires TreeOf(data, cents, d, limit, pick).Some?
    ensures Steps(TreeOf(data, cents, d, limit, pick).value, row) <= Room(d, 1, limit)
  {
    hide Build, UniqueAttrs;
    FrameOfData(data, cents, d);
    BuildFits(data, Labels(data, cents, d), Columns(d), UniqueAttrs(data, d), d, 1, limit, pick);
    StepsBounded(TreeOf(data, cents, d, limit, pick).value, row, Room(d, 1, limit));
  }

  /**
   For separable data, whatever attributes are chosen, there is a tree, and it returns the k-means label of every
   row of the data.
   */
  lemma TreeReproducesLabels(data: seq<Vector>, cents: seq<Vector>, d: nat, pick: Chooser, i: nat)
    requires Rows(data, d) && data != [] && Rows(cents, d) && |cents| >= 1 && Chooses(pick) && i < |data|
    requires Separable(data, Labels(data, cents, d), Columns(d), d)
    ensures TreeOf(data, cents, d, None, pick).Some?
    ensures Lookup(TreeOf(data, cents, d, None, pick).value, data[i]) == Labels(data, cents, d)[i] == Nearest(data[i], cents)
  {
    hide TreeOf, Separable, Treeable, Nearest, Lookup;
    TreeBuiltIff(data, cents, d, None);
    FinishedTreeReproduces(data, cents, d, pick, i);
  }

  /** For separable data every lookup goes down at most as many levels as there are attributes. */
  lemma TreeFits(data: seq<Vector>, cents: seq<Vector>, d: nat, pick: Chooser, row: Vector)
    requires Rows(data, d) && data != [] && Rows(cents, d) && |cents| >= 1 && Chooses(pick)
    requires Separable(data, Labels(data, cents, d), Columns(d), d)
    ensures TreeOf(data, cents, d, None, pick).Some?
    ensures Steps(TreeOf(data, cents, d, None, pick).value, row) <= d
  {
    hide TreeOf, Separable, Treeable, Steps;
    TreeBuiltIff(data, cents, d, None);
    FinishedTreeFits(data, cents, d, None, pick, row);
  }

  /** With a depth limit no lookup goes down more levels than the limit. */
  lemma LimitedTreeFits(data: seq<Vector>, cents: seq<Vector>, d: nat, limit: nat, pick: Chooser, row: Vector)
    requires Rows(data, d) && data != [] && Rows(cents, d) && |cents| >= 1 && Chooses(pick)
    requires Treeable(data, cents, d, Some(limit))
    ensures TreeOf(data, cents, d, Some(limit), pick).Some?
    ensures Steps(TreeOf(data, cents, d, Some(limit), pick).value, row) <= limit
  {
    hide TreeOf, Treeable, Steps;
    TreeBuiltIff(data, cents, d, Some(limit));
    FinishedTreeFits(data, cents, d, Some(limit), pick, row);
  }
}

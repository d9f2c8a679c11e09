/** Gathering datasets into an ordered tree and calling back for each: zfs_for_each
    (cmd/zfs/zfs_iter.c). */
module ForEach {
  import opened Base
  import opened Datasets
  import opened DatasetOrder
  import opened OrderedTree

  // ----- depth in the name tree -----

  function Seps(s: Name): nat {
    if s == "" then 0 else Seps(s[..|s| - 1]) + (if Separator(s[|s| - 1]) then 1 else 0)
  }

  lemma {:induction false} ExtendsSeps(p: Name, n: Name)
    requires Extends(p, n)
    ensures Seps(n) == Seps(p) + 1
    decreases |n|
  {
    var m := n[..|n| - 1];
    if |n| == |p| + 1 {
      assert m == p;
    } else {
      assert m[..|p|] == p;
      ExtendsSeps(p, m);
    }
  }

  lemma {:induction false} PrefixSeps(a: Name, b: Name)
    requires |a| <= |b| && b[..|a|] == a
    ensures Seps(a) <= Seps(b)
    decreases |b|
  {
    if |a| == |b| {
      assert a == b;
    } else {
      assert b[..|b| - 1][..|a|] == a;
      PrefixSeps(a, b[..|b| - 1]);
    }
  }

  lemma BelowDeeper(n: Name, m: Name)
    requires Below(n, m)
    ensures Seps(n) < Seps(m)
  {
    var k := m[..|n| + 1];
    assert k[..|n|] == n && k[|k| - 1] == m[|n|];
    PrefixSeps(k, m);
  }

  /** Nothing lies below two names with the same parent. */
  lemma SiblingsApart(n: Name, k1: Name, k2: Name, m: Name)
    requires Extends(n, k1) && Extends(n, k2) && Inside(k1, m) && Inside(k2, m)
    ensures k1 == k2
  {
    assert m[..|k1|] == k1 && m[..|k2|] == k2;
  }

  // ----- what should be shown -----

  /** The request: what to show, how deep, in what order, of which datasets. */
  datatype Request = Request(
    w: World,
    row: Name -> Row,                      // the handle opened for a name
    cols: seq<Column>,
    types: set<Kind>,
    snapsFor: Name -> bool,                // zfs_include_snapshots: by type, or by the pool's property
    recurse: bool,
    limit: Option<nat>)
  {
    predicate Wanted(n: Name) { w.kind(n) in types || (w.kind(n).Snapshot? && snapsFor(n)) }

    /** What a recursive callback goes on to. */
    function List(n: Name): seq<Name> {
      if w.kind(n).Snapshot? then []
      else (if w.kind(n).Filesystem? then w.kids(n) else []) + (if snapsFor(n) then w.snaps(n) else [])
    }

    /** How many levels further the recursion goes from a given depth. */
    function Left(depth: nat): Option<nat> {
      if !recurse then Some(0)
      else match limit case None => None case Some(l) => Some(if depth < l then l - depth else 0)
    }

    ghost predicate Valid() {
      && w.Valid()
      && (forall n | n in w.names :: row(n).name == n && (IsSnap(row(n)) <==> w.kind(n).Snapshot?))
      && (forall n, m | n in w.names && m in w.snaps(n) :: snapsFor(m) == snapsFor(n))
      && (forall n | n in w.names :: forall i, j | 0 <= i < j < |List(n)| :: List(n)[i] != List(n)[j])
    }
  }

  predicate Near(left: Option<nat>, n: Name, m: Name) {
    left.None? || Seps(m) <= Seps(n) + left.value
  }

  /** Of a type asked for, or a snapshot where snapshots are included; below another dataset a snapshot
      only where they are. */
  predicate OfType(q: Request, n: Name, m: Name) {
    if q.w.kind(m) == Snapshot then q.snapsFor(m) || (m == n && Snapshot in q.types) else q.w.kind(m) in q.types
  }

  /** Under the argument `n`, by name: deep enough, of a type asked for, and a snapshot only if
      snapshots are included. */
  ghost predicate Hit(q: Request, left: Option<nat>, n: Name, m: Name) {
    Inside(n, m) && Near(left, n, m) && OfType(q, n, m)
  }

  function Less(left: Option<nat>): Option<nat>
    requires left != Some(0)
  {
    match left case None => None case Some(l) => Some(l - 1)
  }

  /** What lies below a dataset lies in what the callback goes on to. */
  lemma StepDown(q: Request, left: Option<nat>, n: Name, m: Name) returns (k: Name)
    requires q.Valid() && n in q.w.names && m in q.w.names && left != Some(0)
    requires Hit(q, left, n, m) && m != n
    ensures k in q.List(n) && Hit(q, Less(left), k, m) && k in q.w.names
  {
    var w := q.w;
    assert m[|n|] in m;
    var p := w.parent(m);
    ParentNext(n, p, m);
    if w.kind(n).Snapshot? {
      NothingUnderSnapshot(w, n, m);
      k := n;
    } else if p == n {
      k := m;
    } else if w.kind(m).Snapshot? {
      k := FirstStep(w, w.names, n, p);
      if k != p {
        BelowTrans(k, p, m);
      }
    } else {
      k := FirstStep(w, w.names, n, m);
    }
    ExtendsSeps(n, k);
  }

  lemma ListFacts(q: Request, n: Name, k: Name)
    requires q.Valid() && n in q.w.names && k in q.List(n)
    ensures k in q.w.names && Extends(n, k) && Below(n, k) && (q.w.kind(k).Snapshot? ==> q.snapsFor(k))
  {
    assert q.w.Valid();
    hide World.Valid;
    assert k in q.w.Next(n);
    ChildFacts(q.w, n, k);
    SnapsIncluded(q, n, k);
  }

  lemma SnapsIncluded(q: Request, n: Name, k: Name)
    requires q.Valid() && n in q.w.names && k in q.List(n) && (q.w.kind(k).Snapshot? ==> k in q.w.snaps(n))
    ensures q.w.kind(k).Snapshot? ==> q.snapsFor(k)
  {
  }

  /** What lies below a child, one level less deep, lies below the parent. */
  lemma StepUp(q: Request, left: Option<nat>, n: Name, k: Name, m: Name)
    requires q.Valid() && n in q.w.names && k in q.List(n) && left != Some(0)
    requires Hit(q, Less(left), k, m)
    ensures Hit(q, left, n, m)
  {
    ListFacts(q, n, k);
    ExtendsSeps(n, k);
    if m != k {
      BelowTrans(n, k, m);
    }
  }

  lemma ListShrinks(q: Request, n: Name, k: Name)
    requires q.Valid() && n in q.w.names && k in q.List(n)
    ensures Under(q.w, k) < Under(q.w, n)
  {
    ListFacts(q, n, k);
    forall m | m in Under(q.w, k) ensures m in Under(q.w, n) {
      BelowTrans(n, k, m);
    }
    assert k in Under(q.w, n) - Under(q.w, k);
  }

  // ----- what is gathered, in order of visiting -----

  /** The names zfs_callback puts into the tree for `n`, with so many levels left. */
  ghost function Visits(q: Request, left: Option<nat>, n: Name): seq<Name>
    requires q.Valid() && n in q.w.names
    decreases Under(q.w, n), |q.List(n)| + 1
  {
    (if q.Wanted(n) then [n] else []) + (if left == Some(0) then [] else VisitsFrom(q, Less(left), n, 0))
  }

  /** Those for the datasets below it, from the i-th one listed on. */
  ghost function VisitsFrom(q: Request, left: Option<nat>, n: Name, i: nat): seq<Name>
    requires q.Valid() && n in q.w.names && i <= |q.List(n)|
    decreases Under(q.w, n), |q.List(n)| - i
  {
    if i == |q.List(n)| then []
    else
      var k := q.List(n)[i];
      ListFacts(q, n, k);
      ListShrinks(q, n, k);
      Visits(q, left, k) + VisitsFrom(q, left, n, i + 1)
  }

  /** Exactly what should be shown is gathered. */
  lemma {:induction false} VisitsExact(q: Request, left: Option<nat>, n: Name, m: Name)
    requires q.Valid() && n in q.w.names && m in q.w.names
    ensures m in Visits(q, left, n) <==> Hit(q, left, n, m)
    decreases Under(q.w, n), |q.List(n)| + 1
  {
    hide Request.Valid, Under;
    if left == Some(0) {
      if Hit(q, left, n, m) && m != n {
        BelowDeeper(n, m);
      }
    } else {
      VisitsFromExact(q, Less(left), n, 0, m);
      if Hit(q, left, n, m) && m != n {
        var k := StepDown(q, left, n, m);
        var j :| 0 <= j < |q.List(n)| && q.List(n)[j] == k;
      }
      if j :| 0 <= j < |q.List(n)| && Hit(q, Less(left), q.List(n)[j], m) {
        StepUp(q, left, n, q.List(n)[j], m);
      }
    }
  }

  lemma {:induction false} VisitsFromExact(q: Request, left: Option<nat>, n: Name, i: nat, m: Name)
    requires q.Valid() && n in q.w.names && i <= |q.List(n)| && m in q.w.names
    ensures m in VisitsFrom(q, left, n, i) <==> exists j | i <= j < |q.List(n)| :: Hit(q, left, q.List(n)[j], m)
    decreases Under(q.w, n), |q.List(n)| - i
  {
    hide Request.Valid, Under, Hit;
    if i == |q.List(n)| {
    } else {
      var k := q.List(n)[i];
      ListFacts(q, n, k);
      ListShrinks(q, n, k);
      VisitsExact(q, left, k, m);
      VisitsFromExact(q, left, n, i + 1, m);
    }
  }

  ghost predicate Distinct(ns: seq<Name>) {
    forall i, j | 0 <= i < j < |ns| :: ns[i] != ns[j]
  }

  lemma DistinctJoin(a: seq<Name>, b: seq<Name>)
    requires Distinct(a) && Distinct(b) && forall x | x in a :: x !in b
    ensures Distinct(a + b)
  {
    forall i, j | 0 <= i < j < |a + b| ensures (a + b)[i] != (a + b)[j] {
      if i < |a| <= j {
        assert a[i] in a && b[j - |a|] in b;
      }
    }
  }

  lemma {:induction false} VisitsNamed(q: Request, left: Option<nat>, n: Name)
    requires q.Valid() && n in q.w.names
    ensures forall m | m in Visits(q, left, n) :: m in q.w.names
    decreases Under(q.w, n), |q.List(n)| + 1
  {
    hide Request.Valid, Under;
    if left == Some(0) {
    } else {
      VisitsFromNamed(q, Less(left), n, 0);
    }
  }

  lemma {:induction false} VisitsFromNamed(q: Request, left: Option<nat>, n: Name, i: nat)
    requires q.Valid() && n in q.w.names && i <= |q.List(n)|
    ensures forall m | m in VisitsFrom(q, left, n, i) :: m in q.w.names
    decreases Under(q.w, n), |q.List(n)| - i
  {
    hide Request.Valid, Under;
    if i == |q.List(n)| {
    } else {
      var k := q.List(n)[i];
      ListFacts(q, n, k);
      ListShrinks(q, n, k);
      VisitsNamed(q, left, k);
      VisitsFromNamed(q, left, n, i + 1);
    }
  }

  /** Nothing is gathered twice under one argument. */
  lemma {:induction false} VisitsDistinct(q: Request, left: Option<nat>, n: Name)
    requires q.Valid() && n in q.w.names
    ensures Distinct(Visits(q, left, n))
    decreases Under(q.w, n), |q.List(n)| + 1
  {
    hide Request.Valid, Under, Hit;
    if left == Some(0) {
    } else {
      VisitsFromDistinct(q, Less(left), n, 0);
      NotBelowItself(q, Less(left), n);
      DistinctJoin(if q.Wanted(n) then [n] else [], VisitsFrom(q, Less(left), n, 0));
    }
  }

  lemma NotBelowItself(q: Request, left: Option<nat>, n: Name)
    requires q.Valid() && n in q.w.names
    ensures n !in VisitsFrom(q, left, n, 0)
  {
    hide Request.Valid;
    VisitsFromExact(q, left, n, 0, n);
    forall j | 0 <= j < |q.List(n)| ensures !Hit(q, left, q.List(n)[j], n) {
      ListFacts(q, n, q.List(n)[j]);
    }
  }

  lemma {:induction false} VisitsFromDistinct(q: Request, left: Option<nat>, n: Name, i: nat)
    requires q.Valid() && n in q.w.names && i <= |q.List(n)|
    ensures Distinct(VisitsFrom(q, left, n, i))
    decreases Under(q.w, n), |q.List(n)| - i
  {
    hide Request.Valid, Under, Hit;
    if i == |q.List(n)| {
    } else {
      var k := q.List(n)[i];
      ListFacts(q, n, k);
      ListShrinks(q, n, k);
      VisitsDistinct(q, left, k);
      VisitsFromDistinct(q, left, n, i + 1);
      VisitsNamed(q, left, k);
      forall m | m in Visits(q, left, k) ensures m !in VisitsFrom(q, left, n, i + 1) {
        VisitsExact(q, left, k, m);
        VisitsFromExact(q, left, n, i + 1, m);
        if j :| i + 1 <= j < |q.List(n)| && Hit(q, left, q.List(n)[j], m) {
          OneParent(q, left, n, i, j, m);
        }
      }
      DistinctJoin(Visits(q, left, k), VisitsFrom(q, left, n, i + 1));
    }
  }

  /** Different datasets with one parent have nothing below them in common. */
  lemma OneParent(q: Request, left: Option<nat>, n: Name, i: nat, j: nat, m: Name)
    requires q.Valid() && n in q.w.names && i < |q.List(n)| && j < |q.List(n)|
    requires Hit(q, left, q.List(n)[i], m) && Hit(q, left, q.List(n)[j], m)
    ensures i == j
  {
    ListFacts(q, n, q.List(n)[i]);
    ListFacts(q, n, q.List(n)[j]);
    SiblingsApart(n, q.List(n)[i], q.List(n)[j], m);
  }

  // ----- inserting one after the other -----

  ghost function InsertAll(q: Request, rows: seq<Row>, ns: seq<Name>): seq<Row>
    decreases |ns|
  {
    if ns == [] then rows else InsertAll(q, Insert(By(q.cols), rows, q.row(ns[0])), ns[1..])
  }

  lemma {:induction false} InsertAllJoin(q: Request, rows: seq<Row>, a: seq<Name>, b: seq<Name>)
    ensures InsertAll(q, rows, a + b) == InsertAll(q, InsertAll(q, rows, a), b)
    decreases |a|
  {
    hide Insert;
    if a == [] {
      assert a + b == b;
    } else {
      assert (a + b)[1..] == a[1..] + b;
      InsertAllJoin(q, Insert(By(q.cols), rows, q.row(a[0])), a[1..], b);
    }
  }

  lemma InsertOne(q: Request, rows: seq<Row>, n: Name)
    ensures InsertAll(q, rows, [n]) == Insert(By(q.cols), rows, q.row(n)) && InsertAll(q, rows, []) == rows
  {
    assert [n][1..] == [];
  }

  lemma InsertLast(q: Request, ns: seq<Name>)
    requires ns != []
    ensures InsertAll(q, [], ns) ==
            Insert(By(q.cols), InsertAll(q, [], ns[..|ns| - 1]), q.row(ns[|ns| - 1]))
  {
    hide Insert, InsertAll, By;
    assert ns == ns[..|ns| - 1] + [ns[|ns| - 1]];
    InsertAllJoin(q, [], ns[..|ns| - 1], [ns[|ns| - 1]]);
    InsertOne(q, InsertAll(q, [], ns[..|ns| - 1]), ns[|ns| - 1]);
  }

  lemma {:induction false} InsertAllOrdered(q: Request, ns: seq<Name>)
    ensures Ordered(By(q.cols), InsertAll(q, [], ns))
    decreases |ns|
  {
    hide Insert, Lawful;
    if ns == [] {
    } else {
      hide Ordered;
      InsertAllOrdered(q, ns[..|ns| - 1]);
      InsertLast(q, ns);
      ByLawful(q.cols);
      InsertOrdered(By(q.cols), InsertAll(q, [], ns[..|ns| - 1]), q.row(ns[|ns| - 1]));
    }
  }

  /** The tree gets a handle of a filesystem or volume for every time it is gathered. */
  lemma {:induction false} EveryTime(q: Request, ns: seq<Name>, n: Name)
    requires q.Valid() && n in q.w.names && !q.w.kind(n).Snapshot? && forall m | m in ns :: m in q.w.names
    ensures multiset(InsertAll(q, [], ns))[q.row(n)] == multiset(ns)[n]
    decreases |ns|
  {
    hide World.Valid, Insert, Present, By;
    if ns == [] {
    } else {
      var rest, m := ns[..|ns| - 1], ns[|ns| - 1];
      assert m in ns && q.row(m).name == m && q.row(n).name == n && !IsSnap(q.row(n));
      EveryTime(q, rest, n);
      InsertLast(q, ns);
      assert ns == rest + [m];
      var was := InsertAll(q, [], rest);
      hide InsertAll;
      if m == n {
        DatasetAdded(q.cols, was, q.row(n));
      } else {
        InsertBag(By(q.cols), was, q.row(m));
      }
    }
  }

  // ----- one handle for each name -----

  /** A tree that holds one handle for each of the names, in order. */
  ghost predicate Holds(q: Request, rows: seq<Row>, names: set<Name>) {
    && Ordered(By(q.cols), rows)
    && (forall i, j | 0 <= i < j < |rows| :: rows[i].name != rows[j].name)
    && (forall n :: n in names <==> exists i | 0 <= i < |rows| :: rows[i].name == n)
    && (forall i | 0 <= i < |rows| :: rows[i].name in q.w.names && rows[i] == q.row(rows[i].name))
  }

  /** Two names whose handles the sort cannot tell apart. */
  predicate Same(q: Request, n: Name, m: Name) {
    Tied(q.row(n), q.row(m)) && SameColumns(q.cols, q.row(n), q.row(m))
  }

  ghost predicate NoneSame(q: Request, names: set<Name>) {
    forall n, m | n in names && m in names && n != m :: !Same(q, n, m)
  }

  /** Only snapshots are gathered repeatedly. */
  ghost predicate NoRepeat(q: Request, ns: seq<Name>) {
    forall i, j | 0 <= i < j < |ns| && ns[i] == ns[j] :: q.w.kind(ns[i]).Snapshot?
  }

  lemma NewIsInserted(q: Request, rows: seq<Row>, names: set<Name>, n: Name)
    requires Holds(q, rows, names) && forall m | m in names :: !Same(q, n, m)
    ensures !Present(By(q.cols), rows, q.row(n))
  {
    var p := Place(By(q.cols), rows, q.row(n));
    if p < |rows| {
      assert rows[p].name in names && rows[p] == q.row(rows[p].name);
      SortZero(q.cols, q.row(n), rows[p]);
    }
  }

  lemma InsertHolds(q: Request, rows: seq<Row>, names: set<Name>, n: Name)
    requires q.Valid() && Holds(q, rows, names) && n in q.w.names && n !in names
    requires forall m | m in names :: !Same(q, n, m)
    ensures Holds(q, Insert(By(q.cols), rows, q.row(n)), names + {n})
  {
    hide Place, Present, Sort, Ordered, Lawful, Same, World.Valid;
    var r := q.row(n);
    var p := Place(By(q.cols), rows, r);
    NewIsInserted(q, rows, names, n);
    ByLawful(q.cols);
    InsertOrdered(By(q.cols), rows, r);
    var out := Insert(By(q.cols), rows, r);
    assert r.name == n;
    hide Request.Valid;
    assert out == Splice(rows, p, r);
    SpliceNames(rows, p, r);
    forall m ensures m in names + {n} <==> exists i | 0 <= i < |out| :: out[i].name == m {
      SpliceNamed(rows, p, r, m);
    }
  }

  lemma SpliceNames(rows: seq<Row>, p: nat, r: Row)
    requires p <= |rows|
    requires forall i, j | 0 <= i < j < |rows| :: rows[i].name != rows[j].name
    requires forall i | 0 <= i < |rows| :: rows[i].name != r.name
    ensures var out := Splice(rows, p, r); forall i, j | 0 <= i < j < |out| :: out[i].name != out[j].name
  {
    var out := Splice(rows, p, r);
    forall i, j | 0 <= i < j < |out| ensures out[i].name != out[j].name {
      var i', j' := if i < p then i else i - 1, if j < p then j else j - 1;
      assert i != p ==> out[i] == rows[i'];
      assert j != p ==> out[j] == rows[j'];
    }
  }

  ghost predicate Named(rows: seq<Row>, m: Name) {
    exists i | 0 <= i < |rows| :: rows[i].name == m
  }

  lemma SpliceNamed(rows: seq<Row>, p: nat, r: Row, m: Name)
    requires p <= |rows|
    ensures Named(Splice(rows, p, r), m) <==> Named(rows, m) || r.name == m
  {
    var out := Splice(rows, p, r);
    assert out[p] == r;
    if i :| 0 <= i < |rows| && rows[i].name == m {
      assert out[if i < p then i else i + 1] == rows[i];
    }
    if i :| 0 <= i < |out| && out[i].name == m {
      assert i != p ==> out[i] == rows[if i < p then i else i - 1];
    }
  }

  /** A snapshot whose handle is there already is left out. */
  lemma SnapshotTwice(q: Request, rows: seq<Row>, names: set<Name>, n: Name)
    requires q.Valid() && Holds(q, rows, names) && n in names && q.w.kind(n).Snapshot?
    ensures Insert(By(q.cols), rows, q.row(n)) == rows
  {
    hide World.Valid, Sort, Insert, Head, Tag, Ordered;
    var i :| 0 <= i < |rows| && rows[i].name == n;
    assert IsSnap(q.row(n));
    hide Request.Valid;
    forall k | 0 <= k < |q.cols| ensures q.cols[k].CmpRows(q.row(n), q.row(n)) == 0 {
      ColumnSigns(q.cols[k], q.row(n), q.row(n));
    }
    DroppedExactly(q.cols, rows, q.row(n));
  }

  lemma {:induction false} ClearHolds(q: Request, ns: seq<Name>)
    requires q.Valid() && forall m | m in ns :: m in q.w.names
    requires NoRepeat(q, ns) && NoneSame(q, set m | m in ns)
    ensures Holds(q, InsertAll(q, [], ns), set m | m in ns)
    decreases |ns|
  {
    hide Request.Valid, Insert, Same;
    if ns == [] {
    } else {
      hide Holds;
      var rest, n := ns[..|ns| - 1], ns[|ns| - 1];
      assert ns == rest + [n];
      assert NoRepeat(q, rest) by {
        assert forall i | 0 <= i < |rest| :: rest[i] == ns[i];
      }
      ClearHolds(q, rest);
      InsertLast(q, ns);
      var names, was := (set m | m in rest), InsertAll(q, [], rest);
      if n in rest {
        var i :| 0 <= i < |rest| && rest[i] == n;
        assert ns[i] == ns[|ns| - 1];
        SnapshotTwice(q, was, names, n);
        assert (set m | m in ns) == names;
      } else {
        InsertHolds(q, was, names, n);
        assert (set m | m in ns) == names + {n};
      }
    }
  }

  lemma HoldsClear(q: Request, ns: seq<Name>)
    requires q.Valid() && forall m | m in ns :: m in q.w.names
    requires Holds(q, InsertAll(q, [], ns), set m | m in ns)
    ensures NoRepeat(q, ns) && NoneSame(q, set m | m in ns)
  {
    hide Request.Valid;
    var rows, names := InsertAll(q, [], ns), (set m | m in ns);
    forall n, m | n in names && m in names && n != m ensures !Same(q, n, m) {
      HoldsApart(q, rows, names, n, m);
    }
    forall i, j | 0 <= i < j < |ns| && ns[i] == ns[j] ensures q.w.kind(ns[i]).Snapshot? {
      var n := ns[i];
      TwiceInBag(ns, i, j);
      OnceInBag(rows, q.row(n));
      if !q.w.kind(n).Snapshot? {
        EveryTime(q, ns, n);
      }
    }
  }

  lemma HoldsApart(q: Request, rows: seq<Row>, names: set<Name>, n: Name, m: Name)
    requires Holds(q, rows, names) && n in names && m in names && n != m
    ensures !Same(q, n, m)
  {
    hide Sort, Tied, SameColumns;
    var i :| 0 <= i < |rows| && rows[i].name == n;
    var j :| 0 <= j < |rows| && rows[j].name == m;
    SortZero(q.cols, rows[i], rows[j]);
    SortSigns(q.cols, rows[i], rows[j]);
    assert i < j ==> By(q.cols)(rows[i], rows[j]) < 0;
    assert j < i ==> By(q.cols)(rows[j], rows[i]) < 0;
  }

  /** callback_data_t. */
  class Gatherer {
    const q: Request
    var rows: seq<Row>
    var depth: nat

    constructor (q: Request)
      ensures this.q == q && rows == [] && depth == 0
    {
      this.q, rows, depth := q, [], 0;
    }

    /** zfs_callback: what lies below, to the depth left, is inserted, and the depth is as it was. */
    method Callback(n: Name)
      requires q.Valid() && n in q.w.names
      modifies this
      ensures depth == old(depth)
      ensures rows == InsertAll(q, old(rows), Visits(q, q.Left(depth), n))
      decreases Under(q.w, n), |q.List(n)| + 1
    {
      hide Request.Valid, Request.Wanted, Request.List, Under, Insert, InsertAll;
      ghost var left := q.Left(depth);
      ghost var self := if q.Wanted(n) then [n] else [];
      InsertOne(q, rows, n);
      if q.Wanted(n) {
        rows := Insert(By(q.cols), rows, q.row(n));
      }
      if q.recurse && (q.limit.None? || depth < q.limit.value) {
        InsertAllJoin(q, old(rows), self, VisitsFrom(q, Less(left), n, 0));
        depth := depth + 1;
        assert q.Left(depth) == Less(left);
        Each(n);
        depth := depth - 1;
      } else {
        assert self + [] == self;
      }
    }

    /** zfs_iter_filesystems and zfs_iter_snapshots with the callback. */
    method Each(n: Name)
      requires q.Valid() && n in q.w.names
      modifies this
      ensures depth == old(depth)
      ensures rows == InsertAll(q, old(rows), VisitsFrom(q, q.Left(depth), n, 0))
      decreases Under(q.w, n), |q.List(n)|
    {
      hide Request.Valid, Request.List, Under, Insert;
      var list := q.List(n);
      ghost var left := q.Left(depth);
      for i := 0 to |list|
        invariant depth == old(depth)
        invariant InsertAll(q, rows, VisitsFrom(q, left, n, i)) == InsertAll(q, old(rows), VisitsFrom(q, left, n, 0))
      {
        ListFacts(q, n, list[i]);
        ListShrinks(q, n, list[i]);
        InsertAllJoin(q, rows, Visits(q, left, list[i]), VisitsFrom(q, left, n, i + 1));
        Callback(list[i]);
      }
    }
  }

  // ----- the arguments -----

  /** Two subtrees that share a name are one inside the other. */
  lemma NestedOrApart(a: Name, b: Name, m: Name)
    requires Inside(a, m) && Inside(b, m)
    ensures Inside(a, b) || Inside(b, a)
  {
    assert m[..|a|] == a && m[..|b|] == b;
    if |a| < |b| {
      assert b[..|a|] == a && b[|a|] == m[|a|];
    } else if |b| < |a| {
      assert a[..|b|] == b && a[|b|] == m[|b|];
    }
  }

  /** The types an argument may have: with -r a filesystem always, and a volume if its snapshots count. */
  function ArgTypes(q: Request): set<Kind> {
    q.types + (if q.recurse then {Filesystem} + (if Snapshot in q.types then {Volume} else {}) else {})
  }

  predicate Opens(q: Request, a: Name) { a in q.w.names && q.w.kind(a) in ArgTypes(q) }

  /** What is gathered from all the starting points. */
  ghost function Gathered(q: Request, starts: seq<Name>): seq<Name>
    requires q.Valid() && forall n | n in starts :: n in q.w.names
  {
    if starts == [] then []
    else Gathered(q, starts[..|starts| - 1]) + Visits(q, q.Left(0), starts[|starts| - 1])
  }

  /** The arguments that can be opened. */
  function Opened(q: Request, args: seq<Name>): (starts: seq<Name>)
    ensures forall n :: n in starts <==> n in args && Opens(q, n)
  {
    if args == [] then []
    else
      var a := args[|args| - 1];
      assert args == args[..|args| - 1] + [a];
      Opened(q, args[..|args| - 1]) + (if Opens(q, a) then [a] else [])
  }

  /** Without arguments every pool is gone through recursively. */
  function Effective(q: Request, args: seq<Name>): (r: Request)
    ensures r.w == q.w && r.cols == q.cols && (q.Valid() ==> r.Valid())
  {
    var r := if args == [] then q.(recurse := true) else q;
    assert forall n :: r.List(n) == q.List(n);
    r
  }

  function Starts(q: Request, args: seq<Name>, pools: seq<Name>): seq<Name> {
    if args == [] then pools else Opened(q, args)
  }

  ghost predicate Pools(w: World, pools: seq<Name>) { forall p | p in pools :: p in w.names && w.IsPool(p) }

  /** An argument is taken if it is of a type asked for, or if with recursion it is a filesystem, or a volume
      when snapshots are asked for. */
  lemma OpensExactly(q: Request, a: Name)
    ensures Opens(q, a) <==>
            && a in q.w.names
            && (|| q.w.kind(a) in q.types
                || (q.recurse && q.w.kind(a) == Filesystem)
                || (q.recurse && q.w.kind(a) == Volume && Snapshot in q.types))
  {
  }

  /** zfs_for_each up to the callbacks, which then get the handles in this order. */
  method ZfsForEach(q: Request, args: seq<Name>, pools: seq<Name>) returns (bad: bool, shown: seq<Row>)
    requires q.Valid() && Pools(q.w, pools)
    ensures bad <==> exists i | 0 <= i < |args| :: !Opens(q, args[i])
    ensures var r := Effective(q, args);
            shown == InsertAll(r, [], Gathered(r, Starts(q, args, pools))) && Ordered(By(q.cols), shown)
  {
    hide Request.Valid, World.Valid, Opens, Visits, Gathered, Opened, InsertAll, Ordered, Insert, Under;
    var r := Effective(q, args);
    var g := new Gatherer(r);
    bad := false;
    NoneYet(r);
    NoneYet(q);
    if args == [] {
      assert pools[..0] == [];
      for i := 0 to |pools|
        invariant g.depth == 0 && g.q == r && fresh(g)
        invariant g.rows == InsertAll(r, [], Gathered(r, pools[..i]))
      {
        assert pools[..i + 1] == pools[..i] + [pools[i]];
        GatheredNext(r, pools[..i], pools[i]);
        g.Callback(pools[i]);
      }
      assert pools[..|pools|] == pools;
    } else {
      assert args[..0] == [];
      for i := 0 to |args|
        invariant g.depth == 0 && g.q == r && fresh(g)
        invariant forall n | n in Opened(q, args[..i]) :: n in q.w.names
        invariant g.rows == InsertAll(r, [], Gathered(r, Opened(q, args[..i])))
        invariant bad <==> exists j | 0 <= j < i :: !Opens(q, args[j])
      {
        OpenedNext(q, args, i);
        assert Opened(q, args[..i]) + [] == Opened(q, args[..i]);
        if Opens(q, args[i]) {
          OpensNames(q, args[i]);
          GatheredNext(r, Opened(q, args[..i]), args[i]);
          g.Callback(args[i]);
        } else {
          bad := true;
        }
      }
      assert args[..|args|] == args;
    }
    InsertAllOrdered(r, Gathered(r, Starts(q, args, pools)));
    shown := g.rows;
  }

  lemma OpenedNext(q: Request, args: seq<Name>, i: nat)
    requires i < |args|
    ensures Opened(q, args[..i + 1]) == Opened(q, args[..i]) + (if Opens(q, args[i]) then [args[i]] else [])
  {
    assert args[..i + 1][..i] == args[..i];
  }

  lemma NoneYet(q: Request)
    requires q.Valid()
    ensures InsertAll(q, [], Gathered(q, [])) == [] && Opened(q, []) == []
  {
  }

  lemma GatheredNext(q: Request, starts: seq<Name>, a: Name)
    requires q.Valid() && (forall n | n in starts :: n in q.w.names) && a in q.w.names
    ensures InsertAll(q, [], Gathered(q, starts + [a])) ==
            InsertAll(q, InsertAll(q, [], Gathered(q, starts)), Visits(q, q.Left(0), a))
  {
    hide Request.Valid, Visits, InsertAll;
    assert (starts + [a])[..|starts|] == starts;
    InsertAllJoin(q, [], Gathered(q, starts), Visits(q, q.Left(0), a));
  }

  lemma OpensNames(q: Request, a: Name)
    requires Opens(q, a)
    ensures a in q.w.names
  {
  }

  // ----- what is shown -----

  /** What one starting point asks for: itself or, with recursion, what is below it and not too deep, if
      it is of a type asked for. */
  predicate Wants(q: Request, n: Name, m: Name) {
    && (m == n || (q.recurse && Below(n, m) && (q.limit.None? || Seps(m) <= Seps(n) + q.limit.value)))
    && OfType(q, n, m)
  }

  lemma WantsIsHit(q: Request, n: Name, m: Name)
    ensures Hit(q, q.Left(0), n, m) <==> Wants(q, n, m)
  {
    if Below(n, m) {
      BelowDeeper(n, m);
    }
  }

  /** What the starting points ask for. */
  ghost predicate Asked(q: Request, starts: seq<Name>, m: Name) {
    m in q.w.names && exists i | 0 <= i < |starts| :: Wants(q, starts[i], m)
  }

  /** No filesystem or volume is asked for by two starting points. */
  ghost predicate AskedOnce(q: Request, starts: seq<Name>) {
    forall i, j, m | 0 <= i < j < |starts| && m in q.w.names
      && Wants(q, starts[i], m) && Wants(q, starts[j], m) :: q.w.kind(m).Snapshot?
  }

  ghost predicate Disjoint(starts: seq<Name>) {
    forall i, j | 0 <= i < j < |starts| :: !Inside(starts[i], starts[j]) && !Inside(starts[j], starts[i])
  }

  lemma {:induction false} GatheredExact(q: Request, starts: seq<Name>, m: Name)
    requires q.Valid() && forall n | n in starts :: n in q.w.names
    ensures m in Gathered(q, starts) <==> Asked(q, starts, m)
    decreases |starts|
  {
    hide Request.Valid, Wants, Visits;
    if starts == [] {
    } else {
      var a, rest := starts[|starts| - 1], starts[..|starts| - 1];
      GatheredExact(q, rest, m);
      VisitsNamed(q, q.Left(0), a);
      if m in q.w.names {
        VisitsExact(q, q.Left(0), a, m);
        WantsIsHit(q, a, m);
      }
      AskedLast(q, starts, m);
    }
  }

  lemma AskedLast(q: Request, starts: seq<Name>, m: Name)
    requires starts != []
    ensures Asked(q, starts, m) <==>
            || Asked(q, starts[..|starts| - 1], m)
            || (m in q.w.names && Wants(q, starts[|starts| - 1], m))
  {
    hide Wants;
    var rest := starts[..|starts| - 1];
    if Asked(q, rest, m) {
      var i :| 0 <= i < |rest| && Wants(q, rest[i], m);
      assert starts[i] == rest[i];
    }
    if Asked(q, starts, m) {
      var i :| 0 <= i < |starts| && Wants(q, starts[i], m);
      assert i < |rest| ==> rest[i] == starts[i];
    }
  }

  lemma RepeatJoin(q: Request, a: seq<Name>, b: seq<Name>)
    ensures NoRepeat(q, a + b) <==>
            NoRepeat(q, a) && NoRepeat(q, b) && forall m | m in a && m in b :: q.w.kind(m).Snapshot?
  {
    var c := a + b;
    if NoRepeat(q, c) {
      assert forall i | 0 <= i < |a| :: a[i] == c[i];
      assert forall i | 0 <= i < |b| :: b[i] == c[|a| + i];
      forall m | m in a && m in b ensures q.w.kind(m).Snapshot? {
        var i :| 0 <= i < |a| && a[i] == m;
        var j :| 0 <= j < |b| && b[j] == m;
        assert c[i] == c[|a| + j];
      }
    }
  }

  lemma {:induction false} RepeatExactly(q: Request, starts: seq<Name>)
    requires q.Valid() && forall n | n in starts :: n in q.w.names
    ensures NoRepeat(q, Gathered(q, starts)) <==> AskedOnce(q, starts)
    decreases |starts|
  {
    hide Request.Valid, Wants, Visits;
    if starts == [] {
    } else {
      var a, rest := starts[|starts| - 1], starts[..|starts| - 1];
      RepeatExactly(q, rest);
      VisitsDistinct(q, q.Left(0), a);
      RepeatJoin(q, Gathered(q, rest), Visits(q, q.Left(0), a));
      forall m ensures m in Gathered(q, rest) && m in Visits(q, q.Left(0), a) <==>
                       Asked(q, rest, m) && Wants(q, a, m)
      {
        GatheredExact(q, rest, m);
        if m in q.w.names {
          VisitsExact(q, q.Left(0), a, m);
        WantsIsHit(q, a, m);
          WantsIsHit(q, a, m);
        }
      }
      OnceLast(q, starts);
    }
  }

  lemma OnceLast(q: Request, starts: seq<Name>)
    requires starts != []
    ensures AskedOnce(q, starts) <==>
            && AskedOnce(q, starts[..|starts| - 1])
            && forall m | Asked(q, starts[..|starts| - 1], m) && Wants(q, starts[|starts| - 1], m) ::
                 q.w.kind(m).Snapshot?
  {
    hide Wants;
    var k := |starts| - 1;
    var rest := starts[..k];
    assert forall i | 0 <= i < k :: rest[i] == starts[i];
    if AskedOnce(q, starts) {
      forall m | Asked(q, rest, m) && Wants(q, starts[k], m) ensures q.w.kind(m).Snapshot? {
        var i :| 0 <= i < k && Wants(q, rest[i], m);
        assert Wants(q, starts[i], m);
      }
    }
  }

  /** The handles come up in sort order, one for each name asked for and for no other, exactly when no
      filesystem or volume is asked for twice and the sort can tell all the handles apart. */
  lemma ShownExactly(q: Request, starts: seq<Name>, names: set<Name>)
    requires q.Valid() && forall n | n in starts :: n in q.w.names
    requires forall m :: m in names <==> Asked(q, starts, m)
    ensures Holds(q, InsertAll(q, [], Gathered(q, starts)), names) <==> AskedOnce(q, starts) && NoneSame(q, names)
  {
    hide Request.Valid, Gathered, InsertAll, Wants, AskedOnce, NoneSame, Holds, NoRepeat;
    var ns := Gathered(q, starts);
    forall m ensures m in ns <==> Asked(q, starts, m) {
      GatheredExact(q, starts, m);
    }
    assert (set m | m in ns) == names;
    RepeatExactly(q, starts);
    if NoRepeat(q, ns) && NoneSame(q, names) {
      ClearHolds(q, ns);
    }
    if Holds(q, InsertAll(q, [], ns), names) {
      HoldsClear(q, ns);
    }
  }

  /** It is enough that no starting point lies inside another. */
  lemma DisjointOnce(q: Request, starts: seq<Name>)
    requires Disjoint(starts)
    ensures AskedOnce(q, starts)
  {
    forall i, j, m | 0 <= i < j < |starts|
      ensures !(Wants(q, starts[i], m) && Wants(q, starts[j], m))
    {
      if Inside(starts[i], m) && Inside(starts[j], m) {
        NestedOrApart(starts[i], starts[j], m);
      }
    }
  }

  // ----- without arguments -----

  lemma {:induction false} SomePool(w: World, n: Name) returns (p: Name)
    requires w.Valid() && n in w.names
    ensures p in w.names && w.IsPool(p) && Inside(p, n)
    decreases |n|
  {
    if w.IsPool(n) {
      p := n;
    } else {
      assert w.parent(n) in w.names && Extends(w.parent(n), n);
      hide World.Valid;
      p := SomePool(w, w.parent(n));
      if p != w.parent(n) {
        BelowTrans(p, w.parent(n), n);
      }
    }
  }

  lemma {:induction false} NoSeps(s: Name)
    requires forall c | c in s :: !Separator(c)
    ensures Seps(s) == 0
    decreases |s|
  {
    if s == "" {
    } else {
      NoSeps(s[..|s| - 1]);
    }
  }

  predicate Proper(q: Request, m: Name) {
    if q.w.kind(m) == Snapshot then q.snapsFor(m) else q.w.kind(m) in q.types
  }

  /** Without arguments, everything in every pool that is of a type asked for and not too deep by its name
      is asked for, and nothing of it twice. */
  lemma EverythingShown(q: Request, pools: seq<Name>, m: Name)
    requires q.Valid() && Pools(q.w, pools) && Distinct(pools)
    requires forall p | p in q.w.names && q.w.IsPool(p) :: p in pools
    ensures AskedOnce(Effective(q, []), Starts(q, [], pools))
    ensures Asked(Effective(q, []), Starts(q, [], pools), m) <==>
            m in q.w.names && Proper(q, m) && (q.limit.None? || Seps(m) <= q.limit.value)
  {
    hide Request.Valid, Asked, AskedOnce;
    PoolsShown(Effective(q, []), pools, m);
  }

  lemma PoolsShown(q: Request, pools: seq<Name>, m: Name)
    requires q.Valid() && q.recurse && Pools(q.w, pools) && Distinct(pools)
    requires forall p | p in q.w.names && q.w.IsPool(p) :: p in pools
    ensures AskedOnce(q, pools)
    ensures Asked(q, pools, m) <==>
            m in q.w.names && Proper(q, m) && (q.limit.None? || Seps(m) <= q.limit.value)
  {
    assert q.w.Valid();
    hide Request.Valid, World.Valid, Seps, Wants;
    forall i, j | 0 <= i < |pools| && 0 <= j < |pools| && i != j ensures !Inside(pools[i], pools[j]) {
      PoolsApart(q.w, pools, i, j);
    }
    DisjointOnce(q, pools);
    if m in q.w.names {
      var p := SomePool(q.w, m);
      var i :| 0 <= i < |pools| && pools[i] == p;
      PoolHit(q, p, m);
    }
    forall i | 0 <= i < |pools| && m in q.w.names && Wants(q, pools[i], m)
      ensures Proper(q, m) && (q.limit.None? || Seps(m) <= q.limit.value)
    {
      assert pools[i] in pools;
      PoolHit(q, pools[i], m);
    }
  }

  lemma PoolHit(q: Request, p: Name, m: Name)
    requires q.Valid() && q.recurse && p in q.w.names && q.w.IsPool(p)
    ensures Wants(q, p, m) <==>
            Inside(p, m) && Proper(q, m) && (q.limit.None? || Seps(m) <= q.limit.value)
  {
    NoSeps(p);
  }

  lemma PoolsApart(w: World, pools: seq<Name>, i: nat, j: nat)
    requires w.Valid() && Pools(w, pools) && Distinct(pools) && i < |pools| && j < |pools| && i != j
    ensures !Inside(pools[i], pools[j])
  {
    assert pools[j] in pools && pools[i] != pools[j];
  }
}

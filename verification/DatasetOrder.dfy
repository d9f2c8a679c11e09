/** The order in which zfs list and its kin show datasets (cmd/zfs/zfs_iter.c). */
module DatasetOrder {
  import opened Base
  import opened OrderedTree
  import opened Strings

  /** A handle: its name, its creation transaction, and an identity its properties depend on. */
  datatype Row = Row(name: string, createTxg: nat, id: nat)

  predicate IsSnap(r: Row) { '@' in r.name }

  function At(s: string): nat
    ensures At(s) <= |s|
    ensures '@' in s <==> At(s) < |s|
    ensures At(s) < |s| ==> s[At(s)] == '@'
    ensures forall i | 0 <= i < At(s) :: s[i] != '@'
  {
    if s == "" || s[0] == '@' then 0 else 1 + At(s[1..])
  }

  /** The dataset a name belongs to, and what follows the '@'. */
  function Head(r: Row): string { r.name[..At(r.name)] }

  function Tag(r: Row): string
    requires IsSnap(r)
  {
    r.name[At(r.name) + 1..]
  }

  function CmpNum(a: nat, b: nat): int { if a < b then -1 else if a > b then 1 else 0 }

  /** Two snapshots of one dataset: by creation, or by name when neither says when it was made. */
  function CmpSnaps(l: Row, r: Row): int
    requires IsSnap(l) && IsSnap(r)
  {
    if l.createTxg == 0 && r.createTxg == 0 then Cmp(Tag(l), Tag(r)) else CmpNum(l.createTxg, r.createTxg)
  }

  /** zfs_compare. */
  function Compare(l: Row, r: Row): int {
    var h := Cmp(Head(l), Head(r));
    if h != 0 then h
    else if !IsSnap(l) then -1
    else if !IsSnap(r) then 1
    else CmpSnaps(l, r)
  }

  /** A sort column and how it reads a row; no value means it does not apply to the row. */
  datatype Column =
    | StrColumn(str: Row -> Option<string>, reverse: bool)
    | NumColumn(num: Row -> Option<nat>, reverse: bool)
  {
    predicate Applies(r: Row) {
      match this case StrColumn(f, _) => f(r).Some? case NumColumn(f, _) => f(r).Some?
    }

    function CmpValues(l: Row, r: Row): int
      requires Applies(l) && Applies(r)
    {
      match this
      case StrColumn(f, _) => Cmp(f(l).value, f(r).value)
      case NumColumn(f, _) => CmpNum(f(l).value, f(r).value)
    }

    /** One turn of the loop in zfs_sort; 0 goes on to the next column. */
    function CmpRows(l: Row, r: Row): int {
      if !Applies(l) && !Applies(r) then 0
      else if !Applies(l) then 1
      else if !Applies(r) then -1
      else
        var c := CmpValues(l, r);
        if c != 0 && reverse then (if c < 0 then 1 else -1) else c
    }
  }

  /** zfs_sort. */
  function Sort(cols: seq<Column>, l: Row, r: Row): int
    decreases |cols|
  {
    if cols == [] then Compare(l, r)
    else
      var c := cols[0].CmpRows(l, r);
      if c != 0 then c else Sort(cols[1..], l, r)
  }

  method ZfsSort(cols: seq<Column>, l: Row, r: Row) returns (ret: int)
    ensures ret == Sort(cols, l, r)
  {
    for i := 0 to |cols|
      invariant Sort(cols[i..], l, r) == Sort(cols, l, r)
    {
      assert cols[i..][1..] == cols[i + 1..];
      var c := cols[i].CmpRows(l, r);
      if c != 0 {
        return c;
      }
    }
    ret := Compare(l, r);
  }

  // ----- when it is an order -----

  /** Two handles zfs_compare cannot tell apart: snapshots of one dataset made in the same known
      transaction, or the same snapshot. */
  predicate Tied(l: Row, r: Row) {
    && IsSnap(l) && IsSnap(r) && Head(l) == Head(r) && l.createTxg == r.createTxg
    && (l.createTxg != 0 || Tag(l) == Tag(r))
  }

  /** Two handles of the same filesystem or volume; each is said to come before the other. */
  predicate SameDataset(l: Row, r: Row) {
    !IsSnap(l) && !IsSnap(r) && l.name == r.name
  }

  lemma CompareSigns(l: Row, r: Row)
    ensures Compare(l, r) == 0 <==> Tied(l, r)
    ensures Compare(l, r) == -Compare(r, l) <==> !SameDataset(l, r)
    ensures SameDataset(l, r) ==> Compare(l, r) == -1
  {
    CmpSigns(Head(l), Head(r));
    if IsSnap(l) && IsSnap(r) {
      CmpSigns(Tag(l), Tag(r));
    }
    if !IsSnap(l) {
      assert l.name[..|l.name|] == l.name;
    }
    if !IsSnap(r) {
      assert r.name[..|r.name|] == r.name;
    }
  }

  lemma CompareTrans(a: Row, b: Row, c: Row)
    requires Compare(a, b) <= 0 && Compare(b, c) <= 0
    ensures Compare(a, c) <= 0
    ensures Compare(a, b) < 0 || Compare(b, c) < 0 ==> Compare(a, c) < 0
  {
    CmpTrans(Head(a), Head(b), Head(c));
    CmpSigns(Head(a), Head(b));
    CmpSigns(Head(b), Head(c));
    if IsSnap(a) && IsSnap(b) && IsSnap(c) && Cmp(Tag(a), Tag(b)) <= 0 && Cmp(Tag(b), Tag(c)) <= 0 {
      CmpTrans(Tag(a), Tag(b), Tag(c));
    }
  }

  lemma ColumnSigns(col: Column, l: Row, r: Row)
    ensures col.CmpRows(l, r) == -col.CmpRows(r, l)
  {
    match col
    case StrColumn(f, _) => if f(l).Some? && f(r).Some? { CmpSigns(f(l).value, f(r).value); }
    case NumColumn(_, _) =>
  }

  lemma ColumnTrans(col: Column, a: Row, b: Row, c: Row)
    requires col.CmpRows(a, b) <= 0 && col.CmpRows(b, c) <= 0
    ensures col.CmpRows(a, c) <= 0
    ensures col.CmpRows(a, b) < 0 || col.CmpRows(b, c) < 0 ==> col.CmpRows(a, c) < 0
  {
    match col
    case StrColumn(f, rev) =>
      if f(a).Some? && f(b).Some? && f(c).Some? {
        CmpSigns(f(a).value, f(b).value);
        CmpSigns(f(b).value, f(c).value);
        CmpSigns(f(a).value, f(c).value);
        if rev {
          CmpTrans(f(c).value, f(b).value, f(a).value);
        } else {
          CmpTrans(f(a).value, f(b).value, f(c).value);
        }
      }
    case NumColumn(_, _) =>
  }

  /** No column tells the two apart. */
  predicate SameColumns(cols: seq<Column>, l: Row, r: Row) {
    forall i | 0 <= i < |cols| :: cols[i].CmpRows(l, r) == 0
  }

  lemma ColumnsSplit(cols: seq<Column>, l: Row, r: Row)
    requires cols != []
    ensures SameColumns(cols, l, r) <==> cols[0].CmpRows(l, r) == 0 && SameColumns(cols[1..], l, r)
  {
    assert forall i | 0 < i < |cols| :: cols[i] == cols[1..][i - 1];
  }

  /** With any columns, two handles compare oppositely both ways round exactly when they are not of the
      same filesystem or some column tells them apart. */
  lemma {:induction false} SortSigns(cols: seq<Column>, l: Row, r: Row)
    ensures Sort(cols, l, r) == -Sort(cols, r, l) <==> !SameDataset(l, r) || !SameColumns(cols, l, r)
    decreases |cols|
  {
    if cols == [] {
      CompareSigns(l, r);
    } else {
      ColumnSigns(cols[0], l, r);
      SortSigns(cols[1..], l, r);
      ColumnsSplit(cols, l, r);
    }
  }

  /** With any columns, two handles compare equal exactly when they are tied and no column tells them
      apart. */
  lemma {:induction false} SortZero(cols: seq<Column>, l: Row, r: Row)
    ensures Sort(cols, l, r) == 0 <==> Tied(l, r) && SameColumns(cols, l, r)
    decreases |cols|
  {
    if cols == [] {
      CompareSigns(l, r);
    } else {
      SortZero(cols[1..], l, r);
      ColumnsSplit(cols, l, r);
    }
  }

  /** With any columns, being before or equal is transitive, and strictly so if either step is. */
  lemma {:induction false} SortTrans(cols: seq<Column>, a: Row, b: Row, c: Row)
    requires Sort(cols, a, b) <= 0 && Sort(cols, b, c) <= 0
    ensures Sort(cols, a, c) <= 0
    ensures Sort(cols, a, b) < 0 || Sort(cols, b, c) < 0 ==> Sort(cols, a, c) < 0
    decreases |cols|
  {
    if cols == [] {
      CompareTrans(a, b, c);
    } else {
      ColumnTrans(cols[0], a, b, c);
      hide Column.CmpRows;
      if cols[0].CmpRows(a, b) == 0 && cols[0].CmpRows(b, c) == 0 {
        ColumnSigns(cols[0], a, b);
        ColumnSigns(cols[0], b, c);
        ColumnTrans(cols[0], c, b, a);
        ColumnSigns(cols[0], a, c);
        SortTrans(cols[1..], a, b, c);
      }
    }
  }

  /** Whoever comes later is preceded, even when the order is not a total one. */
  lemma {:induction false} SortFlips(cols: seq<Column>, l: Row, r: Row)
    requires Sort(cols, l, r) > 0
    ensures Sort(cols, r, l) < 0
    decreases |cols|
  {
    if cols == [] {
      CompareSigns(l, r);
    } else {
      ColumnSigns(cols[0], l, r);
      if cols[0].CmpRows(l, r) == 0 {
        SortFlips(cols[1..], l, r);
      }
    }
  }

  // ----- who comes first -----

  /** By the values of one column: the smaller number or the earlier string comes first, the other way
      round if reversed, and a row without a value always comes after one with a value. */
  ghost predicate ColumnFirst(col: Column, l: Row, r: Row) {
    match col
    case StrColumn(f, reverse) =>
      f(l).Some? && (f(r).Some? ==>
        if reverse then Earlier(f(r).value, f(l).value) else Earlier(f(l).value, f(r).value))
    case NumColumn(f, reverse) =>
      f(l).Some? && (f(r).Some? ==> if reverse then f(r).value < f(l).value else f(l).value < f(r).value)
  }

  lemma ColumnExact(col: Column, l: Row, r: Row)
    ensures col.CmpRows(l, r) < 0 <==> ColumnFirst(col, l, r)
    ensures col.CmpRows(l, r) > 0 <==> ColumnFirst(col, r, l)
  {
    ColumnSigns(col, l, r);
    match col {
      case StrColumn(f, _) =>
        if f(l).Some? && f(r).Some? {
          CmpExact(f(l).value, f(r).value);
          CmpExact(f(r).value, f(l).value);
          CmpSigns(f(l).value, f(r).value);
        }
      case NumColumn(_, _) =>
    }
  }

  /** By the names: the dataset whose name is earlier, a dataset before its snapshots, and of the snapshots
      of one dataset the one made first, or named first if it is not known of either when it was made. */
  ghost predicate NameFirst(l: Row, r: Row) {
    || Earlier(Head(l), Head(r))
    || (Head(l) == Head(r) && !IsSnap(l))
    || (Head(l) == Head(r) && IsSnap(l) && IsSnap(r) && l.createTxg < r.createTxg)
    || (Head(l) == Head(r) && IsSnap(l) && IsSnap(r) && l.createTxg == r.createTxg == 0 && Earlier(Tag(l), Tag(r)))
  }

  lemma NameExact(l: Row, r: Row)
    ensures Compare(l, r) < 0 <==> NameFirst(l, r)
  {
    CmpSigns(Head(l), Head(r));
    CmpExact(Head(l), Head(r));
    if IsSnap(l) && IsSnap(r) {
      CmpExact(Tag(l), Tag(r));
    }
  }

  /** The first column in which one of the two comes first decides, else the names. */
  ghost predicate FirstBy(cols: seq<Column>, l: Row, r: Row, m: nat) {
    && m <= |cols|
    && (forall k | 0 <= k < m :: !ColumnFirst(cols[k], l, r) && !ColumnFirst(cols[k], r, l))
    && if m < |cols| then ColumnFirst(cols[m], l, r) else NameFirst(l, r)
  }

  ghost predicate First(cols: seq<Column>, l: Row, r: Row) {
    exists m :: FirstBy(cols, l, r, m)
  }

  /** What the sort puts first. */
  lemma {:induction false} SortExact(cols: seq<Column>, l: Row, r: Row)
    ensures Sort(cols, l, r) < 0 <==> First(cols, l, r)
    decreases |cols|
  {
    hide ColumnFirst, NameFirst, Column.CmpRows, Compare;
    if cols == [] {
      NameExact(l, r);
      assert NameFirst(l, r) ==> FirstBy(cols, l, r, 0);
    } else {
      ColumnExact(cols[0], l, r);
      SortExact(cols[1..], l, r);
      assert ColumnFirst(cols[0], l, r) ==> FirstBy(cols, l, r, 0);
      if m: nat :| FirstBy(cols[1..], l, r, m) {
        FirstJoin(cols, l, r, m);
      }
      if m: nat :| FirstBy(cols, l, r, m) {
        FirstSplit(cols, l, r, m);
      }
    }
  }

  lemma FirstJoin(cols: seq<Column>, l: Row, r: Row, m: nat)
    requires cols != [] && FirstBy(cols[1..], l, r, m)
    ensures !ColumnFirst(cols[0], l, r) && !ColumnFirst(cols[0], r, l) ==> FirstBy(cols, l, r, m + 1)
  {
    hide ColumnFirst, NameFirst;
    assert forall k | 0 < k < |cols| :: cols[k] == cols[1..][k - 1];
  }

  lemma FirstSplit(cols: seq<Column>, l: Row, r: Row, m: nat)
    requires cols != [] && FirstBy(cols, l, r, m)
    ensures if m == 0 then ColumnFirst(cols[0], l, r)
            else !ColumnFirst(cols[0], l, r) && !ColumnFirst(cols[0], r, l) && FirstBy(cols[1..], l, r, m - 1)
  {
    hide ColumnFirst, NameFirst;
    if m > 0 {
      assert forall k | 0 <= k < |cols| - 1 :: cols[1..][k] == cols[k + 1];
    }
  }

  // ----- rows in order -----

  /** The order of the tree, as a comparator. */
  function By(cols: seq<Column>): Order<Row> { (l, r) => Sort(cols, l, r) }

  /** With any columns the tree can rely on the comparator. */
  lemma ByLawful(cols: seq<Column>)
    ensures Lawful(By(cols))
  {
    hide Sort;
    forall a, b: Row | By(cols)(a, b) > 0 ensures By(cols)(b, a) < 0 {
      SortFlips(cols, a, b);
    }
    forall a, b, c: Row | By(cols)(a, b) <= 0 && By(cols)(b, c) <= 0
      ensures By(cols)(a, c) <= 0 && (By(cols)(a, b) < 0 || By(cols)(b, c) < 0 ==> By(cols)(a, c) < 0)
    {
      SortTrans(cols, a, b, c);
    }
  }

  /** The tree is in order exactly when of any two of its rows the one before comes first. */
  lemma OrderedExactly(cols: seq<Column>, rows: seq<Row>)
    ensures Ordered(By(cols), rows) <==> forall i, j | 0 <= i < j < |rows| :: First(cols, rows[i], rows[j])
  {
    hide Sort, First;
    forall i, j | 0 <= i < j < |rows| ensures By(cols)(rows[i], rows[j]) < 0 <==> First(cols, rows[i], rows[j]) {
      SortExact(cols, rows[i], rows[j]);
    }
  }

  /** Where two rows agree in the columns before it, a column that applies to one of them only
      puts that one first, reversed or not. */
  lemma {:induction false} InvalidLast(cols: seq<Column>, rows: seq<Row>, i: nat, j: nat, m: nat)
    requires Ordered(By(cols), rows) && i < j < |rows| && m < |cols|
    requires forall k | 0 <= k < m :: cols[k].CmpRows(rows[i], rows[j]) == 0
    requires cols[m].Applies(rows[j])
    ensures cols[m].Applies(rows[i])
  {
    assert By(cols)(rows[i], rows[j]) < 0;
    FirstDifference(cols, rows[i], rows[j], m);
  }

  lemma {:induction false} FirstDifference(cols: seq<Column>, l: Row, r: Row, m: nat)
    requires m < |cols|
    requires forall k | 0 <= k < m :: cols[k].CmpRows(l, r) == 0
    ensures cols[m].CmpRows(l, r) != 0 ==> Sort(cols, l, r) == cols[m].CmpRows(l, r)
    decreases m
  {
    if m == 0 {
    } else {
      assert cols[0].CmpRows(l, r) == 0;
      FirstDifference(cols[1..], l, r, m - 1);
    }
  }

  /** Without columns, whatever is shown between a dataset and a snapshot of it is a snapshot of it. */
  lemma SnapshotsFollow(rows: seq<Row>, i: nat, k: nat, j: nat)
    requires Ordered(By([]), rows) && i < k < j < |rows|
    requires !IsSnap(rows[i]) && IsSnap(rows[j]) && Head(rows[j]) == rows[i].name
    requires rows[k].name != rows[i].name
    ensures IsSnap(rows[k]) && Head(rows[k]) == rows[i].name
    ensures rows[k].createTxg <= rows[j].createTxg
  {
    assert By([])(rows[i], rows[k]) < 0 && By([])(rows[k], rows[j]) < 0;
    assert rows[i].name[..|rows[i].name|] == rows[i].name;
    CmpSigns(Head(rows[i]), Head(rows[k]));
    assert rows[k].name[..|rows[k].name|] == rows[k].name;
    CmpSigns(Head(rows[k]), Head(rows[j]));
  }

  /** A dataset comes before its snapshots. */
  lemma SnapshotsAfter(rows: seq<Row>, i: nat, j: nat)
    requires Ordered(By([]), rows) && i < |rows| && j < |rows|
    requires !IsSnap(rows[i]) && IsSnap(rows[j]) && Head(rows[j]) == rows[i].name
    ensures i < j
  {
    assert j < i ==> By([])(rows[j], rows[i]) < 0;
    assert rows[i].name[..|rows[i].name|] == rows[i].name;
    CmpSigns(Head(rows[j]), Head(rows[i]));
  }

  /** A handle is left out of the tree exactly when something there is tied with it and no column
      tells the two apart. */
  lemma DroppedExactly(cols: seq<Column>, rows: seq<Row>, r: Row)
    requires Ordered(By(cols), rows)
    ensures Insert(By(cols), rows, r) == rows <==>
            exists i | 0 <= i < |rows| :: Tied(r, rows[i]) && SameColumns(cols, r, rows[i])
  {
    ByLawful(cols);
    hide Lawful, Sort;
    PresentExactly(By(cols), rows, r);
    forall i | 0 <= i < |rows|
      ensures By(cols)(r, rows[i]) == 0 <==> Tied(r, rows[i]) && SameColumns(cols, r, rows[i])
    {
      SortZero(cols, r, rows[i]);
    }
    if !Present(By(cols), rows, r) {
      assert |Insert(By(cols), rows, r)| == |rows| + 1;
    }
  }

  /** A handle of a filesystem or volume is always added, even if there is one of it already. */
  lemma DatasetAdded(cols: seq<Column>, rows: seq<Row>, r: Row)
    requires !IsSnap(r)
    ensures !Present(By(cols), rows, r)
    ensures multiset(Insert(By(cols), rows, r)) == multiset(rows) + multiset{r}
  {
    var p := Place(By(cols), rows, r);
    if p < |rows| {
      SortZero(cols, r, rows[p]);
    }
    InsertBag(By(cols), rows, r);
  }
}

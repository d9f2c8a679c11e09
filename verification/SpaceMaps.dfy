/** The in-core space map: an ordered tree of maximal segments, and the plain set of sectors
    it stands for (module/zfs/space_map.c). */
module SpaceMaps {
  import opened Base
  import opened SpaceMapLog

  /** space_seg_t: the sectors from start up to but excluding end. */
  datatype Seg = Seg(start: nat, end: nat)

  /** The AVL tree, read from its first segment to its last. */
  datatype Tree = Nil | Cons(head: Seg, tail: Tree)

  ghost function Points(t: Tree): set<int> {
    match t
    case Nil => {}
    case Cons(ss, rest) => Range(ss.start, ss.end) + Points(rest)
  }

  /** Segments at or above lo are non-empty, in order and never touch, so every run
      is maximal. */
  predicate Ordered(g: Geometry, lo: nat, t: Tree)
    decreases t
  {
    match t
    case Nil => true
    case Cons(ss, rest) =>
      && lo <= ss.start < ss.end <= g.start + g.size
      && Ordered(g, ss.end + 1, rest)
  }

  lemma {:induction false} PointsBounds(g: Geometry, lo: nat, t: Tree)
    requires Ordered(g, lo, t)
    ensures forall x | x in Points(t) :: lo <= x < g.start + g.size
    decreases t
  {
    match t {
      case Nil =>
      case Cons(ss, rest) => PointsBounds(g, ss.end + 1, rest);
    }
  }

  /** The sizes of the segments, added up. */
  function Total(g: Geometry, lo: nat, t: Tree): nat
    requires Ordered(g, lo, t)
    decreases t
  {
    match t
    case Nil => 0
    case Cons(ss, rest) => ss.end - ss.start + Total(g, ss.end + 1, rest)
  }

  lemma {:induction false} TotalSize(g: Geometry, lo: nat, t: Tree)
    requires Ordered(g, lo, t)
    ensures |Points(t)| == Total(g, lo, t)
    decreases t
  {
    match t {
      case Nil =>
      case Cons(ss, rest) =>
        TotalSize(g, ss.end + 1, rest);
        PointsBounds(g, ss.end + 1, rest);
        RangeSize(ss.start, ss.end);
        assert Range(ss.start, ss.end) !! Points(rest);
    }
  }

  lemma {:induction false} TotalBound(g: Geometry, lo: nat, t: Tree)
    requires Ordered(g, lo, t)
    ensures Total(g, lo, t) <= if lo <= g.start + g.size then g.start + g.size - lo else 0
    decreases t
  {
    match t {
      case Nil =>
      case Cons(ss, rest) => TotalBound(g, ss.end + 1, rest);
    }
  }

  // ----- the search -----

  /** avl_find: two segments compare as equal when they overlap. */
  function Find(t: Tree, start: nat, end: nat): Option<Seg> {
    match t
    case Nil => None
    case Cons(ss, rest) =>
      if ss.end <= start then Find(rest, start, end)
      else if ss.start < end then Some(ss)
      else None
  }

  lemma {:induction false} FindNothing(g: Geometry, lo: nat, t: Tree, start: nat, end: nat)
    requires Ordered(g, lo, t)
    requires start < end
    ensures Find(t, start, end).None? <==> Range(start, end) !! Points(t)
    decreases t
  {
    match t {
      case Nil =>
      case Cons(ss, rest) =>
        PointsBounds(g, ss.end + 1, rest);
        if ss.end <= start {
          FindNothing(g, ss.end + 1, rest, start, end);
        } else if ss.start < end {
          var x := if start < ss.start then ss.start else start;
          assert x in Range(start, end) && x in Points(t);
        }
    }
  }

  /** A range lies inside the set exactly when one single segment covers it. */
  lemma {:induction false} FindCovering(g: Geometry, lo: nat, t: Tree, start: nat, end: nat)
    requires Ordered(g, lo, t)
    requires start < end
    requires Find(t, start, end).Some?
    ensures var ss := Find(t, start, end).value;
            Range(start, end) <= Points(t) <==> ss.start <= start && end <= ss.end
    decreases t
  {
    var ss := t.head;
    PointsBounds(g, ss.end + 1, t.tail);
    if ss.end <= start {
      FindCovering(g, ss.end + 1, t.tail, start, end);
    } else {
      assert start in Range(start, end);
      assert ss.end < end ==> ss.end in Range(start, end);
    }
  }

  // ----- what the operations mean on plain sets -----

  // None is a panic: a failed VERIFY, or zfs_panic_recover with zfs_recover left at 0.

  ghost function AddTo(g: Geometry, s: set<int>, lo: nat, len: nat): Option<set<int>> {
    if len != 0 && Range(lo, lo + len) <= g.All() && Range(lo, lo + len) !! s then Some(s + Range(lo, lo + len))
    else None
  }

  ghost function RemoveFrom(s: set<int>, lo: nat, len: nat): Option<set<int>> {
    if len != 0 && Range(lo, lo + len) <= s then Some(s - Range(lo, lo + len)) else None
  }

  // ----- changing the tree -----

  /** The tree with a free range added, merged with the neighbours that touch it. */
  function Insert(t: Tree, start: nat, end: nat): Tree {
    match t
    case Nil => Cons(Seg(start, end), Nil)
    case Cons(ss, rest) =>
      if end < ss.start then Cons(Seg(start, end), t)
      else if end == ss.start then Cons(Seg(start, ss.end), rest)
      else if ss.end == start then
        if rest.Cons? && rest.head.start == end then Cons(Seg(ss.start, rest.head.end), rest.tail)
        else Cons(Seg(ss.start, end), rest)
      else Cons(ss, Insert(rest, start, end))
  }

  lemma {:induction false} InsertIsUnion(g: Geometry, lo: nat, t: Tree, start: nat, end: nat)
    requires Ordered(g, lo, t)
    requires lo <= start < end <= g.start + g.size
    requires Find(t, start, end).None?
    ensures Ordered(g, lo, Insert(t, start, end))
    ensures Points(Insert(t, start, end)) == Points(t) + Range(start, end)
    ensures Total(g, lo, Insert(t, start, end)) == Total(g, lo, t) + end - start
    decreases t
  {
    match t {
      case Nil =>
      case Cons(ss, rest) =>
        if end == ss.start {
          RangeJoin(start, end, ss.end);
        } else if ss.end == start {
          RangeJoin(ss.start, start, end);
          if rest.Cons? && rest.head.start == end {
            RangeJoin(ss.start, end, rest.head.end);
          }
        } else if ss.start < end {
          InsertIsUnion(g, ss.end + 1, rest, start, end);
        }
    }
  }

  lemma RangeJoin(lo: nat, mid: nat, hi: nat)
    requires lo <= mid <= hi
    ensures Range(lo, hi) == Range(lo, mid) + Range(mid, hi)
  {
  }

  /** The tree with a range taken out of the segment that covers it. */
  function Cut(t: Tree, start: nat, end: nat): Tree {
    match t
    case Nil => Nil
    case Cons(ss, rest) =>
      if ss.end <= start then Cons(ss, Cut(rest, start, end))
      else
        var right := if ss.end != end then Cons(Seg(end, ss.end), rest) else rest;
        if ss.start != start then Cons(Seg(ss.start, start), right) else right
  }

  lemma {:induction false} CutIsDifference(g: Geometry, lo: nat, t: Tree, start: nat, end: nat)
    requires Ordered(g, lo, t)
    requires start < end
    requires Find(t, start, end).Some?
    requires var ss := Find(t, start, end).value; ss.start <= start && end <= ss.end
    ensures Ordered(g, lo, Cut(t, start, end))
    ensures Points(Cut(t, start, end)) == Points(t) - Range(start, end)
    ensures Total(g, lo, Cut(t, start, end)) == Total(g, lo, t) - (end - start)
    decreases t
  {
    var ss := t.head;
    PointsBounds(g, ss.end + 1, t.tail);
    if ss.end <= start {
      CutIsDifference(g, ss.end + 1, t.tail, start, end);
    } else {
      RangeJoin(ss.start, start, end);
      RangeJoin(ss.start, end, ss.end);
    }
  }

  /** Adding a range that is inside the map and that the search does not find. */
  lemma AddMiss(g: Geometry, t: Tree, start: nat, size: nat)
    requires Ordered(g, g.start, t)
    requires 0 < size && g.start <= start && start + size <= g.start + g.size
    requires Find(t, start, start + size).None?
    ensures Ordered(g, g.start, Insert(t, start, start + size))
    ensures AddTo(g, Points(t), start, size) == Some(Points(Insert(t, start, start + size)))
    ensures Total(g, g.start, Insert(t, start, start + size)) == Total(g, g.start, t) + size
  {
    FindNothing(g, g.start, t, start, start + size);
    RangeInside(g, start, size);
    InsertIsUnion(g, g.start, t, start, start + size);
  }

  lemma RangeInside(g: Geometry, lo: nat, len: nat)
    requires 0 < len
    ensures Range(lo, lo + len) <= g.All() <==> g.start <= lo && lo + len <= g.start + g.size
  {
    assert lo in Range(lo, lo + len) && lo + len - 1 in Range(lo, lo + len);
  }

  /** Removing a range from the segment that covers it. */
  lemma RemoveHit(g: Geometry, t: Tree, start: nat, size: nat)
    requires Ordered(g, g.start, t)
    requires 0 < size
    requires Find(t, start, start + size).Some?
    requires var ss := Find(t, start, start + size).value; ss.start <= start && start + size <= ss.end
    ensures Ordered(g, g.start, Cut(t, start, start + size))
    ensures RemoveFrom(Points(t), start, size) == Some(Points(Cut(t, start, start + size)))
    ensures Total(g, g.start, Cut(t, start, start + size)) == Total(g, g.start, t) - size
  {
    FindCovering(g, g.start, t, start, start + size);
    CutIsDifference(g, g.start, t, start, start + size);
  }

  /** The total only stops an addition that the rest of the checks would stop as well. */
  lemma TooMuch(g: Geometry, t: Tree, start: nat, size: nat)
    requires Ordered(g, g.start, t)
    requires 0 < size
    requires !(g.start <= start && start + size <= g.start + g.size) || Total(g, g.start, t) + size > g.size
    ensures AddTo(g, Points(t), start, size).None?
  {
    RangeInside(g, start, size);
    if g.start <= start && start + size <= g.start + g.size && Find(t, start, start + size).None? {
      InsertIsUnion(g, g.start, t, start, start + size);
      TotalBound(g, g.start, Insert(t, start, start + size));
    } else {
      FindNothing(g, g.start, t, start, start + size);
    }
  }

  // ----- loading a log -----

  /** space_map_load applies each entry of the wanted type as an addition and each of the other
      type as a removal. */
  ghost function LoadStep(g: Geometry, wantAlloc: bool, s: set<int>, e: Entry): Option<set<int>> {
    match e
    case Debug(_, _, _) => Some(s)
    case Change(alloc, lo, len) => if alloc == wantAlloc then AddTo(g, s, lo, len) else RemoveFrom(s, lo, len)
  }

  ghost function LoadFrom(g: Geometry, wantAlloc: bool, s: set<int>, es: seq<Entry>): Option<set<int>>
    decreases |es|
  {
    if es == [] then Some(s)
    else match LoadStep(g, wantAlloc, s, es[0])
      case None => None
      case Some(s') => LoadFrom(g, wantAlloc, s', es[1..])
  }

  /** A map of FREE space starts out full. */
  ghost function LoadAll(g: Geometry, wantAlloc: bool, es: seq<Entry>): Option<set<int>> {
    LoadFrom(g, wantAlloc, if wantAlloc then {} else g.All(), es)
  }

  /** What a map of the wanted type holds when s is allocated. */
  ghost function View(g: Geometry, wantAlloc: bool, s: set<int>): set<int> {
    if wantAlloc then s else g.All() - s
  }

  ghost function ViewOf(g: Geometry, wantAlloc: bool, s: Option<set<int>>): Option<set<int>> {
    match s
    case None => None
    case Some(v) => Some(View(g, wantAlloc, v))
  }

  lemma ViewStep(g: Geometry, wantAlloc: bool, s: set<int>, e: Entry)
    requires s <= g.All()
    requires Encodable(g, e)
    ensures LoadStep(g, wantAlloc, View(g, wantAlloc, s), e) ==
            if Applies(g, s, e) then Some(View(g, wantAlloc, Step(s, e))) else None
  {
    if e.Change? {
      var v := View(g, wantAlloc, s);
      if Applies(g, s, e) {
        assert View(g, wantAlloc, Step(s, e)) == if e.alloc == wantAlloc then v + e.Extent() else v - e.Extent();
      }
    }
  }

  /** For every log, a load of either type panics exactly when some entry does not apply, and
      otherwise holds the allocated set, or the complement of it. */
  lemma {:induction false} LoadIsReplay(g: Geometry, wantAlloc: bool, s: set<int>, es: seq<Entry>)
    requires s <= g.All()
    requires forall k | 0 <= k < |es| :: Encodable(g, es[k])
    ensures LoadFrom(g, wantAlloc, View(g, wantAlloc, s), es) == ViewOf(g, wantAlloc, Replay(g, s, es))
    decreases |es|
  {
    if es == [] {
    } else {
      ViewStep(g, wantAlloc, s, es[0]);
      if Applies(g, s, es[0]) {
        LoadIsReplay(g, wantAlloc, Step(s, es[0]), es[1..]);
      }
    }
  }

  /** Loading the same log as an ALLOC map and as a FREE map gives two maps that split the space
      between them, or fails both times. */
  lemma LoadBothWays(g: Geometry, log: seq<Entry>)
    requires forall k | 0 <= k < |log| :: Encodable(g, log[k])
    ensures LoadAll(g, true, log) == Allocated(g, log)
    ensures LoadAll(g, false, log) == ViewOf(g, false, Allocated(g, log))
  {
    LoadIsReplay(g, true, {}, log);
    LoadIsReplay(g, false, {}, log);
    assert g.All() - {} == g.All();
  }

  // ----- appending a map to the log -----

  /** One segment as log entries, in runs of at most RUN_MAX sectors. */
  function RunEntries(alloc: bool, lo: nat, n: nat): seq<Entry>
    decreases n
  {
    if n == 0 then []
    else
      var run := if n < RUN_MAX then n else RUN_MAX;
      [Change(alloc, lo, run)] + RunEntries(alloc, lo + run, n - run)
  }

  /** The entries of segments written one after the other. */
  function SegEntries(alloc: bool, segs: seq<Seg>): seq<Entry> {
    if segs == [] then []
    else
      var ss := segs[|segs| - 1];
      SegEntries(alloc, segs[..|segs| - 1]) + RunEntries(alloc, ss.start, Size(ss))
  }

  function Size(ss: Seg): nat { if ss.start <= ss.end then ss.end - ss.start else 0 }

  /** The segments of a tree. */
  function Segs(t: Tree): seq<Seg> {
    match t case Nil => [] case Cons(ss, rest) => [ss] + Segs(rest)
  }

  lemma {:induction false} RunsEncodable(g: Geometry, alloc: bool, lo: nat, n: nat)
    requires g.start <= lo && lo + n <= g.start + TWO_47
    ensures forall k | 0 <= k < |RunEntries(alloc, lo, n)| :: Encodable(g, RunEntries(alloc, lo, n)[k])
    decreases n
  {
    if n == 0 {
    } else {
      var run := if n < RUN_MAX then n else RUN_MAX;
      RunsEncodable(g, alloc, lo + run, n - run);
    }
  }

  predicate WithinMap(g: Geometry, segs: seq<Seg>) {
    forall ss | ss in segs :: g.start <= ss.start < ss.end <= g.start + g.size
  }

  /** Every entry written for a map of at most 2^47 sectors fits in its word. */
  lemma {:induction false} SegsEncodable(g: Geometry, alloc: bool, segs: seq<Seg>)
    requires WithinMap(g, segs) && g.size <= TWO_47
    ensures forall k | 0 <= k < |SegEntries(alloc, segs)| :: Encodable(g, SegEntries(alloc, segs)[k])
  {
    if segs == [] {
    } else {
      var ss := segs[|segs| - 1];
      SegsEncodable(g, alloc, segs[..|segs| - 1]);
      RunsEncodable(g, alloc, ss.start, ss.end - ss.start);
    }
  }

  /** A set that an append may add to, or take from, what is allocated. */
  ghost predicate Appendable(g: Geometry, s: set<int>, alloc: bool, d: set<int>) {
    && d <= g.All()
    && if alloc then s !! d else d <= s
  }

  ghost function Append(s: set<int>, alloc: bool, d: set<int>): set<int> {
    if alloc then s + d else s - d
  }

  lemma AppendNothing(s: set<int>, alloc: bool, d: set<int>)
    requires d == {}
    ensures Append(s, alloc, d) == s
  {
  }

  lemma AppendParts(g: Geometry, s: set<int>, alloc: bool, a: set<int>, b: set<int>)
    requires a !! b
    requires Appendable(g, s, alloc, a + b)
    ensures Appendable(g, s, alloc, a)
    ensures Appendable(g, Append(s, alloc, a), alloc, b)
    ensures Append(Append(s, alloc, a), alloc, b) == Append(s, alloc, a + b)
  {
  }

  lemma {:induction false} RunsAppend(g: Geometry, s: set<int>, alloc: bool, lo: nat, n: nat)
    requires Appendable(g, s, alloc, Range(lo, lo + n))
    ensures Replay(g, s, RunEntries(alloc, lo, n)) == Some(Append(s, alloc, Range(lo, lo + n)))
    decreases n
  {
    if n == 0 {
      AppendNothing(s, alloc, Range(lo, lo + n));
    } else {
      var run := if n < RUN_MAX then n else RUN_MAX;
      RangeJoin(lo, lo + run, lo + n);
      AppendParts(g, s, alloc, Range(lo, lo + run), Range(lo + run, lo + n));
      RunsAppend(g, Append(s, alloc, Range(lo, lo + run)), alloc, lo + run, n - run);
      assert RunEntries(alloc, lo, n)[1..] == RunEntries(alloc, lo + run, n - run);
    }
  }

  // ----- the order of the segments -----

  ghost function Cover(segs: seq<Seg>): set<int> {
    if segs == [] then {}
    else Cover(segs[..|segs| - 1]) + Range(segs[|segs| - 1].start, segs[|segs| - 1].end)
  }

  predicate ApartSegs(a: Seg, b: Seg) { a.end <= b.start || b.end <= a.start }

  predicate Apart(segs: seq<Seg>) {
    forall i, j | 0 <= i < j < |segs| :: ApartSegs(segs[i], segs[j])
  }

  lemma {:induction false} CoverApart(segs: seq<Seg>, ss: Seg)
    requires forall i | 0 <= i < |segs| :: ApartSegs(segs[i], ss)
    ensures Cover(segs) !! Range(ss.start, ss.end)
  {
    if segs == [] {
    } else {
      CoverApart(segs[..|segs| - 1], ss);
      assert ApartSegs(segs[|segs| - 1], ss);
    }
  }

  /** Writing segments that are apart adds exactly what they cover to what the log replays to, or
      takes exactly that away. */
  lemma {:induction false} SegsAppend(g: Geometry, s: set<int>, alloc: bool, segs: seq<Seg>)
    requires WithinMap(g, segs) && Apart(segs) && Appendable(g, s, alloc, Cover(segs))
    ensures Replay(g, s, SegEntries(alloc, segs)) == Some(Append(s, alloc, Cover(segs)))
  {
    if segs == [] {
      AppendNothing(s, alloc, Cover(segs));
    } else {
      var init, ss := segs[..|segs| - 1], segs[|segs| - 1];
      CoverApart(init, ss);
      AppendParts(g, s, alloc, Cover(init), Range(ss.start, ss.end));
      SegsAppend(g, s, alloc, init);
      RunsAppend(g, Append(s, alloc, Cover(init)), alloc, ss.start, ss.end - ss.start);
      ReplayConcat(g, s, SegEntries(alloc, init), RunEntries(alloc, ss.start, ss.end - ss.start));
    }
  }

  ghost predicate InSome(segs: seq<Seg>, x: int) {
    exists ss | ss in segs :: ss.start <= x < ss.end
  }

  lemma {:induction false} CoverIs(segs: seq<Seg>, x: int)
    ensures x in Cover(segs) <==> InSome(segs, x)
  {
    if segs == [] {
    } else {
      var init, last := segs[..|segs| - 1], segs[|segs| - 1];
      CoverIs(init, x);
      assert segs == init + [last];
      assert InSome(segs, x) <==> InSome(init, x) || last.start <= x < last.end by {
        if InSome(init, x) {
          var ss :| ss in init && ss.start <= x < ss.end;
          assert ss in segs;
        }
        assert last in segs;
      }
      assert Between(last.start, x, last.end) <==> last.start <= x < last.end;
    }
  }

  lemma {:induction false} PointsAre(t: Tree, x: int)
    ensures x in Points(t) <==> InSome(Segs(t), x)
    decreases t
  {
    match t {
      case Nil =>
      case Cons(ss, rest) =>
        PointsAre(rest, x);
        assert InSome(Segs(t), x) <==> ss.start <= x < ss.end || InSome(Segs(rest), x) by {
          if InSome(Segs(rest), x) {
            var u :| u in Segs(rest) && u.start <= x < u.end;
            assert u in Segs(t);
          }
          assert Segs(t)[0] == ss;
        }
        assert Between(ss.start, x, ss.end) <==> ss.start <= x < ss.end;
    }
  }

  /** The segments of a map lie in it, are apart, and none occurs twice. */
  lemma {:induction false} SegsOrdered(g: Geometry, lo: nat, t: Tree)
    requires g.start <= lo && Ordered(g, lo, t)
    ensures WithinMap(g, Segs(t))
    ensures forall i | 0 <= i < |Segs(t)| :: lo <= Segs(t)[i].start
    ensures forall i, j | 0 <= i < j < |Segs(t)| :: Segs(t)[i].end < Segs(t)[j].start
    decreases t
  {
    match t {
      case Nil =>
      case Cons(ss, rest) => SegsOrdered(g, ss.end + 1, rest);
    }
  }

  /** In whatever order the segments of a map are taken, they are apart and cover its contents. */
  lemma AnyOrder(g: Geometry, t: Tree, order: seq<Seg>)
    requires Ordered(g, g.start, t) && multiset(order) == multiset(Segs(t))
    ensures WithinMap(g, order) && Apart(order) && Cover(order) == Points(t)
  {
    SegsOrdered(g, g.start, t);
    forall ss ensures ss in order <==> ss in Segs(t) {
      assert ss in order <==> ss in multiset(order);
    }
    forall i, j | 0 <= i < j < |order| ensures ApartSegs(order[i], order[j]) {
      OrderApart(t, order, i, j);
    }
    forall x: int ensures x in Cover(order) <==> x in Points(t) {
      CoverIs(order, x);
      PointsAre(t, x);
    }
  }

  lemma OrderApart(t: Tree, order: seq<Seg>, i: nat, j: nat)
    requires multiset(order) == multiset(Segs(t)) && i < j < |order|
    requires forall i, j | 0 <= i < j < |Segs(t)| :: Segs(t)[i].end < Segs(t)[j].start
    requires forall i | 0 <= i < |Segs(t)| :: Segs(t)[i].start < Segs(t)[i].end
    ensures ApartSegs(order[i], order[j])
  {
    assert order[i] in multiset(Segs(t)) && order[j] in multiset(Segs(t));
    var a :| 0 <= a < |Segs(t)| && Segs(t)[a] == order[i];
    var b :| 0 <= b < |Segs(t)| && Segs(t)[b] == order[j];
    if a == b {
      TwiceInBag(order, i, j);
      OnceInBag(Segs(t), order[i]);
    }
  }

  /** What an append to a clean log replays to, whatever the order, and the total kept beside it. */
  lemma SyncAppends(g: Geometry, log: seq<Entry>, note: Entry, alloc: bool, t: Tree, order: seq<Seg>)
    requires Ordered(g, g.start, t) && multiset(order) == multiset(Segs(t)) && note.Debug?
    requires Allocated(g, log).Some?
    requires Appendable(g, Allocated(g, log).value, alloc, Points(t))
    ensures WithinMap(g, order)
    ensures var log' := log + [note] + SegEntries(alloc, order);
            && Allocated(g, log') == Some(Append(Allocated(g, log).value, alloc, Points(t)))
            && |Allocated(g, log').value| ==
               |Allocated(g, log).value| + (if alloc then |Points(t)| else 0 - |Points(t)|)
  {
    hide Points, Ordered, SegEntries, Segs;
    var s := Allocated(g, log).value;
    AnyOrder(g, t, order);
    hide WithinMap, Apart;
    ReplayConcat(g, {}, log + [note], SegEntries(alloc, order));
    ReplayConcat(g, {}, log, [note]);
    NoteChangesNothing(g, s, note);
    SegsAppend(g, s, alloc, order);
    if !alloc {
      SubsetSize(Points(t), s);
    }
  }

  lemma NoteChangesNothing(g: Geometry, s: set<int>, note: Entry)
    requires note.Debug?
    ensures Replay(g, s, [note]) == Some(s)
  {
    assert [note][1..] == [];
  }

  /** A log that every append so far has kept usable: its entries fit their words and apply
      cleanly, and the total recorded beside it is the size of what they allocate. */
  ghost predicate SoundLog(g: Geometry, log: seq<Entry>, alloc: int) {
    && (forall k | 0 <= k < |log| :: Encodable(g, log[k]))
    && Allocated(g, log).Some?
    && alloc == |Allocated(g, log).value|
  }

  /** Both loads of such a log meet the VERIFY on the total, and split the space between them. */
  lemma SoundLoads(g: Geometry, log: seq<Entry>, alloc: int)
    requires SoundLog(g, log, alloc)
    ensures LoadAll(g, true, log) == Allocated(g, log)
    ensures LoadAll(g, false, log) == Some(g.All() - Allocated(g, log).value)
    ensures |LoadAll(g, true, log).value| == alloc
    ensures |LoadAll(g, false, log).value| == g.size - alloc
  {
    LoadBothWays(g, log);
    ReplayInside(g, {}, log);
    RangeSize(g.start, g.start + g.size);
    SubsetSize(Allocated(g, log).value, g.All());
  }

  /** The on-disk object: its log, and the allocated total kept beside it. */
  class SpaceMapObject {
    var log: seq<Entry>
    var alloc: int
  }

  class SpaceMap {
    const g: Geometry
    var tree: Tree
    var space: nat

    ghost predicate Valid()
      reads this
    {
      && g.Valid()
      && Ordered(g, g.start, tree)
      && space == Total(g, g.start, tree)
    }

    ghost function Contents(): set<int>
      reads this
    {
      Points(tree)
    }

    constructor (g: Geometry)
      requires g.Valid()
      ensures Valid() && this.g == g && tree == Nil
    {
      this.g := g;
      tree := Nil;
      space := 0;
    }

    method Contains(start: nat, size: nat) returns (r: bool)
      requires Valid()
      requires 0 < size
      ensures r <==> Range(start, start + size) <= Contents()
    {
      var end := start + size;
      match Find(tree, start, end) {
        case None =>
          FindNothing(g, g.start, tree, start, end);
          assert start in Range(start, end);
          r := false;
        case Some(ss) =>
          FindCovering(g, g.start, tree, start, end);
          r := ss.start <= start && end <= ss.end;
      }
    }

    /** False is a panic, with the map untouched. */
    method Add(start: nat, size: nat) returns (ok: bool)
      requires Valid()
      modifies this
      ensures Valid()
      ensures AddTo(g, old(Contents()), start, size) == if ok then Some(Contents()) else None
      ensures !ok ==> Contents() == old(Contents())
    {
      var end := start + size;
      if size == 0 {
        return false;
      }
      RangeInside(g, start, size);
      if start < g.start || end > g.start + g.size || space + size > g.size {
        TooMuch(g, tree, start, size);
        return false;
      }
      match Find(tree, start, end) {
        case None =>
          AddMiss(g, tree, start, size);
          tree := Insert(tree, start, end);
          space := space + size;
          ok := true;
        case Some(ss) =>
          FindNothing(g, g.start, tree, start, end);
          ok := false;
      }
    }

    /** False is a panic, with the map untouched. */
    method Remove(start: nat, size: nat) returns (ok: bool)
      requires Valid()
      modifies this
      ensures Valid()
      ensures RemoveFrom(old(Contents()), start, size) == if ok then Some(Contents()) else None
      ensures !ok ==> Contents() == old(Contents())
    {
      var end := start + size;
      if size == 0 {
        return false;
      }
      assert start in Range(start, end);
      match Find(tree, start, end) {
        case None =>
          FindNothing(g, g.start, tree, start, end);
          ok := false;
        case Some(ss) =>
          FindCovering(g, g.start, tree, start, end);
          if !(ss.start <= start && end <= ss.end) {
            return false;
          }
          RemoveHit(g, tree, start, size);
          tree := Cut(tree, start, end);
          space := space - size;
          ok := true;
      }
    }

    method LoadEntry(e: Entry, wantAlloc: bool) returns (ok: bool)
      requires Valid()
      modifies this
      ensures Valid()
      ensures LoadStep(g, wantAlloc, old(Contents()), e) == if ok then Some(Contents()) else None
    {
      match e {
        case Debug(_, _, _) => ok := true;
        case Change(alloc, lo, len) =>
          if alloc == wantAlloc {
            ok := Add(lo, len);
          } else {
            ok := Remove(lo, len);
          }
      }
    }

    /** space_map_load of a freshly created map; false is a failed VERIFY. */
    method Load(log: seq<Entry>, wantAlloc: bool, smoAlloc: nat) returns (ok: bool)
      requires Valid() && tree == Nil
      modifies this
      ensures Valid()
      ensures var all := LoadAll(g, wantAlloc, log);
              && (ok <==> all.Some? && |all.value| == if wantAlloc then smoAlloc else g.size - smoAlloc)
              && (ok ==> all == Some(Contents()))
    {
      if !wantAlloc {
        Fill();
      }
      var replayed := LoadEntries(log, wantAlloc);
      TotalSize(g, g.start, tree);
      ok := replayed && space == if wantAlloc then smoAlloc else g.size - smoAlloc;
    }

    method Fill()
      requires Valid() && tree == Nil
      modifies this
      ensures Valid() && Contents() == g.All()
    {
      var ok := Add(g.start, g.size);
      assert {} + g.All() == g.All();
    }

    method LoadEntries(es: seq<Entry>, wantAlloc: bool) returns (ok: bool)
      requires Valid()
      modifies this
      ensures Valid()
      ensures ok <==> LoadFrom(g, wantAlloc, old(Contents()), es).Some?
      ensures ok ==> LoadFrom(g, wantAlloc, old(Contents()), es) == Some(Contents())
    {
      assert es[0..] == es;
      for i := 0 to |es|
        invariant Valid()
        invariant LoadFrom(g, wantAlloc, Contents(), es[i..]) == LoadFrom(g, wantAlloc, old(Contents()), es)
      {
        assert es[i..][1..] == es[i + 1..];
        ok := LoadEntry(es[i], wantAlloc);
        if !ok {
          return;
        }
      }
      ok := true;
    }

    /** The entries of one segment, through the buffer. */
    method WriteRuns(isAlloc: bool, lo: nat, n: nat, obj: SpaceMapObject, buffer: seq<Entry>, cap: nat)
      returns (buffer': seq<Entry>)
      modifies obj`log
      ensures obj.log + buffer' == old(obj.log) + buffer + RunEntries(isAlloc, lo, n)
    {
      var start: nat, size: nat := lo, n;
      buffer' := buffer;
      while size > 0
        invariant obj.log + buffer' + RunEntries(isAlloc, start, size) ==
                  old(obj.log) + buffer + RunEntries(isAlloc, lo, n)
      {
        var run := if size < RUN_MAX then size else RUN_MAX;
        if |buffer'| == cap {
          obj.log, buffer' := obj.log + buffer', [];
        }
        buffer' := buffer' + [Change(isAlloc, start, run)];
        start, size := start + run, size - run;
      }
    }

    /** Empty this map into the object's log, its segments in some order. */
    method Drain(note: Entry, isAlloc: bool, obj: SpaceMapObject, cap: nat) returns (ghost order: seq<Seg>)
      requires Valid()
      modifies this, obj`log
      ensures Valid() && tree == Nil
      ensures multiset(order) == multiset(Segs(old(tree))) && WithinMap(g, order)
      ensures obj.log == old(obj.log) + [note] + SegEntries(isAlloc, order)
    {
      hide Range, RunEntries, Points, WithinMap, SegEntries, Segs, Lengths, Except, Ordered, Total;
      var buffer := [note];
      var rest := Segs(tree);
      order := [];
      SegsOrdered(g, g.start, tree);
      SegsTotal(g, g.start, tree);
      NoSegs(g, isAlloc);
      ghost var start := obj.log + buffer;
      assert start + [] == start;
      while rest != []
        invariant tree == old(tree) && multiset(order) + multiset(rest) == multiset(Segs(tree))
        invariant WithinMap(g, order) && WithinMap(g, rest)
        invariant space == Lengths(rest)
        invariant obj.log + buffer == start + SegEntries(isAlloc, order)
        decreases |rest|
      {
        var i :| 0 <= i < |rest|;
        var ss := rest[i];
        TakeOut(g, rest, i);
        BagExcept(rest, i);
        PutIn(g, isAlloc, order, ss);
        Assoc(start, SegEntries(isAlloc, order), RunEntries(isAlloc, ss.start, Size(ss)));
        Shorter(rest, i);
        rest := Except(rest, i);
        space := space - Size(ss);
        buffer := WriteRuns(isAlloc, ss.start, Size(ss), obj, buffer, cap);
        order := order + [ss];
      }
      NoSegs(g, isAlloc);
      tree := Nil;
      EmptyTree(g);
      obj.log := obj.log + buffer;
    }

    /** space_map_sync, through a buffer of `cap` entries: the map is emptied into the log, its
        segments in some order, and its size added to, or taken from, the total. If the log was sound
        and can take the map's contents, it stays sound and replays to what it did with them added or
        taken away, whatever the order. */
    method Sync(isAlloc: bool, pass: nat, txg: nat, obj: SpaceMapObject, cap: nat) returns (ghost order: seq<Seg>)
      requires Valid()
      modifies this, obj
      ensures Valid() && tree == Nil
      ensures multiset(order) == multiset(Segs(old(tree))) && WithinMap(g, order)
      ensures var note := Debug(if isAlloc then 0 else 1, pass % 0x400, txg % 0x4_0000_0000_0000);
              obj.log == old(obj.log) + if old(tree) == Nil then [] else [note] + SegEntries(isAlloc, order)
      ensures obj.alloc == old(obj.alloc) + (if isAlloc then old(space) else 0 - old(space))
      ensures old(Takes(isAlloc, obj)) ==>
                && SoundLog(g, obj.log, obj.alloc)
                && Allocated(g, obj.log).value == Append(old(Allocated(g, obj.log).value), isAlloc, old(Contents()))
    {
      hide SoundLog, Points, Append, Ordered, Total, SegEntries;
      if space == 0 {
        NoSpace(g, tree);
        SoundBoth(isAlloc, obj);
        assert obj.log + [] == obj.log;
        order := [];
        return;
      }
      SomeSpace(g, tree);
      var note := Note(isAlloc, pass, txg);
      ghost var t, log, alloc := tree, obj.log, obj.alloc;
      obj.alloc := if isAlloc then obj.alloc + space else obj.alloc - space;
      order := Drain(note, isAlloc, obj, cap);
      Assoc(log, [note], SegEntries(isAlloc, order));
      SyncSound(g, t, log, alloc, note, isAlloc, order);
    }

    /** The object's log is sound and the map's contents can be added to it, or taken from it. */
    ghost predicate Takes(isAlloc: bool, obj: SpaceMapObject)
      reads this, obj
    {
      TakesTree(g, tree, obj.log, obj.alloc, isAlloc)
    }

    lemma SoundBoth(isAlloc: bool, obj: SpaceMapObject)
      requires Valid() && tree == Nil
      ensures Takes(isAlloc, obj) ==>
                SoundLog(g, obj.log, obj.alloc) &&
                Allocated(g, obj.log).value == Append(Allocated(g, obj.log).value, isAlloc, Contents())
    {
      if Takes(isAlloc, obj) {
        AppendNothing(Allocated(g, obj.log).value, isAlloc, Contents());
      }
    }
  }

  ghost predicate TakesTree(g: Geometry, t: Tree, log: seq<Entry>, alloc: int, isAlloc: bool) {
    && g.size <= TWO_47 && SoundLog(g, log, alloc)
    && Appendable(g, Allocated(g, log).value, isAlloc, Points(t))
  }

  lemma SyncSound(g: Geometry, t: Tree, log: seq<Entry>, alloc: int, note: Entry, isAlloc: bool, order: seq<Seg>)
    requires Ordered(g, g.start, t) && multiset(order) == multiset(Segs(t)) && WithinMap(g, order)
    requires note.Debug? && Encodable(g, note)
    ensures TakesTree(g, t, log, alloc, isAlloc) ==>
              var log', size := log + [note] + SegEntries(isAlloc, order), Total(g, g.start, t);
              && SoundLog(g, log', if isAlloc then alloc + size else alloc - size)
              && Allocated(g, log').value == Append(Allocated(g, log).value, isAlloc, Points(t))
  {
    if TakesTree(g, t, log, alloc, isAlloc) {
      TotalSize(g, g.start, t);
      SyncAppends(g, log, note, isAlloc, t, order);
      SegsEncodable(g, isAlloc, order);
    }
  }

  /** The sizes of segments, added up. */
  function Lengths(segs: seq<Seg>): nat {
    if segs == [] then 0 else Lengths(segs[..|segs| - 1]) + Size(segs[|segs| - 1])
  }

  lemma {:induction false} LengthsJoin(a: seq<Seg>, b: seq<Seg>)
    ensures Lengths(a + b) == Lengths(a) + Lengths(b)
    decreases |b|
  {
    if b == [] {
      assert a + b == a;
    } else {
      assert (a + b)[..|a + b| - 1] == a + b[..|b| - 1];
      LengthsJoin(a, b[..|b| - 1]);
    }
  }

  lemma TakeOut(g: Geometry, segs: seq<Seg>, i: nat)
    requires i < |segs| && WithinMap(g, segs)
    ensures WithinMap(g, Except(segs, i)) && WithinMap(g, [segs[i]])
    ensures Lengths(segs) == Lengths(Except(segs, i)) + Size(segs[i])
  {
    LengthsExcept(segs, i);
    hide Lengths;
    assert segs[i] in segs;
  }

  lemma LengthsExcept(segs: seq<Seg>, i: nat)
    requires i < |segs|
    ensures Lengths(segs) == Lengths(Except(segs, i)) + Size(segs[i])
  {
    hide Lengths, Size;
    assert segs == segs[..i] + ([segs[i]] + segs[i + 1..]);
    LengthsBetween(segs[..i], segs[i], segs[i + 1..]);
  }

  lemma LengthsBetween(a: seq<Seg>, ss: Seg, b: seq<Seg>)
    ensures Lengths(a + ([ss] + b)) == Lengths(a + b) + Size(ss)
  {
    LengthsOne(ss);
    hide Lengths, Size;
    LengthsJoin(a, [ss] + b);
    LengthsJoin([ss], b);
    LengthsJoin(a, b);
  }

  lemma LengthsOne(ss: Seg)
    ensures Lengths([ss]) == Size(ss)
  {
    assert [ss][..0] == [];
  }

  lemma PutIn(g: Geometry, alloc: bool, segs: seq<Seg>, ss: Seg)
    requires WithinMap(g, segs) && WithinMap(g, [ss])
    ensures WithinMap(g, segs + [ss])
    ensures SegEntries(alloc, segs + [ss]) == SegEntries(alloc, segs) + RunEntries(alloc, ss.start, Size(ss))
    ensures multiset(segs + [ss]) == multiset(segs) + multiset{ss}
  {
    assert (segs + [ss])[..|segs|] == segs;
  }

  lemma {:induction false} SegsTotal(g: Geometry, lo: nat, t: Tree)
    requires g.start <= lo && Ordered(g, lo, t)
    ensures Lengths(Segs(t)) == Total(g, lo, t)
    decreases t
  {
    match t {
      case Nil =>
      case Cons(ss, rest) =>
        SegsTotal(g, ss.end + 1, rest);
        LengthsJoin([ss], Segs(rest));
        assert [ss][..0] == [];
    }
  }

  lemma NoSegs(g: Geometry, alloc: bool)
    ensures WithinMap(g, []) && SegEntries(alloc, []) == [] && Lengths([]) == 0
  {
  }

  lemma Shorter(segs: seq<Seg>, i: nat)
    requires i < |segs|
    ensures |Except(segs, i)| < |segs|
  {
  }

  lemma EmptyTree(g: Geometry)
    ensures Ordered(g, g.start, Nil) && Total(g, g.start, Nil) == 0
  {
  }

  lemma NoSpace(g: Geometry, t: Tree)
    requires Ordered(g, g.start, t) && Total(g, g.start, t) == 0
    ensures t == Nil
  {
  }

  lemma SomeSpace(g: Geometry, t: Tree)
    requires Ordered(g, g.start, t) && Total(g, g.start, t) != 0
    ensures t != Nil
  {
  }
}

/** The walk over an object's indirect blocks (cmd/zdb/zdb.c) and the translation of byte ranges
    into block numbers that undoes its offsets (cmd/zinject/translate.c). */
module Indirect {
  import Arith
  import opened Base

  function Pow(e: nat, n: nat): nat { if n == 0 then 1 else e * Pow(e, n - 1) }

  lemma {:induction false} PowPositive(e: nat, n: nat)
    requires e > 0
    ensures Pow(e, n) > 0
  {
    if n == 0 {
    } else {
      PowPositive(e, n - 1);
      Arith.MulMonotone(1, e, Pow(e, n - 1));
    }
  }

  // ----- the walk -----

  /** A block pointer and, for an indirect block, the pointers in it. */
  datatype Bp = Bp(birth: nat, level: nat, fill: nat, readable: bool, kids: seq<Bp>)

  /** Every indirect block holds `e` pointers, each a hole or one level down. */
  predicate WellFormed(e: nat, bp: Bp) {
    && (bp.birth == 0 ==> bp.fill == 0)
    && (bp.birth != 0 && bp.level > 0 ==>
          && |bp.kids| == e
          && forall i | 0 <= i < |bp.kids| ::
               WellFormed(e, bp.kids[i]) && (bp.kids[i].birth != 0 ==> bp.kids[i].level == bp.level - 1))
  }

  /** A line printed: a block at a level. */
  datatype Mark = Mark(level: nat, blkid: nat)

  /** How a visit ends; a fill count that does not add up is a failed assertion, which ends the run. */
  datatype Result = Done | ReadError | Aborted

  function Fills(kids: seq<Bp>): nat {
    if kids == [] then 0 else kids[0].fill + Fills(kids[1..])
  }

  function Walk(bp: Bp, blkid: nat): (Result, seq<Mark>)
    decreases bp, |bp.kids| + 1
  {
    if bp.birth == 0 then (Done, [])
    else
      var here := [Mark(bp.level, blkid)];
      if bp.level == 0 then (Done, here)
      else if !bp.readable then (ReadError, here)
      else
        var (r, below) := WalkKids(bp, bp.kids, blkid * |bp.kids|);
        (if r.Done? && Fills(bp.kids) != bp.fill then Aborted else r, here + below)
  }

  function WalkKids(bp: Bp, kids: seq<Bp>, base: nat): (Result, seq<Mark>)
    requires forall k | k in kids :: k in bp.kids
    decreases bp, |kids|
  {
    if kids == [] then (Done, [])
    else
      assert kids[0] in bp.kids;
      var (r, ms) := Walk(kids[0], base);
      if !r.Done? then (r, ms)
      else
        var (r2, rest) := WalkKids(bp, kids[1..], base + 1);
        (r2, ms + rest)
  }

  /** visit_indirect; what it prints is added to `out`. */
  method VisitIndirect(bp: Bp, blkid: nat, out: seq<Mark>) returns (r: Result, lines: seq<Mark>)
    ensures r == Walk(bp, blkid).0 && lines == out + Walk(bp, blkid).1
    decreases bp
  {
    if bp.birth == 0 {
      return Done, out;
    }
    lines := out + [Mark(bp.level, blkid)];
    if bp.level == 0 {
      return Done, lines;
    }
    if !bp.readable {
      return ReadError, lines;
    }
    var fill := 0;
    var kids := bp.kids;
    ghost var base := blkid * |kids|;
    ghost var (r0, below) := WalkKids(bp, kids, base);
    for i := 0 to |kids|
      invariant fill + Fills(kids[i..]) == Fills(kids)
      invariant var (r1, rest) := WalkKids(bp, kids[i..], base + i);
                r1 == r0 && lines + rest == out + ([Mark(bp.level, blkid)] + below)
    {
      assert kids[i..][1..] == kids[i + 1..];
      ghost var before := lines;
      r, lines := VisitIndirect(kids[i], blkid * |kids| + i, lines);
      if !r.Done? {
        return;
      }
      ghost var (r2, rest2) := WalkKids(bp, kids[i + 1..], base + i + 1);
      assert before + (Walk(kids[i], base + i).1 + rest2) == lines + rest2;
      fill := fill + kids[i].fill;
    }
    r := if fill != bp.fill then Aborted else Done;
  }

  /** dump_indirect: the pointers in the dnode, one after the other. A read error ends only that one; a
      failed assertion ends them all. */
  function WalkAll(ps: seq<Bp>, base: nat): (bool, seq<Mark>)
    decreases |ps|
  {
    if ps == [] then (true, [])
    else
      var (r, ms) := Walk(ps[0], base);
      if r.Aborted? then (false, ms)
      else
        var (ok, rest) := WalkAll(ps[1..], base + 1);
        (ok, ms + rest)
  }

  method DumpIndirect(ps: seq<Bp>) returns (ok: bool, lines: seq<Mark>)
    ensures ok == WalkAll(ps, 0).0 && lines == WalkAll(ps, 0).1
  {
    hide Walk;
    ok, lines := true, [];
    for j := 0 to |ps|
      invariant var (ok1, rest) := WalkAll(ps[j..], j);
                ok && ok1 == WalkAll(ps, 0).0 && lines + rest == WalkAll(ps, 0).1
    {
      assert ps[j..][1..] == ps[j + 1..];
      var r;
      ghost var before := lines;
      r, lines := VisitIndirect(ps[j], j, lines);
      if r.Aborted? {
        return false, lines;
      }
      ghost var rest := WalkAll(ps[j + 1..], j + 1).1;
      assert before + (Walk(ps[j], j).1 + rest) == lines + rest;
    }
  }

  // ----- the walk tiles the object -----

  /** A line for something in blocks lo up to hi of a level, or below them. */
  predicate Region(e: nat, m: Mark, level: nat, lo: nat, hi: nat) {
    m.level <= level && lo * Pow(e, level - m.level) <= m.blkid < hi * Pow(e, level - m.level)
  }

  predicate InRegion(e: nat, ms: seq<Mark>, level: nat, lo: nat, hi: nat) {
    forall i | 0 <= i < |ms| :: Region(e, ms[i], level, lo, hi)
  }

  /** At each level, block numbers go up. */
  predicate Increasing(ms: seq<Mark>) {
    forall i, j | 0 <= i < j < |ms| && ms[i].level == ms[j].level :: ms[i].blkid < ms[j].blkid
  }

  lemma WiderRegion(e: nat, m: Mark, level: nat, lo: nat, hi: nat, lo': nat, hi': nat)
    requires Region(e, m, level, lo, hi) && lo' <= lo && hi <= hi'
    ensures Region(e, m, level, lo', hi')
  {
    var p := Pow(e, level - m.level);
    Arith.MulMonotone(lo', lo, p);
    Arith.MulMonotone(hi, hi', p);
  }

  lemma Wider(e: nat, ms: seq<Mark>, level: nat, lo: nat, hi: nat, hi': nat)
    requires InRegion(e, ms, level, lo, hi) && hi <= hi'
    ensures InRegion(e, ms, level, lo, hi')
  {
    forall i | 0 <= i < |ms| ensures Region(e, ms[i], level, lo, hi') {
      WiderRegion(e, ms[i], level, lo, hi, lo, hi');
    }
  }

  /** What lies in the blocks below a block lies in the block. */
  lemma RegionUp(e: nat, m: Mark, level: nat, blkid: nat)
    requires level > 0 && Region(e, m, level - 1, blkid * e, blkid * e + e)
    ensures Region(e, m, level, blkid, blkid + 1)
  {
    var p := Pow(e, level - 1 - m.level);
    assert Pow(e, level - m.level) == e * p;
    hide Pow;
    assert blkid * e * p == blkid * (e * p);
    assert (blkid * e + e) * p == (blkid + 1) * (e * p);
  }

  lemma Joined(e: nat, a: seq<Mark>, b: seq<Mark>, level: nat, lo: nat, mid: nat, hi: nat)
    requires lo <= mid <= hi
    requires InRegion(e, a, level, lo, mid) && InRegion(e, b, level, mid, hi)
    requires Increasing(a) && Increasing(b)
    ensures InRegion(e, a + b, level, lo, hi) && Increasing(a + b)
  {
    forall i | 0 <= i < |a + b| ensures Region(e, (a + b)[i], level, lo, hi) {
      if i < |a| {
        WiderRegion(e, a[i], level, lo, mid, lo, hi);
      } else {
        WiderRegion(e, b[i - |a|], level, mid, hi, lo, hi);
      }
    }
    forall i, j | 0 <= i < j < |a + b| && (a + b)[i].level == (a + b)[j].level
      ensures (a + b)[i].blkid < (a + b)[j].blkid
    {
      if i < |a| <= j {
        assert Region(e, a[i], level, lo, mid) && Region(e, b[j - |a|], level, mid, hi);
      }
    }
  }

  lemma {:induction false} WalkTiles(e: nat, bp: Bp, blkid: nat)
    requires WellFormed(e, bp)
    ensures InRegion(e, Walk(bp, blkid).1, bp.level, blkid, blkid + 1)
    ensures Increasing(Walk(bp, blkid).1)
    decreases bp, |bp.kids| + 1
  {
    if bp.birth == 0 {
    } else {
      var here := [Mark(bp.level, blkid)];
      assert Region(e, here[0], bp.level, blkid, blkid + 1);
      if bp.level > 0 && bp.readable {
        KidsTile(e, bp, bp.kids, blkid * e);
        var below := WalkKids(bp, bp.kids, blkid * e).1;
        BelowHere(e, below, bp.level, blkid);
      }
    }
  }

  lemma BelowHere(e: nat, below: seq<Mark>, level: nat, blkid: nat)
    requires level > 0 && InRegion(e, below, level - 1, blkid * e, blkid * e + e) && Increasing(below)
    ensures InRegion(e, [Mark(level, blkid)] + below, level, blkid, blkid + 1)
    ensures Increasing([Mark(level, blkid)] + below)
  {
    var ms := [Mark(level, blkid)] + below;
    forall i | 0 <= i < |ms| ensures Region(e, ms[i], level, blkid, blkid + 1) {
      if i > 0 {
        RegionUp(e, below[i - 1], level, blkid);
      }
    }
    forall j | 0 <= j < |below| ensures below[j].level < level {
      assert Region(e, below[j], level - 1, blkid * e, blkid * e + e);
    }
  }

  lemma {:induction false} KidsTile(e: nat, bp: Bp, kids: seq<Bp>, base: nat)
    requires bp.level > 0 && bp.birth != 0 && WellFormed(e, bp)
    requires forall k | k in kids :: k in bp.kids
    ensures InRegion(e, WalkKids(bp, kids, base).1, bp.level - 1, base, base + |kids|)
    ensures Increasing(WalkKids(bp, kids, base).1)
    decreases bp, |kids|
  {
    if kids == [] {
    } else {
      var k := kids[0];
      assert k in bp.kids;
      WalkTiles(e, k, base);
      KidsTile(e, bp, kids[1..], base + 1);
      var a, b := Walk(k, base).1, WalkKids(bp, kids[1..], base + 1).1;
      assert InRegion(e, a, bp.level - 1, base, base + 1);
      hide Region, Increasing;
      Joined(e, a, b, bp.level - 1, base, base + 1, base + |kids|);
      Wider(e, a, bp.level - 1, base, base + 1, base + |kids|);
    }
  }

  lemma TopTile(e: nat, bp: Bp, level: nat, base: nat)
    requires WellFormed(e, bp) && (bp.birth != 0 ==> bp.level == level)
    ensures InRegion(e, Walk(bp, base).1, level, base, base + 1)
    ensures Increasing(Walk(bp, base).1)
  {
    WalkTiles(e, bp, base);
  }

  lemma NoLines()
    ensures Increasing([])
  {
  }

  lemma {:induction false} AllTile(e: nat, ps: seq<Bp>, level: nat, base: nat)
    requires forall i | 0 <= i < |ps| :: WellFormed(e, ps[i]) && (ps[i].birth != 0 ==> ps[i].level == level)
    ensures InRegion(e, WalkAll(ps, base).1, level, base, base + |ps|)
    ensures Increasing(WalkAll(ps, base).1)
    decreases |ps|
  {
    hide Region, Increasing, Walk, WellFormed;
    if ps == [] {
      NoLines();
    } else {
      TopTile(e, ps[0], level, base);
      AllTile(e, ps[1..], level, base + 1);
      var here := Walk(ps[0], base).1;
      Joined(e, here, WalkAll(ps[1..], base + 1).1, level, base, base + 1, base + |ps|);
      Wider(e, here, level, base, base + 1, base + |ps|);
    }
  }

  // ----- every block is printed -----

  /** A way down: at each indirect block, which of its pointers to follow. */
  predicate Leads(bp: Bp, path: seq<nat>)
    decreases |path|
  {
    path == [] ||
    (bp.birth != 0 && bp.level > 0 && path[0] < |bp.kids| && Leads(bp.kids[path[0]], path[1..]))
  }

  function BlockAt(bp: Bp, path: seq<nat>): Bp
    requires Leads(bp, path)
    decreases |path|
  {
    if path == [] then bp else BlockAt(bp.kids[path[0]], path[1..])
  }

  /** The number of that block at its level, if the first has the number blkid. */
  function Number(e: nat, blkid: nat, path: seq<nat>): nat
    decreases |path|
  {
    if path == [] then blkid else Number(e, blkid * e + path[0], path[1..])
  }

  ghost predicate ThereBy(e: nat, bp: Bp, blkid: nat, m: Mark, path: seq<nat>) {
    && Leads(bp, path) && BlockAt(bp, path).birth != 0
    && m == Mark(BlockAt(bp, path).level, Number(e, blkid, path))
  }

  /** Some way leads down to a block, not a hole, of this level and number. */
  ghost predicate There(e: nat, bp: Bp, blkid: nat, m: Mark) {
    exists path :: ThereBy(e, bp, blkid, m, path)
  }

  lemma ThereStep(e: nat, bp: Bp, blkid: nat, m: Mark)
    ensures There(e, bp, blkid, m) <==>
            && bp.birth != 0
            && (|| m == Mark(bp.level, blkid)
                || (bp.level > 0 && exists i | 0 <= i < |bp.kids| :: There(e, bp.kids[i], blkid * e + i, m)))
  {
    if There(e, bp, blkid, m) {
      var path :| ThereBy(e, bp, blkid, m, path);
      if path != [] {
        assert ThereBy(e, bp.kids[path[0]], blkid * e + path[0], m, path[1..]);
      }
    }
    if bp.birth != 0 && m == Mark(bp.level, blkid) {
      assert ThereBy(e, bp, blkid, m, []);
    }
    if bp.birth != 0 && bp.level > 0 {
      forall i | 0 <= i < |bp.kids| && There(e, bp.kids[i], blkid * e + i, m) ensures There(e, bp, blkid, m) {
        var path :| ThereBy(e, bp.kids[i], blkid * e + i, m, path);
        assert ([i] + path)[1..] == path;
        assert ThereBy(e, bp, blkid, m, [i] + path);
      }
    }
  }

  /** Whatever is printed is there, and if the walk is done everything that is there was printed. */
  lemma {:induction false} WalkExact(e: nat, bp: Bp, blkid: nat, m: Mark)
    requires WellFormed(e, bp)
    ensures m in Walk(bp, blkid).1 ==> There(e, bp, blkid, m)
    ensures Walk(bp, blkid).0.Done? && There(e, bp, blkid, m) ==> m in Walk(bp, blkid).1
    decreases bp, |bp.kids| + 1
  {
    ThereStep(e, bp, blkid, m);
    hide There;
    if bp.birth == 0 || bp.level == 0 || !bp.readable {
    } else {
      KidsExact(e, bp, 0, blkid, m);
      assert bp.kids[0..] == bp.kids;
    }
  }

  lemma {:induction false} KidsExact(e: nat, bp: Bp, j: nat, blkid: nat, m: Mark)
    requires bp.level > 0 && bp.birth != 0 && WellFormed(e, bp) && j <= |bp.kids|
    ensures var (r, ms) := WalkKids(bp, bp.kids[j..], blkid * e + j);
            && (m in ms ==> exists i | j <= i < |bp.kids| :: There(e, bp.kids[i], blkid * e + i, m))
            && (r.Done? && (exists i | j <= i < |bp.kids| :: There(e, bp.kids[i], blkid * e + i, m)) ==> m in ms)
    decreases bp, |bp.kids| - j
  {
    hide There, Walk;
    if j == |bp.kids| {
    } else {
      assert bp.kids[j] in bp.kids && bp.kids[j..][1..] == bp.kids[j + 1..];
      WalkExact(e, bp.kids[j], blkid * e + j, m);
      KidsExact(e, bp, j + 1, blkid, m);
    }
  }

  /** A block that is a hole or holds data, or that can be read and counts what its pointers count. */
  predicate Intact(bp: Bp) {
    bp.birth != 0 && bp.level > 0 ==> bp.readable && bp.fill == Fills(bp.kids)
  }

  ghost predicate AllIntact(bp: Bp) {
    forall path | Leads(bp, path) :: Intact(BlockAt(bp, path))
  }

  lemma AllIntactStep(bp: Bp)
    ensures AllIntact(bp) <==>
            Intact(bp) && (bp.birth != 0 && bp.level > 0 ==> forall i | 0 <= i < |bp.kids| :: AllIntact(bp.kids[i]))
  {
    if AllIntact(bp) {
      assert Leads(bp, []) && BlockAt(bp, []) == bp;
      if bp.birth != 0 && bp.level > 0 {
        forall i, path | 0 <= i < |bp.kids| && Leads(bp.kids[i], path) ensures Intact(BlockAt(bp.kids[i], path)) {
          assert ([i] + path)[1..] == path;
          assert Leads(bp, [i] + path);
        }
      }
    } else {
      var path :| Leads(bp, path) && !Intact(BlockAt(bp, path));
      if path != [] {
        assert Leads(bp.kids[path[0]], path[1..]);
        assert !AllIntact(bp.kids[path[0]]);
      }
    }
  }

  /** The walk is done exactly when nothing below is unreadable or counts wrongly. */
  lemma {:induction false} DoneExactly(bp: Bp, blkid: nat)
    ensures Walk(bp, blkid).0.Done? <==> AllIntact(bp)
    decreases bp, |bp.kids| + 1
  {
    AllIntactStep(bp);
    hide AllIntact;
    if bp.birth == 0 || bp.level == 0 || !bp.readable {
    } else {
      KidsDone(bp, 0, blkid * |bp.kids|);
      assert bp.kids[0..] == bp.kids;
    }
  }

  lemma {:induction false} KidsDone(bp: Bp, j: nat, base: nat)
    requires j <= |bp.kids|
    ensures WalkKids(bp, bp.kids[j..], base).0.Done? <==> forall i | j <= i < |bp.kids| :: AllIntact(bp.kids[i])
    decreases bp, |bp.kids| - j
  {
    hide AllIntact, Walk;
    if j == |bp.kids| {
    } else {
      assert bp.kids[j] in bp.kids && bp.kids[j..][1..] == bp.kids[j + 1..];
      DoneExactly(bp.kids[j], base);
      KidsDone(bp, j + 1, base + 1);
    }
  }

  // ----- byte ranges -----

  /** The bytes of an object under one block of a level; `d` is the size of a data block. */
  function Span(e: nat, d: nat, level: nat): nat { Pow(e, level) * d }

  /** blkid2offset. */
  function Offset(e: nat, d: nat, m: Mark): nat { m.blkid * Pow(e, m.level) * d }

  lemma OffsetBySpan(e: nat, d: nat, m: Mark)
    ensures Offset(e, d, m) == m.blkid * Span(e, d, m.level)
  {
  }

  /** The blocks below a block start at its own offset and follow one another, and fill it. */
  lemma ChildOffset(e: nat, d: nat, level: nat, blkid: nat, i: nat)
    requires level > 0
    ensures Offset(e, d, Mark(level - 1, blkid * e + i)) == Offset(e, d, Mark(level, blkid)) + i * Span(e, d, level - 1)
    ensures Span(e, d, level) == e * Span(e, d, level - 1)
  {
    var p := Pow(e, level - 1);
    assert Pow(e, level) == e * p;
    hide Pow;
    assert blkid * (e * p) * d == blkid * e * (p * d);
    assert (blkid * e + i) * p * d == (blkid * e + i) * (p * d) == blkid * e * (p * d) + i * (p * d);
    assert e * p * d == e * (p * d);
  }

  /** The lines printed for an object, at any one level, are of ranges that go up and do not overlap. */
  lemma ObjectTiled(e: nat, d: nat, ps: seq<Bp>, level: nat, i: nat, j: nat)
    requires forall i | 0 <= i < |ps| :: WellFormed(e, ps[i]) && (ps[i].birth != 0 ==> ps[i].level == level)
    requires var lines := WalkAll(ps, 0).1; i < j < |lines| && lines[i].level == lines[j].level
    ensures var a, b := WalkAll(ps, 0).1[i], WalkAll(ps, 0).1[j];
            Offset(e, d, a) + Span(e, d, a.level) <= Offset(e, d, b)
  {
    AllTile(e, ps, level, 0);
    var a, b := WalkAll(ps, 0).1[i], WalkAll(ps, 0).1[j];
    var s := Span(e, d, a.level);
    OffsetBySpan(e, d, a);
    OffsetBySpan(e, d, b);
    Arith.MulMonotone(a.blkid + 1, b.blkid, s);
    Arith.Distribute(a.blkid, 1, s);
  }

  /** The fill count of the data blocks under a pointer. */
  function LeafFill(bp: Bp): nat
    decreases bp, |bp.kids| + 1
  {
    if bp.birth == 0 then 0 else if bp.level == 0 then bp.fill else LeafFills(bp, bp.kids)
  }

  function LeafFills(bp: Bp, kids: seq<Bp>): nat
    requires forall k | k in kids :: k in bp.kids
    decreases bp, |kids|
  {
    if kids == [] then 0 else assert kids[0] in bp.kids; LeafFill(kids[0]) + LeafFills(bp, kids[1..])
  }

  /** A walk that ends well has checked that the fill count is that of the data blocks below. */
  lemma {:induction false} FillIsLeaves(e: nat, bp: Bp, blkid: nat)
    requires WellFormed(e, bp) && Walk(bp, blkid).0.Done?
    ensures bp.fill == LeafFill(bp)
    decreases bp, |bp.kids| + 1
  {
    if bp.birth == 0 || bp.level == 0 {
    } else {
      FillsAreLeaves(e, bp, bp.kids, blkid * |bp.kids|);
    }
  }

  lemma {:induction false} FillsAreLeaves(e: nat, bp: Bp, kids: seq<Bp>, base: nat)
    requires bp.level > 0 && bp.birth != 0 && WellFormed(e, bp)
    requires forall k | k in kids :: k in bp.kids
    requires WalkKids(bp, kids, base).0.Done?
    ensures Fills(kids) == LeafFills(bp, kids)
    decreases bp, |kids|
  {
    if kids == [] {
    } else {
      assert kids[0] in bp.kids;
      FillIsLeaves(e, kids[0], base);
      FillsAreLeaves(e, bp, kids[1..], base + 1);
    }
  }

  // ----- and back -----

  const WHOLE: nat := 0xFFFF_FFFF_FFFF_FFFF

  datatype ByteRange = ByteRange(start: nat, end: nat)

  lemma DivDiv(x: nat, a: nat, b: nat)
    requires a > 0 && b > 0
    ensures a * b > 0 && x / a / b == x / (a * b)
  {
    Arith.MulMonotone(1, a, b);
    var y := x / a;
    var q, r1, r2 := y / b, x % a, y % b;
    assert x == y * a + r1 && y == q * b + r2;
    assert x == q * (a * b) + (r2 * a + r1) by {
      assert (q * b + r2) * a == q * b * a + r2 * a;
      assert q * b * a == q * (a * b);
    }
    assert r2 * a + r1 < a * b by {
      Arith.MulMonotone(r2 + 1, b, a);
      Arith.Distribute(r2, 1, a);
    }
    Arith.DivModUnique(q, a * b, r2 * a + r1);
  }

  /** A shift to the right, by the power of two that it divides by. */
  function Quot(x: nat, n: nat): nat
    requires n > 0
  {
    x / n
  }

  /** What the loop over levels makes of a block number. */
  function Shifted(x: nat, e: nat, level: nat): nat
    requires e > 0
    decreases level
  {
    if level == 0 then x else Shifted(Quot(x, e), e, level - 1)
  }

  lemma {:induction false} ShiftedIsQuotient(x: nat, e: nat, level: nat)
    requires e > 0
    ensures Pow(e, level) > 0 && Shifted(x, e, level) == x / Pow(e, level)
    decreases level
  {
    PowPositive(e, level);
    if level == 0 {
    } else {
      ShiftedIsQuotient(x / e, e, level - 1);
      DivDiv(x, e, Pow(e, level - 1));
    }
  }

  function Translate(x: nat, e: nat, d: nat, level: nat): nat
    requires e > 0 && d > 0
  {
    Shifted(Quot(x, d), e, level)
  }

  /** The range as given on the command line. */
  datatype Given = NoRange | From(start: nat) | FromTo(start: nat, end: nat) | BadRange

  /** The object's pointers to a block, its data block size, and its levels. */
  datatype Dnode = Dnode(e: nat, d: nat, nlevels: nat)

  const DNODE_SIZE: nat := 512

  /** The bytes meant: all of them, a byte and the next one, both ends as given, or, for faults in a
      dnode, its own bytes in the meta-dnode and the one after them. */
  function Numeric(given: Given, inDnode: bool, obj: nat): Option<ByteRange> {
    match given
    case BadRange => None
    case NoRange => Some(if inDnode then DnodeRange(obj) else ByteRange(0, WHOLE))
    case From(start) => if inDnode then None else Some(ByteRange(start, (start + 1) % (WHOLE + 1)))
    case FromTo(start, end) => if inDnode then None else Some(ByteRange(start, end))
  }

  function DnodeRange(obj: nat): ByteRange {
    var start := obj * DNODE_SIZE % (WHOLE + 1);
    ByteRange(start, (start + DNODE_SIZE) % (WHOLE + 1))
  }

  /** The blocks a byte range is translated to; that of a whole object is not divided by the block size
      before the levels are taken into account. */
  function Blocks(range: ByteRange, e: nat, d: nat, level: nat): ByteRange
    requires e > 0 && d > 0
  {
    if range == ByteRange(0, WHOLE) then ByteRange(0, Shifted(WHOLE, e, level))
    else ByteRange(Translate(range.start, e, d, level), Translate(range.end, e, d, level))
  }

  /** calculate_range; `hold` is what is found out about an object, the meta-dnode being number 0. */
  method CalculateRange(given: Given, inDnode: bool, obj: nat, level: nat, hold: nat -> Option<Dnode>)
      returns (r: Option<(ByteRange, nat)>)
    requires forall o | hold(o).Some? :: hold(o).value.e > 0 && hold(o).value.d > 0
    ensures var range, target := Numeric(given, inDnode, obj), if inDnode then 0 else obj;
            && (r.None? <==>
                  range.None? || hold(target).None? || (level > 0 && level >= hold(target).value.nlevels))
            && (r.Some? ==>
                  r.value == (Blocks(range.value, hold(target).value.e, hold(target).value.d, level), target))
  {
    hide Quot;
    var start: nat, end: nat, target := 0, WHOLE, obj;
    match given {
      case NoRange =>
      case From(a) => start, end := a, (a + 1) % (WHOLE + 1);
      case FromTo(a, b) => start, end := a, b;
      case BadRange => return None;
    }
    if inDnode {
      if given != NoRange {
        return None;
      }
      start := obj * DNODE_SIZE % (WHOLE + 1);
      end, target := (start + DNODE_SIZE) % (WHOLE + 1), 0;
    }
    if hold(target).None? {
      return None;
    }
    var dn := hold(target).value;
    if start != 0 || end != WHOLE {
      start, end := Quot(start, dn.d), Quot(end, dn.d);
    }
    if level > 0 {
      if level >= dn.nlevels {
        return None;
      }
      ShiftedZero(dn.e, level);
      if start != 0 || end != 0 {
        start, end := ShiftLevels(start, end, dn.e, level);
      }
    }
    r := Some((ByteRange(start, end), target));
  }

  method ShiftLevels(start: nat, end: nat, e: nat, level: nat) returns (s: nat, t: nat)
    requires e > 0
    ensures s == Shifted(start, e, level) && t == Shifted(end, e, level)
  {
    hide Quot;
    s, t := start, end;
    var l: nat := level;
    while l > 0
      invariant l <= level
      invariant Shifted(s, e, l) == Shifted(start, e, level) && Shifted(t, e, l) == Shifted(end, e, level)
    {
      s, t := Quot(s, e), Quot(t, e);
      l := l - 1;
    }
  }

  lemma {:induction false} ShiftedZero(e: nat, level: nat)
    requires e > 0
    ensures Shifted(0, e, level) == 0
    decreases level
  {
    if level == 0 {
    } else {
      ShiftedZero(e, level - 1);
    }
  }

  /** The block a byte lies in. */
  lemma TranslateIsQuotient(x: nat, e: nat, d: nat, level: nat)
    requires e > 0 && d > 0
    ensures Span(e, d, level) > 0 && Translate(x, e, d, level) == x / Span(e, d, level)
  {
    ShiftedIsQuotient(x / d, e, level);
    DivDiv(x, d, Pow(e, level));
    assert d * Pow(e, level) == Span(e, d, level);
  }

  lemma InQuotient(x: nat, s: nat, k: nat)
    requires s > 0
    ensures x / s <= k <==> x < (k + 1) * s
    ensures k <= x / s <==> k * s <= x
  {
    var q := x / s;
    assert x == q * s + x % s;
    if q <= k {
      Arith.MulMonotone(q + 1, k + 1, s);
      Arith.Distribute(q, 1, s);
    } else {
      Arith.MulMonotone(k + 1, q, s);
    }
    if k <= q {
      Arith.MulMonotone(k, q, s);
    } else {
      Arith.MulMonotone(q + 1, k, s);
      Arith.Distribute(q, 1, s);
    }
  }

  /** Every byte under a block, and no other, is translated to that block. */
  lemma ByteToBlock(x: nat, e: nat, d: nat, m: Mark)
    requires e > 0 && d > 0
    ensures Translate(x, e, d, m.level) == m.blkid <==> Offset(e, d, m) <= x < Offset(e, d, m) + Span(e, d, m.level)
  {
    var s := Span(e, d, m.level);
    TranslateIsQuotient(x, e, d, m.level);
    OffsetBySpan(e, d, m);
    InQuotient(x, s, m.blkid);
    Arith.Distribute(m.blkid, 1, s);
  }

  /** A byte range short of the whole object is translated to exactly the blocks that it touches. */
  lemma RangeToBlocks(range: ByteRange, e: nat, d: nat, m: Mark)
    requires e > 0 && d > 0 && range.start <= range.end && range != ByteRange(0, WHOLE)
    ensures var blocks := Blocks(range, e, d, m.level);
            blocks.start <= m.blkid <= blocks.end <==>
            range.start < Offset(e, d, m) + Span(e, d, m.level) && Offset(e, d, m) <= range.end
  {
    var s := Span(e, d, m.level);
    TranslateIsQuotient(range.start, e, d, m.level);
    TranslateIsQuotient(range.end, e, d, m.level);
    OffsetBySpan(e, d, m);
    InQuotient(range.start, s, m.blkid);
    InQuotient(range.end, s, m.blkid);
    Arith.Distribute(m.blkid, 1, s);
  }

  /** With `m` dnodes to a block, it is translated to the dnode's own block alone, unless the dnode
      is the last one in it: then the next block is taken in as well. */
  lemma DnodeRangeSpills(obj: nat, e: nat, m: nat)
    requires e > 0 && m > 0 && (obj + 1) * DNODE_SIZE <= WHOLE
    ensures var d := m * DNODE_SIZE; var r := DnodeRange(obj);
            && Translate(r.start, e, d, 0) == obj / m
            && Translate(r.end, e, d, 0) == if (obj + 1) % m == 0 then obj / m + 1 else obj / m
  {
    hide Translate, DnodeRange;
    DnodeRangeIs(obj);
    DnodeBlock(obj, e, m);
    DnodeBlock(obj + 1, e, m);
    Next(obj, m);
  }

  lemma DnodeRangeIs(obj: nat)
    requires (obj + 1) * DNODE_SIZE <= WHOLE
    ensures DnodeRange(obj) == ByteRange(obj * DNODE_SIZE, (obj + 1) * DNODE_SIZE)
  {
  }

  lemma DnodeBlock(obj: nat, e: nat, m: nat)
    requires e > 0 && m > 0
    ensures Translate(obj * DNODE_SIZE, e, m * DNODE_SIZE, 0) == obj / m
  {
    DivDiv(obj * DNODE_SIZE, DNODE_SIZE, m);
    Arith.DivModUnique(obj, DNODE_SIZE, 0);
    assert DNODE_SIZE * m == m * DNODE_SIZE;
  }

  lemma Next(x: nat, m: nat)
    requires m > 0
    ensures (x + 1) / m == if (x + 1) % m == 0 then x / m + 1 else x / m
  {
    var q, r := x / m, x % m;
    assert x == q * m + r;
    if r + 1 < m {
      Arith.DivModUnique(q, m, r + 1);
    } else {
      Arith.Distribute(q, 1, m);
      Arith.DivModUnique(q + 1, m, 0);
    }
  }
}

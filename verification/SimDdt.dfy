/** zdb -S: a dedup table simulated from the blocks met in a traversal, and its histogram
    (cmd/zdb/zdb.c, module/zfs/ddt.c). */
module SimDdt {
  import opened Arith
  import opened Base

  /** What the simulation looks at in a block pointer. */
  datatype Bp = Bp(hole: bool, checksumOff: bool, level: nat, metadata: bool,
                   cksum: nat, lsize: nat, psize: nat, compress: nat, dsize: nat)

  predicate Eligible(b: Bp) { !b.hole && !b.checksumOff && b.level == 0 && !b.metadata }

  /** ddt_key_fill: the checksum, the sizes and the compression. */
  datatype Key = Key(cksum: nat, lsize: nat, psize: nat, compress: nat)

  function KeyOf(b: Bp): Key { Key(b.cksum, b.lsize, b.psize, b.compress) }

  /** A size a block pointer can carry: whole sectors, and a 16-bit count of them less one. */
  predicate IsSize(x: nat) { 512 <= x <= 0x200_0000 && x % 512 == 0 }

  /** ddk_prop: the two sizes in 16 bits each, then the compression. */
  function Prop(lsize: nat, psize: nat, compress: nat): nat
    requires IsSize(lsize) && IsSize(psize)
  {
    (lsize / 512 - 1) + 0x1_0000 * (psize / 512 - 1) + 0x1_0000_0000 * compress
  }

  function PropLsize(prop: nat): nat { (prop % 0x1_0000 + 1) * 512 }

  function PropPsize(prop: nat): nat { (prop / 0x1_0000 % 0x1_0000 + 1) * 512 }

  function PropCompress(prop: nat): nat { prop / 0x1_0000_0000 % 0x100 }

  /** The word in the key gives back what was put into it, so equal keys mean equal sizes. */
  lemma PropReadsBack(lsize: nat, psize: nat, compress: nat)
    requires IsSize(lsize) && IsSize(psize) && compress < 0x100
    ensures var w := Prop(lsize, psize, compress);
            PropLsize(w) == lsize && PropPsize(w) == psize && PropCompress(w) == compress
  {
    var l, p := lsize / 512 - 1, psize / 512 - 1;
    var w := Prop(lsize, psize, compress);
    assert w == l + 0x1_0000 * (p + 0x1_0000 * compress);
    assert w / 0x1_0000 == p + 0x1_0000 * compress;
  }

  /** zdb_ddt_entry_t without the key. */
  datatype Entry = Entry(blocks: nat, lsize: nat, psize: nat, dsize: nat)

  const NONE := Entry(0, 0, 0, 0)

  type Tree = map<Key, Entry>

  /** zdb_ddt_add_cb. */
  function Add(t: Tree, b: Bp): Tree {
    if !Eligible(b) then t
    else
      var k := KeyOf(b);
      var e := if k in t then t[k] else NONE;
      t[k := Entry(e.blocks + 1, e.lsize + b.lsize, e.psize + b.psize, e.dsize + b.dsize)]
  }

  function AddAll(t: Tree, bs: seq<Bp>): Tree {
    if bs == [] then t else Add(AddAll(t, bs[..|bs| - 1]), bs[|bs| - 1])
  }

  // ----- what the tree holds -----

  /** A data block, not a hole and with a checksum, that has the key's checksum, sizes and compression. */
  predicate Refers(b: Bp, k: Key) {
    && !b.hole && !b.checksumOff && b.level == 0 && !b.metadata
    && b.cksum == k.cksum && b.lsize == k.lsize && b.psize == k.psize && b.compress == k.compress
  }

  /** References to a key, and the space they take on disk. */
  function Refs(bs: seq<Bp>, k: Key): nat {
    if bs == [] then 0 else Refs(bs[..|bs| - 1], k) + (if Refers(bs[|bs| - 1], k) then 1 else 0)
  }

  function DSize(bs: seq<Bp>, k: Key): nat {
    if bs == [] then 0 else DSize(bs[..|bs| - 1], k) + (if Refers(bs[|bs| - 1], k) then bs[|bs| - 1].dsize else 0)
  }

  /** An entry is there exactly for the keys met, and its sums are those of the key times the count. */
  lemma {:induction false} TreeExact(bs: seq<Bp>, k: Key)
    ensures k in AddAll(map[], bs) <==> Refs(bs, k) > 0
    ensures Refs(bs, k) == 0 ==> DSize(bs, k) == 0
    ensures k in AddAll(map[], bs) ==>
              var e := AddAll(map[], bs)[k];
              && e.blocks == Refs(bs, k) && e.dsize == DSize(bs, k)
              && e.lsize == Refs(bs, k) * k.lsize && e.psize == Refs(bs, k) * k.psize
  {
    if bs == [] {
    } else {
      TreeExact(bs[..|bs| - 1], k);
      if Refers(bs[|bs| - 1], k) {
        Distribute(Refs(bs[..|bs| - 1], k), 1, k.lsize);
        Distribute(Refs(bs[..|bs| - 1], k), 1, k.psize);
      }
    }
  }

  // ----- the order of visits does not matter -----

  lemma {:induction false} RefsSplit(a: seq<Bp>, b: seq<Bp>, k: Key)
    ensures Refs(a + b, k) == Refs(a, k) + Refs(b, k)
    ensures DSize(a + b, k) == DSize(a, k) + DSize(b, k)
    decreases |b|
  {
    if b == [] {
      assert a + b == a;
    } else {
      assert (a + b)[..|a + b| - 1] == a + b[..|b| - 1];
      RefsSplit(a, b[..|b| - 1], k);
    }
  }

  lemma {:induction false} RefsAnyOrder(a: seq<Bp>, b: seq<Bp>, k: Key)
    requires multiset(a) == multiset(b)
    ensures Refs(a, k) == Refs(b, k) && DSize(a, k) == DSize(b, k)
    decreases |a|
  {
    hide Refs, DSize;
    if a == [] {
      SameEmpty(b);
    } else {
      var i := Partner(a, b);
      RefsAnyOrder(a[1..], Except(b, i), k);
      assert a == [a[0]] + a[1..] && b == b[..i] + ([b[i]] + b[i + 1..]);
      RefsSplit([a[0]], a[1..], k);
      RefsSplit(b[..i], [b[i]] + b[i + 1..], k);
      RefsSplit([b[i]], b[i + 1..], k);
      RefsSplit(b[..i], b[i + 1..], k);
    }
  }

  /** The same blocks met in any order make the same tree. */
  lemma AnyOrder(a: seq<Bp>, b: seq<Bp>)
    requires multiset(a) == multiset(b)
    ensures AddAll(map[], a) == AddAll(map[], b)
  {
    forall k: Key ensures (k in AddAll(map[], a) <==> k in AddAll(map[], b)) &&
                          (k in AddAll(map[], a) ==> AddAll(map[], a)[k] == AddAll(map[], b)[k])
    {
      RefsAnyOrder(a, b, k);
      TreeExact(a, k);
      TreeExact(b, k);
    }
  }

  // ----- buckets -----

  /** What is left of `i` after h - 1 bits were shifted out. */
  ghost predicate Shifted(i: nat, h: nat, cur: nat) {
    h >= 1 && P2(h - 1) * cur <= i < P2(h - 1) * (cur + 1)
  }

  lemma ShiftOn(i: nat, h: nat, cur: nat, n: nat, d: nat, q: nat)
    requires d * q <= cur < d * (q + 1)
    requires d == P2(n) && Shifted(i, h, cur)
    ensures Shifted(i, h + n, q)
  {
    P2Sum(h - 1, n);
    hide P2;
    ScaledBounds(P2(h - 1), d, q, cur, i);
  }

  lemma ScaledBounds(p: nat, d: nat, q: nat, cur: nat, i: nat)
    requires d * q <= cur < d * (q + 1) && p * cur <= i < p * (cur + 1)
    ensures p * d * q <= i < p * d * (q + 1)
  {
    MulMonotone(d * q, cur, p);
    MulMonotone(cur + 1, d * (q + 1), p);
    assert p * d * q == d * q * p && p * d * (q + 1) == d * (q + 1) * p;
  }

  /** highbit of a 64-bit number: one more than the position of its highest bit. */
  method Highbit(i: nat) returns (h: nat)
    requires i < 0x1_0000_0000_0000_0000
    ensures i == 0 ==> h == 0
    ensures i > 0 ==> 1 <= h <= 64 && P2(h - 1) <= i < P2(h)
  {
    hide P2, Shifted;
    if i == 0 {
      return 0;
    }
    SmallPowers();
    FromStart(i);
    var cur := i;
    h := 1;
    if cur >= 0x1_0000_0000 {
      ShiftOn(i, h, cur, 32, 0x1_0000_0000, cur / 0x1_0000_0000);
      h, cur := h + 32, cur / 0x1_0000_0000;
    }
    if cur >= 0x1_0000 {
      ShiftOn(i, h, cur, 16, 0x1_0000, cur / 0x1_0000);
      h, cur := h + 16, cur / 0x1_0000;
    }
    h := HighbitLow(i, h, cur);
  }

  /** The last four steps, once at most 16 bits are left. */
  method HighbitLow(ghost i: nat, h0: nat, cur0: nat) returns (h: nat)
    requires 0 < cur0 < 0x1_0000 && Shifted(i, h0, cur0)
    ensures h0 <= h <= h0 + 15 && h >= 1 && P2(h - 1) <= i < P2(h)
  {
    hide P2, Shifted;
    SmallPowers();
    var cur := cur0;
    h := h0;
    if cur >= 0x100 {
      ShiftOn(i, h, cur, 8, 0x100, cur / 0x100);
      h, cur := h + 8, cur / 0x100;
    }
    if cur >= 0x10 {
      ShiftOn(i, h, cur, 4, 0x10, cur / 0x10);
      h, cur := h + 4, cur / 0x10;
    }
    if cur >= 4 {
      ShiftOn(i, h, cur, 2, 4, cur / 4);
      h, cur := h + 2, cur / 4;
    }
    if cur >= 2 {
      ShiftOn(i, h, cur, 1, 2, cur / 2);
      h, cur := h + 1, cur / 2;
    }
    AtEnd(i, h);
  }

  lemma FromStart(i: nat)
    ensures Shifted(i, 1, i)
  {
  }

  lemma AtEnd(i: nat, h: nat)
    requires Shifted(i, h, 1)
    ensures h >= 1 && P2(h - 1) <= i < P2(h)
  {
  }

  // ----- the histogram -----

  /** ddt_stat_t: what the table would take, and what the blocks take that refer to it. */
  datatype DdtStat = DdtStat(blocks: nat, lsize: nat, psize: nat, dsize: nat,
                             refBlocks: nat, refLsize: nat, refPsize: nat, refDsize: nat)
  {
    /** ddt_stat_add. */
    function Plus(x: DdtStat): DdtStat {
      DdtStat(blocks + x.blocks, lsize + x.lsize, psize + x.psize, dsize + x.dsize,
              refBlocks + x.refBlocks, refLsize + x.refLsize, refPsize + x.refPsize, refDsize + x.refDsize)
    }
  }

  const ZERO := DdtStat(0, 0, 0, 0, 0, 0, 0, 0)

  /** One entry's line: its sums, and those divided by its references. */
  function StatOf(e: Entry): DdtStat
    requires e.blocks > 0
  {
    DdtStat(e.blocks / e.blocks, e.lsize / e.blocks, e.psize / e.blocks, e.dsize / e.blocks,
            e.blocks, e.lsize, e.psize, e.dsize)
  }

  ghost predicate NoneEmpty(t: Tree) { forall k | k in t :: t[k].blocks > 0 }

  /** In the bucket `b`, or in any if there is none. */
  predicate InBucket(e: Entry, b: Option<nat>) {
    b.None? || P2(b.value) <= e.blocks < P2(b.value + 1)
  }

  ghost function Line(e: Entry, b: Option<nat>): DdtStat
    requires e.blocks > 0
  {
    if InBucket(e, b) then StatOf(e) else ZERO
  }

  ghost function Sum(t: Tree, b: Option<nat>): DdtStat
    requires NoneEmpty(t)
    decreases |t|
  {
    if t == map[] then ZERO
    else
      var k :| k in t;
      assert (t - {k}).Keys == t.Keys - {k};
      Line(t[k], b).Plus(Sum(t - {k}, b))
  }

  datatype Number = Blocks | Lsize | Psize | Dsize | RefBlocks | RefLsize | RefPsize | RefDsize

  function Of(s: DdtStat, n: Number): nat {
    match n
    case Blocks => s.blocks
    case Lsize => s.lsize
    case Psize => s.psize
    case Dsize => s.dsize
    case RefBlocks => s.refBlocks
    case RefLsize => s.refLsize
    case RefPsize => s.refPsize
    case RefDsize => s.refDsize
  }

  /** One of the numbers of a line, added up over the entries of a bucket. */
  ghost function Over(t: Tree, b: Option<nat>, n: Number): nat
    requires NoneEmpty(t)
    decreases |t|
  {
    if t == map[] then 0
    else
      var k := Pick(t);
      assert (t - {k}).Keys == t.Keys - {k};
      (if InBucket(t[k], b) then Of(StatOf(t[k]), n) else 0) + Over(t - {k}, b, n)
  }

  ghost function Pick(t: Tree): (k: Key)
    requires t != map[]
    ensures k in t
  {
    var k :| k in t; k
  }

  /** Each of the eight numbers of a sum is that number added up. */
  lemma {:induction false} SumIs(t: Tree, b: Option<nat>, n: Number)
    requires NoneEmpty(t)
    ensures Of(Sum(t, b), n) == Over(t, b, n)
    decreases |t|
  {
    if t == map[] {
      assert Of(ZERO, n) == 0;
    } else {
      hide StatOf, InBucket, Sum, Of, DdtStat.Plus;
      var k := Pick(t);
      SumWithout(t, b, k);
      assert (t - {k}).Keys == t.Keys - {k};
      SumIs(t - {k}, b, n);
      OfPlus(Line(t[k], b), Sum(t - {k}, b), n);
    }
  }

  lemma OfPlus(x: DdtStat, y: DdtStat, n: Number)
    ensures Of(x.Plus(y), n) == Of(x, n) + Of(y, n) && Of(ZERO, n) == 0
  {
  }

  lemma {:induction false} SumWithout(t: Tree, b: Option<nat>, k: Key)
    requires NoneEmpty(t) && k in t
    ensures Sum(t, b) == Line(t[k], b).Plus(Sum(t - {k}, b))
    decreases |t|
  {
    hide Line, DdtStat.Plus;
    var j :| j in t && Sum(t, b) == Line(t[j], b).Plus(Sum(t - {j}, b));
    if j == k {
    } else {
      assert (t - {j}).Keys == t.Keys - {j};
      assert (t - {k}).Keys == t.Keys - {k};
      SumWithout(t - {j}, b, k);
      SumWithout(t - {k}, b, j);
      assert t - {j} - {k} == t - {k} - {j};
      PlusSwap(Line(t[j], b), Line(t[k], b), Sum(t - {j} - {k}, b));
    }
  }

  lemma PlusSwap(x: DdtStat, y: DdtStat, z: DdtStat)
    ensures x.Plus(y.Plus(z)) == y.Plus(x.Plus(z))
    ensures x.Plus(y.Plus(z)) == x.Plus(y).Plus(z)
    ensures x.Plus(y.Plus(z)) == z.Plus(x.Plus(y))
  {
  }

  lemma SumAdd(t: Tree, b: Option<nat>, k: Key, e: Entry)
    requires NoneEmpty(t) && e.blocks > 0 && k !in t
    ensures NoneEmpty(t[k := e]) && Sum(t[k := e], b) == Line(e, b).Plus(Sum(t, b))
  {
    hide Line, Sum, DdtStat.Plus;
    SumWithout(t[k := e], b, k);
    assert t[k := e] - {k} == t;
  }

  /** ddt_histogram_stat adds the buckets up. */
  function Add64(hist: seq<DdtStat>): DdtStat {
    if hist == [] then ZERO else Add64(hist[..|hist| - 1]).Plus(hist[|hist| - 1])
  }

  lemma {:induction false} Add64Update(hist: seq<DdtStat>, b: nat, x: DdtStat)
    requires b < |hist|
    ensures Add64(hist[b := hist[b].Plus(x)]) == x.Plus(Add64(hist))
    decreases |hist|
  {
    hide DdtStat.Plus;
    var h' := hist[b := hist[b].Plus(x)];
    if b < |hist| - 1 {
      assert h'[..|hist| - 1] == hist[..|hist| - 1][b := hist[b].Plus(x)];
      Add64Update(hist[..|hist| - 1], b, x);
      PlusSwap(x, Add64(hist[..|hist| - 1]), hist[|hist| - 1]);
    } else {
      assert h'[..|hist| - 1] == hist[..|hist| - 1];
      PlusSwap(Add64(hist[..|hist| - 1]), hist[b], x);
    }
  }

  // ----- what the totals say -----

  /** The eligible blocks and their sizes, added up. */
  function Everything(bs: seq<Bp>): Entry {
    if bs == [] then NONE
    else
      var e, b := Everything(bs[..|bs| - 1]), bs[|bs| - 1];
      if b.hole || b.checksumOff || b.level > 0 || b.metadata then e
      else Entry(e.blocks + 1, e.lsize + b.lsize, e.psize + b.psize, e.dsize + b.dsize)
  }

  /** What the blocks take that refer to the table. */
  predicate Referred(s: DdtStat, e: Entry) {
    s.refBlocks == e.blocks && s.refLsize == e.lsize && s.refPsize == e.psize && s.refDsize == e.dsize
  }

  lemma {:induction false} SumTotals(t: Tree)
    requires NoneEmpty(t)
    ensures Sum(t, None).blocks == |t|
    decreases |t|
  {
    if k :| k in t {
      SumWithout(t, None, k);
      assert (t - {k}).Keys == t.Keys - {k};
      SumTotals(t - {k});
      DivModUnique(1, t[k].blocks, 0);
    }
  }

  /** The histogram's totals: on the side of the references all eligible blocks with their sizes, and on
      the side of the table a block for each key met. */
  lemma {:induction false} TotalsExact(bs: seq<Bp>)
    ensures NoneEmpty(AddAll(map[], bs))
    ensures Referred(Sum(AddAll(map[], bs), None), Everything(bs))
    ensures Sum(AddAll(map[], bs), None).blocks == |AddAll(map[], bs)|
  {
    if bs == [] {
    } else {
      var t, x := AddAll(map[], bs[..|bs| - 1]), bs[|bs| - 1];
      TotalsExact(bs[..|bs| - 1]);
      if Eligible(x) {
        AddTotals(t, x);
      }
    }
    SumTotals(AddAll(map[], bs));
  }

  lemma AddTotals(t: Tree, x: Bp)
    requires NoneEmpty(t) && Eligible(x)
    ensures NoneEmpty(Add(t, x))
    ensures var s, s' := Sum(t, None), Sum(Add(t, x), None);
            && s'.refBlocks == s.refBlocks + 1 && s'.refLsize == s.refLsize + x.lsize
            && s'.refPsize == s.refPsize + x.psize && s'.refDsize == s.refDsize + x.dsize
  {
    hide Sum;
    var k := KeyOf(x);
    SumWithout(Add(t, x), None, k);
    assert Add(t, x) - {k} == t - {k};
    if k in t {
      SumWithout(t, None, k);
    } else {
      assert t - {k} == t;
    }
  }

  /** An entry's own line: one block of the sizes its key says, its share of the space on disk, and all
      the blocks with that key and what they take. */
  lemma LineExact(bs: seq<Bp>, k: Key)
    requires k in AddAll(map[], bs)
    ensures var e, n := AddAll(map[], bs)[k], Refs(bs, k);
            && e.blocks > 0 && n > 0
            && StatOf(e) == DdtStat(1, k.lsize, k.psize, DSize(bs, k) / n, n, n * k.lsize, n * k.psize, DSize(bs, k))
  {
    hide AddAll, Refs, DSize, StatOf;
    TreeExact(bs, k);
    Shares(AddAll(map[], bs)[k], k.lsize, k.psize);
  }

  lemma Shares(e: Entry, lsize: nat, psize: nat)
    requires e.blocks > 0 && e.lsize == e.blocks * lsize && e.psize == e.blocks * psize
    ensures StatOf(e) == DdtStat(1, lsize, psize, e.dsize / e.blocks, e.blocks, e.lsize, e.psize, e.dsize)
  {
    DivModUnique(1, e.blocks, 0);
    DivModUnique(lsize, e.blocks, 0);
    DivModUnique(psize, e.blocks, 0);
  }

  ghost predicate Filled(hist: seq<DdtStat>, t: Tree) {
    |hist| == 64 && NoneEmpty(t) && forall b | 0 <= b < 64 :: hist[b] == Sum(t, Some(b))
  }

  lemma FilledIs(hist: seq<DdtStat>, t: Tree)
    requires Filled(hist, t)
    ensures NoneEmpty(t) && |hist| == 64 && forall b | 0 <= b < 64 :: hist[b] == Sum(t, Some(b))
  {
  }

  lemma OneBucket(e: Entry, b: nat, c: nat)
    requires InBucket(e, Some(b)) && b != c
    ensures !InBucket(e, Some(c))
  {
    if b < c {
      P2Grows(b + 1, c);
    } else {
      P2Grows(c + 1, b);
    }
  }

  lemma {:induction false} P2Grows(a: nat, b: nat)
    requires a <= b
    ensures P2(a) <= P2(b)
    decreases b
  {
    if a >= b {
    } else {
      P2Grows(a, b - 1);
    }
  }

  lemma FillOne(hist: seq<DdtStat>, t: Tree, k: Key, e: Entry, b: nat)
    requires Filled(hist, t) && k !in t && e.blocks > 0 && b < 64 && InBucket(e, Some(b))
    ensures Filled(hist[b := hist[b].Plus(StatOf(e))], t[k := e])
  {
    hide Sum, StatOf, P2;
    forall c | 0 <= c < 64 ensures hist[b := hist[b].Plus(StatOf(e))][c] == Sum(t[k := e], Some(c)) {
      SumAdd(t, Some(c), k, e);
      if c != b {
        OneBucket(e, b, c);
      }
    }
    SumAdd(t, None, k, e);
  }

  lemma {:induction false} AllZero(hist: seq<DdtStat>)
    requires forall i | 0 <= i < |hist| :: hist[i] == ZERO
    ensures Add64(hist) == ZERO
    decreases |hist|
  {
    if hist == [] {
      assert Add64([]) == ZERO;
    } else {
      AllZero(hist[..|hist| - 1]);
      assert hist[|hist| - 1] == ZERO;
    }
  }

  lemma NothingYet()
    ensures Filled(seq(64, _ => ZERO), map[]) && Add64(seq(64, _ => ZERO)) == Sum(map[], None)
  {
    hide Add64;
    AllZero(seq(64, _ => ZERO));
  }

  lemma {:induction false} RefsBound(bs: seq<Bp>, k: Key)
    ensures Refs(bs, k) <= |bs|
  {
    if bs == [] {
    } else {
      RefsBound(bs[..|bs| - 1], k);
    }
  }

  lemma EntryBound(bs: seq<Bp>, k: Key)
    requires k in AddAll(map[], bs)
    ensures 0 < AddAll(map[], bs)[k].blocks <= |bs|
  {
    TreeExact(bs, k);
    RefsBound(bs, k);
  }

  /** traverse_pool with zdb_ddt_add_cb. */
  method Traverse(bs: seq<Bp>) returns (t: Tree)
    ensures t == AddAll(map[], bs)
  {
    t := map[];
    for i := 0 to |bs|
      invariant t == AddAll(map[], bs[..i])
    {
      assert bs[..i + 1][..i] == bs[..i];
      if Eligible(bs[i]) {
        var k := KeyOf(bs[i]);
        if k !in t {
          t := t[k := NONE];
        }
        var e := t[k];
        t := t[k := Entry(e.blocks + 1, e.lsize + bs[i].lsize, e.psize + bs[i].psize, e.dsize + bs[i].dsize)];
      }
    }
    assert bs[..|bs|] == bs;
  }

  /** One entry added to the bucket that highbit gives. */
  method FileEntry(hist: seq<DdtStat>, ghost t: Tree, ghost k: Key, e: Entry) returns (out: seq<DdtStat>)
    requires Filled(hist, t) && Add64(hist) == Sum(t, None) && k !in t && 0 < e.blocks < 0x1_0000_0000_0000_0000
    ensures Filled(out, t[k := e]) && Add64(out) == Sum(t[k := e], None)
  {
    hide Sum, StatOf, P2, Add64, Filled, DdtStat.Plus;
    var h := Highbit(e.blocks);
    FillOne(hist, t, k, e, h - 1);
    FilledSize(hist, t);
    SumAdd(t, None, k, e);
    Add64Update(hist, h - 1, StatOf(e));
    out := hist[h - 1 := hist[h - 1].Plus(StatOf(e))];
  }

  lemma FilledSize(hist: seq<DdtStat>, t: Tree)
    requires Filled(hist, t)
    ensures |hist| == 64 && NoneEmpty(t)
  {
  }

  /** dump_simulated_ddt: every entry lands in the bucket its references say, and the totals are
      those of the whole table. */
  method DumpSimulatedDdt(bs: seq<Bp>) returns (hist: seq<DdtStat>, total: DdtStat)
    requires |bs| < 0x1_0000_0000_0000_0000
    ensures NoneEmpty(AddAll(map[], bs)) && |hist| == 64
    ensures forall b | 0 <= b < 64 :: hist[b] == Sum(AddAll(map[], bs), Some(b))
    ensures total == Sum(AddAll(map[], bs), None)
    ensures Referred(total, Everything(bs)) && total.blocks == |AddAll(map[], bs)|
  {
    hide Sum, AddAll, Add64, Filled, Filed;
    var t := Traverse(bs);
    TotalsExact(bs);
    hist := seq(64, _ => ZERO);
    NothingYet();
    NoneFiled(t);
    var rest := t.Keys;
    ghost var done: Tree := map[];
    hide NoneEmpty;
    while rest != {}
      invariant Filed(t, rest, done) && NoneEmpty(done) && Filled(hist, done) && Add64(hist) == Sum(done, None)
      decreases rest
    {
      var k :| k in rest;
      FileNext(t, rest, done, k);
      EntryBound(bs, k);
      hist := FileEntry(hist, done, k, t[k]);
      done := done[k := t[k]];
      rest := rest - {k};
    }
    FiledAll(t, done);
    FilledIs(hist, t);
    total := Add64(hist);
  }

  /** `done` is the table but for the keys still in `rest`. */
  ghost predicate Filed(t: Tree, rest: set<Key>, done: Tree) {
    rest <= t.Keys && done.Keys == t.Keys - rest && NoneEmpty(done) && forall k | k in done :: done[k] == t[k]
  }

  lemma NoneFiled(t: Tree)
    ensures Filed(t, t.Keys, map[]) && NoneEmpty(map[])
  {
  }

  lemma FileNext(t: Tree, rest: set<Key>, done: Tree, k: Key)
    requires Filed(t, rest, done) && k in rest
    ensures k in t && k !in done
    ensures t[k].blocks > 0 ==> Filed(t, rest - {k}, done[k := t[k]]) && NoneEmpty(done[k := t[k]])
  {
  }

  lemma FiledAll(t: Tree, done: Tree)
    requires Filed(t, {}, done)
    ensures done == t
  {
  }
}

/** The other half of the leak check's promise: a pool whose references match its space maps and its
    dedup counts passes, whatever the order in which its blocks are met (cmd/zdb/zdb.c). */
module LeakPool {
  import opened Base
  import opened PoolSpace
  import opened LeakCheck
  import opened LeakComplete

  // ----- a pool that matches -----

  /** What allocated space is made of: the ditto copies of an entry, a slot with references, a block
      that shares nothing. */
  datatype Part = Dittos(key: Key) | Slotted(key: Key, slot: Slot) | Plain(block: Block)

  /** The block's key has an entry. */
  predicate Shares(t: Table, b: Block) { b.dedup && b.key in t }

  /** The block is a reference to a slot: the first one of its entry with its first copy and its birth. */
  predicate IsReference(t: Table, b: Block, k: Key, p: Slot) {
    Shares(t, b) && b.key == k && FirstMatch(t[k], b, p)
  }

  predicate Present(t: Table, bs: seq<Block>, x: Part) {
    match x
    case Dittos(k) => k in t && t[k].ditto.birth != 0
    case Slotted(k, p) => k in t && Slots(t[k])[Index(p)].refcnt > 0
    case Plain(b) => b in bs && !Shares(t, b)
  }

  function Copies(t: Table, x: Part): seq<Dva> {
    match x
    case Dittos(k) => if k in t then t[k].ditto.dvas else []
    case Slotted(k, p) => if k in t then Slots(t[k])[Index(p)].dvas else []
    case Plain(b) => b.dvas
  }

  ghost predicate Holds(t: Table, bs: seq<Block>, u: Unit) {
    exists x :: Present(t, bs, x) && u in Extents(Copies(t, x))
  }

  /** Every allocated byte lies in exactly one part, and every part is allocated. */
  ghost predicate MadeUp(space: set<Unit>, t: Table, bs: seq<Block>) {
    && (forall x | Present(t, bs, x) :: Separate(Copies(t, x)) && Extents(Copies(t, x)) <= space)
    && (forall x, y | Present(t, bs, x) && Present(t, bs, y) && x != y ::
          Extents(Copies(t, x)) !! Extents(Copies(t, y)))
    && (forall u | u in space :: Holds(t, bs, u))
  }

  /** A block that shares nothing is met once. */
  ghost predicate MetOnce(t: Table, bs: seq<Block>) {
    forall b | b in bs && !Shares(t, b) && b.dvas != [] :: multiset(bs)[b] == 1
  }

  /** How many of the blocks are references to a slot. */
  function References(t: Table, bs: seq<Block>, k: Key, p: Slot): nat {
    if bs == [] then 0
    else References(t, bs[..|bs| - 1], k, p) + (if IsReference(t, bs[|bs| - 1], k, p) then 1 else 0)
  }

  /** The block shares nothing, or is a reference to a slot whose copies it carries. */
  ghost predicate Placed(t: Table, b: Block) {
    Shares(t, b) ==> exists p :: IsReference(t, b, b.key, p) && Slots(t[b.key])[Index(p)].dvas == b.dvas
  }

  /** Each slot has as many references as it counts, all of them with its copies. */
  ghost predicate Referenced(t: Table, bs: seq<Block>) {
    && (forall k, p | k in t :: Slots(t[k])[Index(p)].refcnt == References(t, bs, k, p))
    && (forall b | b in bs :: Placed(t, b))
  }

  /** Maps, dedup table and blocks say the same: each slot is referred to as often as it counts, by
      blocks that carry its copies, and space is made up of what is there. */
  ghost predicate PoolMatches(space: set<Unit>, t: Table, bs: seq<Block>) {
    Referenced(t, bs) && MetOnce(t, bs) && MadeUp(space, t, bs)
  }

  // ----- the preload -----

  /** The entries walked before the first unique one. */
  function Used(walk: seq<Walked>): seq<Walked> {
    if walk == [] || walk[0].class_.UniqueClass? then [] else [walk[0]] + Used(walk[1..])
  }

  function DittoCopies(e: Entry): seq<Dva> { if e.ditto.birth == 0 then [] else e.ditto.dvas }

  ghost function DittoSpace(es: seq<Walked>): set<Unit> {
    if es == [] then {} else Extents(DittoCopies(es[0].entry)) + DittoSpace(es[1..])
  }

  ghost predicate DittosFit(space: set<Unit>, es: seq<Walked>) {
    && (forall i | 0 <= i < |es| ::
          Separate(DittoCopies(es[i].entry)) && Extents(DittoCopies(es[i].entry)) <= space)
    && (forall i, j | 0 <= i < j < |es| ::
          Extents(DittoCopies(es[i].entry)) !! Extents(DittoCopies(es[j].entry)))
  }

  lemma DittosFitRest(space: set<Unit>, es: seq<Walked>)
    requires es != [] && DittosFit(space, es)
    ensures DittosFit(space - Extents(DittoCopies(es[0].entry)), es[1..])
  {
    var rest := es[1..];
    assert forall i | 0 <= i < |rest| :: rest[i] == es[i + 1];
    forall i | 0 <= i < |rest|
      ensures Extents(DittoCopies(rest[i].entry)) <= space - Extents(DittoCopies(es[0].entry))
    {
      assert rest[i] == es[i + 1];
    }
  }

  lemma PreloadOne(s: State, k: Key, e: Entry)
    requires Separate(DittoCopies(e)) && Extents(DittoCopies(e)) <= s.unclaimed
    ensures InitEntry(s, k, e).Some?
    ensures InitEntry(s, k, e).value.unclaimed == s.unclaimed - Extents(DittoCopies(e))
  {
    hide Claim, Separate;
    if e.ditto.birth == 0 {
      assert s.unclaimed - {} == s.unclaimed;
    } else {
      ClaimExact(s.unclaimed, e.ditto.dvas);
    }
  }

  /** Ditto copies that are all there and apart are all claimed. */
  lemma {:induction false} PreloadTakes(s: State, walk: seq<Walked>)
    requires DittosFit(s.unclaimed, Used(walk))
    ensures Init(s, walk).Some?
    ensures Init(s, walk).value.unclaimed == s.unclaimed - DittoSpace(Used(walk))
    decreases |walk|
  {
    if walk == [] || walk[0].class_.UniqueClass? {
    } else {
      var es := Used(walk);
      assert es[0] == walk[0] && es[1..] == Used(walk[1..]);
      hide Separate, InitEntry;
      PreloadOne(s, walk[0].key, walk[0].entry);
      DittosFitRest(s.unclaimed, es);
      PreloadTakes(InitEntry(s, walk[0].key, walk[0].entry).value, walk[1..]);
    }
  }

  lemma {:induction false} PreloadedHas(t: Table, walk: seq<Walked>, i: nat)
    requires i < |Used(walk)|
    requires forall i, j | 0 <= i < j < |Used(walk)| :: Used(walk)[i].key != Used(walk)[j].key
    ensures var x := Used(walk)[i]; x.key in PreloadOnto(t, walk) && PreloadOnto(t, walk)[x.key] == x.entry
    decreases |walk|
  {
    var es, t1 := Used(walk), t[walk[0].key := walk[0].entry];
    assert es[1..] == Used(walk[1..]);
    assert forall j | 0 < j < |es| :: es[j] == Used(walk[1..])[j - 1];
    if i == 0 {
      forall j | 0 <= j < |Used(walk[1..])| ensures Used(walk[1..])[j].key != walk[0].key {
        assert es[0] == walk[0] && es[j + 1] == Used(walk[1..])[j];
      }
      PreloadKeeps(t1, walk[1..], walk[0].key);
    } else {
      PreloadedHas(t1, walk[1..], i - 1);
    }
  }

  lemma {:induction false} PreloadKeeps(t: Table, walk: seq<Walked>, k: Key)
    requires k in t && forall j | 0 <= j < |Used(walk)| :: Used(walk)[j].key != k
    ensures k in PreloadOnto(t, walk) && PreloadOnto(t, walk)[k] == t[k]
    decreases |walk|
  {
    if walk == [] || walk[0].class_.UniqueClass? {
    } else {
      var es := Used(walk);
      assert es[0] == walk[0];
      assert forall j | 0 <= j < |Used(walk[1..])| :: Used(walk[1..])[j] == es[j + 1];
      PreloadKeeps(t[walk[0].key := walk[0].entry], walk[1..], k);
    }
  }

  lemma {:induction false} PreloadedFrom(t: Table, walk: seq<Walked>, k: Key)
    requires k in PreloadOnto(t, walk) && k !in t
    ensures exists i | 0 <= i < |Used(walk)| :: Used(walk)[i].key == k
    decreases |walk|
  {
    var es, t1 := Used(walk), t[walk[0].key := walk[0].entry];
    assert es[0] == walk[0];
    if walk[0].key == k {
    } else {
      PreloadedFrom(t1, walk[1..], k);
      var i :| 0 <= i < |Used(walk[1..])| && Used(walk[1..])[i].key == k;
      assert es[i + 1] == Used(walk[1..])[i];
    }
  }

  lemma {:induction false} UsedIsPrefix(walk: seq<Walked>)
    ensures Used(walk) <= walk
    decreases |walk|
  {
    if walk == [] || walk[0].class_.UniqueClass? {
    } else {
      UsedIsPrefix(walk[1..]);
    }
  }

  lemma UsedKeys(walk: seq<Walked>)
    requires ValidWalk(walk)
    ensures forall i, j | 0 <= i < j < |Used(walk)| :: Used(walk)[i].key != Used(walk)[j].key
  {
    UsedIsPrefix(walk);
    assert forall i | 0 <= i < |Used(walk)| :: Used(walk)[i] == walk[i];
  }

  lemma {:induction false} InDittoSpace(es: seq<Walked>, u: Unit)
    ensures u in DittoSpace(es) <==> exists i | 0 <= i < |es| :: u in Extents(DittoCopies(es[i].entry))
  {
    hide Extents, DittoCopies;
    if es == [] {
    } else {
      InDittoSpace(es[1..], u);
      if i :| 0 <= i < |es[1..]| && u in Extents(DittoCopies(es[1..][i].entry)) {
        assert es[i + 1] == es[1..][i];
      }
      if i :| 0 <= i < |es| && u in Extents(DittoCopies(es[i].entry)) {
        assert i > 0 ==> es[i] == es[1..][i - 1];
      }
    }
  }

  /** The i-th walked entry's ditto copies are a part of the pool, or there are none. */
  lemma DittoPart(walk: seq<Walked>, bs: seq<Block>, i: nat)
    requires ValidWalk(walk) && i < |Used(walk)|
    ensures var t, x := Preloaded(walk), Used(walk)[i];
            if x.entry.ditto.birth == 0 then DittoCopies(x.entry) == []
            else Present(t, bs, Dittos(x.key)) && Copies(t, Dittos(x.key)) == DittoCopies(x.entry)
  {
    hide ValidWalk;
    UsedKeys(walk);
    PreloadedHas(map[], walk, i);
  }

  lemma PoolDittosFit(space: set<Unit>, walk: seq<Walked>, bs: seq<Block>)
    requires ValidWalk(walk) && MadeUp(space, Preloaded(walk), bs)
    ensures DittosFit(space, Used(walk))
  {
    hide Present, Copies, Preloaded, Extents, Used, ValidWalk, DittoCopies;
    var t, es := Preloaded(walk), Used(walk);
    NoCopies();
    forall i | 0 <= i < |es| ensures Separate(DittoCopies(es[i].entry)) && Extents(DittoCopies(es[i].entry)) <= space {
      DittoPart(walk, bs, i);
    }
    forall i, j | 0 <= i < j < |es| ensures Extents(DittoCopies(es[i].entry)) !! Extents(DittoCopies(es[j].entry)) {
      DittoPart(walk, bs, i);
      DittoPart(walk, bs, j);
      UsedKeys(walk);
      assert Dittos(es[i].key) != Dittos(es[j].key);
    }
  }

  lemma NoCopies()
    ensures Separate([]) && Extents([]) == {}
  {
  }

  // ----- parts and pieces -----

  function PartOf(bs: seq<Block>, x: Piece): Part {
    match x
    case Shared(k, p) => Slotted(k, p)
    case Own(j) => if j < |bs| then Plain(bs[j]) else Slotted(Key(0, 0, 0, 0, 0), Ditto)
  }

  lemma LiveIsPresent(t: Table, bs: seq<Block>, x: Piece)
    requires Live(t, bs, 0, x)
    ensures Present(t, bs, PartOf(bs, x)) && Copies(t, PartOf(bs, x)) == Dvas(t, bs, x)
    ensures !PartOf(bs, x).Dittos?
  {
  }

  lemma PresentIsLive(t: Table, bs: seq<Block>, x: Part)
    requires Present(t, bs, x) && !x.Dittos?
    ensures exists y :: Live(t, bs, 0, y) && Dvas(t, bs, y) == Copies(t, x)
  {
    match x {
      case Slotted(k, p) => assert Live(t, bs, 0, Shared(k, p)) && Dvas(t, bs, Shared(k, p)) == Copies(t, x);
      case Plain(b) =>
        var j :| 0 <= j < |bs| && bs[j] == b;
        assert Live(t, bs, 0, Own(j)) && Dvas(t, bs, Own(j)) == Copies(t, x);
    }
  }

  /** Different pieces are different parts, but for blocks without copies. */
  lemma PiecesApart(space: set<Unit>, t: Table, bs: seq<Block>, x: Piece, y: Piece)
    requires MetOnce(t, bs) && MadeUp(space, t, bs) && Live(t, bs, 0, x) && Live(t, bs, 0, y) && x != y
    ensures Extents(Dvas(t, bs, x)) !! Extents(Dvas(t, bs, y))
  {
    LiveIsPresent(t, bs, x);
    LiveIsPresent(t, bs, y);
    if PartOf(bs, x) == PartOf(bs, y) {
      var i, j := x.j, y.j;
      if i < j {
        TwiceInBag(bs, i, j);
      } else {
        TwiceInBag(bs, j, i);
      }
      assert bs[i] in bs && bs[i].dvas == [];
    }
  }

  lemma PartsArePieces(space: set<Unit>, walk: seq<Walked>, bs: seq<Block>)
    requires ValidWalk(walk) && MetOnce(Preloaded(walk), bs) && MadeUp(space, Preloaded(walk), bs)
    ensures Partition(Preloaded(walk), space - DittoSpace(Used(walk)), bs, 0)
  {
    var t, rest := Preloaded(walk), space - DittoSpace(Used(walk));
    hide Preloaded, Used, ValidWalk;
    forall x | Live(t, bs, 0, x) ensures Separate(Dvas(t, bs, x)) && Extents(Dvas(t, bs, x)) <= rest {
      LiveIsPresent(t, bs, x);
      forall u | u in Extents(Dvas(t, bs, x)) ensures u !in DittoSpace(Used(walk)) {
        NotDitto(space, walk, bs, PartOf(bs, x), u);
      }
    }
    forall x, y | Live(t, bs, 0, x) && Live(t, bs, 0, y) && x != y
      ensures Extents(Dvas(t, bs, x)) !! Extents(Dvas(t, bs, y))
    {
      PiecesApart(space, t, bs, x, y);
    }
    forall u | u in rest ensures Covered(t, bs, 0, u) {
      RestCovered(space, walk, bs, u);
    }
  }

  lemma NotDitto(space: set<Unit>, walk: seq<Walked>, bs: seq<Block>, x: Part, u: Unit)
    requires ValidWalk(walk) && MadeUp(space, Preloaded(walk), bs)
    requires Present(Preloaded(walk), bs, x) && !x.Dittos? && u in Extents(Copies(Preloaded(walk), x))
    ensures u !in DittoSpace(Used(walk))
  {
    hide Preloaded, Used, ValidWalk, Present, Copies, DittoCopies, Extents;
    InDittoSpace(Used(walk), u);
    NoCopies();
    if i :| 0 <= i < |Used(walk)| && u in Extents(DittoCopies(Used(walk)[i].entry)) {
      DittoPart(walk, bs, i);
    }
  }

  lemma RestCovered(space: set<Unit>, walk: seq<Walked>, bs: seq<Block>, u: Unit)
    requires ValidWalk(walk) && MadeUp(space, Preloaded(walk), bs)
    requires u in space && u !in DittoSpace(Used(walk))
    ensures Covered(Preloaded(walk), bs, 0, u)
  {
    var t := Preloaded(walk);
    assert Holds(t, bs, u);
    var x :| Present(t, bs, x) && u in Extents(Copies(t, x));
    if x.Dittos? {
      PreloadedFrom(map[], walk, x.key);
      hide Preloaded, Used, ValidWalk, Extents;
      var i :| 0 <= i < |Used(walk)| && Used(walk)[i].key == x.key;
      DittoPart(walk, bs, i);
      InDittoSpace(Used(walk), u);
      PreloadedEntry(walk, i);
    } else {
      hide Preloaded, Used, ValidWalk, Extents;
      PresentIsLive(t, bs, x);
      var y :| Live(t, bs, 0, y) && Dvas(t, bs, y) == Copies(t, x);
    }
  }

  lemma PreloadedEntry(walk: seq<Walked>, i: nat)
    requires ValidWalk(walk) && i < |Used(walk)|
    ensures var x := Used(walk)[i]; x.key in Preloaded(walk) && Preloaded(walk)[x.key] == x.entry
  {
    UsedKeys(walk);
    PreloadedHas(map[], walk, i);
  }

  /** A pool whose maps, dedup table and blocks say the same is checked without an abort, and gets
      the verdict with nothing left in the maps. */
  lemma {:induction false} MatchingPoolPasses(space: set<Unit>, walk: seq<Walked>, vs: seq<Visit>)
    requires ValidWalk(walk)
    requires PoolMatches(space, Preloaded(walk), Fresh({}, vs))
    ensures Check(space, walk, vs).Some?
    ensures Check(space, walk, vs).value.unclaimed == {}
    ensures NoLeaks(Check(space, walk, vs).value, |space|)
  {
    hide MadeUp, MetOnce, Referenced, Counted, Preloaded, Run, Settled;
    var bs := Fresh({}, vs);
    ReferencedIs(Preloaded(walk), bs);
    PoolDittosFit(space, walk, bs);
    PreloadTakes(Start(space), walk);
    var s := Init(Start(space), walk).value;
    InitBalance(Start(space), walk, |space|);
    TableIs(space, walk);
    PartsArePieces(space, walk, bs);
    MatchingRun(s, bs, 0);
    RunCountsFresh(s, vs, {});
    assert s.(zil := {}) == s;
    CountedSizes(s.table, bs);
    VerdictExact(space, walk, vs);
  }

  lemma TableIs(space: set<Unit>, walk: seq<Walked>)
    requires Init(Start(space), walk).Some?
    ensures Init(Start(space), walk).value.table == Preloaded(walk)
    ensures Init(Start(space), walk).value.zil == {}
  {
    InitTable(Start(space), walk);
  }

  lemma CountedSizes(t: Table, bs: seq<Block>)
    requires Counted(t, bs, 0)
    ensures forall b | b in bs :: SameSize(t, b)
  {
    forall b | b in bs ensures SameSize(t, b) {
      var j :| 0 <= j < |bs| && bs[j] == b;
      assert Faithful(t, bs[j]);
    }
  }

  // ----- any order of blocks -----

  lemma {:induction false} ReferencesJoin(t: Table, a: seq<Block>, b: seq<Block>, k: Key, p: Slot)
    ensures References(t, a + b, k, p) == References(t, a, k, p) + References(t, b, k, p)
    decreases |b|
  {
    hide IsReference;
    if b == [] {
      assert a + b == a;
    } else {
      assert (a + b)[..|a + b| - 1] == a + b[..|b| - 1];
      ReferencesJoin(t, a, b[..|b| - 1], k, p);
    }
  }

  lemma ReferenceIs(t: Table, b: Block, k: Key, p: Slot)
    ensures IsReference(t, b, k, p) <==> RefersTo(t, b, k, p)
    ensures Shares(t, b) <==> Resolve(t, b).Some?
    ensures k in t ==> Slots(t[k])[Index(p)] == At(t[k], p)
  {
    hide Select, FirstMatch, Slots, At, OneOf;
    if k in t {
      SelectExact(t[k], b);
    }
  }

  lemma {:induction false} RefsAreReferences(t: Table, bs: seq<Block>, i: nat, k: Key, p: Slot)
    requires i <= |bs|
    ensures Refs(t, bs, i, k, p) == References(t, bs[i..], k, p)
    decreases |bs| - i
  {
    hide IsReference, RefersTo;
    if i == |bs| {
    } else {
      RefsAreReferences(t, bs, i + 1, k, p);
      ReferenceIs(t, bs[i], k, p);
      assert bs[i..] == [bs[i]] + bs[i + 1..];
      ReferencesJoin(t, [bs[i]], bs[i + 1..], k, p);
      assert [bs[i]][..0] == [];
    }
  }

  lemma PlacedIs(t: Table, b: Block)
    ensures Placed(t, b) <==> Resolve(t, b) != Some(None) && Faithful(t, b)
  {
    hide IsReference, Select, Slots;
    forall p ensures IsReference(t, b, b.key, p) <==> RefersTo(t, b, b.key, p)
             ensures Shares(t, b) <==> Resolve(t, b).Some?
             ensures b.key in t ==> Slots(t[b.key])[Index(p)] == At(t[b.key], p)
    {
      ReferenceIs(t, b, b.key, p);
    }
    match Resolve(t, b) {
      case Some(Some(p)) => assert RefersTo(t, b, b.key, p) && IsReference(t, b, b.key, p);
      case Some(None) => assert IsReference(t, b, b.key, Ditto) <==> RefersTo(t, b, b.key, Ditto);
      case None => assert IsReference(t, b, b.key, Ditto) <==> RefersTo(t, b, b.key, Ditto);
    }
  }

  /** Counting references by what they carry is counting what the code resolves. */
  lemma ReferencedIs(t: Table, bs: seq<Block>)
    ensures Referenced(t, bs) <==> Counted(t, bs, 0)
  {
    hide Refs, References, Faithful, Placed, Resolve, Slots, At;
    assert bs[0..] == bs;
    forall k, p | k in t
      ensures Refs(t, bs, 0, k, p) == References(t, bs, k, p) && Slots(t[k])[Index(p)] == At(t[k], p)
    {
      RefsAreReferences(t, bs, 0, k, p);
      SelectExact(t[k], Block(k, [], 0, true, 0));
    }
    forall j | 0 <= j < |bs| ensures Placed(t, bs[j]) <==> Resolve(t, bs[j]) != Some(None) && Faithful(t, bs[j]) {
      PlacedIs(t, bs[j]);
    }
  }

  lemma {:induction false} ReferencesAnyOrder(t: Table, a: seq<Block>, b: seq<Block>, k: Key, p: Slot)
    requires multiset(a) == multiset(b)
    ensures References(t, a, k, p) == References(t, b, k, p)
    decreases |a|
  {
    hide References, IsReference;
    if a == [] {
      SameEmpty(b);
    } else {
      var i := Partner(a, b);
      ReferencesAnyOrder(t, a[1..], Except(b, i), k, p);
      assert a == [a[0]] + a[1..] && b == b[..i] + ([b[i]] + b[i + 1..]);
      ReferencesJoin(t, [a[0]], a[1..], k, p);
      ReferencesJoin(t, b[..i], [b[i]] + b[i + 1..], k, p);
      ReferencesJoin(t, [b[i]], b[i + 1..], k, p);
      ReferencesJoin(t, b[..i], b[i + 1..], k, p);
    }
  }

  lemma ReferencedAnyOrder(t: Table, a: seq<Block>, b: seq<Block>)
    requires multiset(a) == multiset(b) && Referenced(t, a)
    ensures Referenced(t, b)
  {
    hide Placed, References, Slots;
    forall k, p | k in t ensures Slots(t[k])[Index(p)].refcnt == References(t, b, k, p) {
      ReferencesAnyOrder(t, a, b, k, p);
    }
    forall x | x in b ensures Placed(t, x) {
      assert x in multiset(a);
    }
  }

  lemma PresentAnyOrder(t: Table, a: seq<Block>, b: seq<Block>, x: Part)
    requires multiset(a) == multiset(b)
    ensures Present(t, a, x) <==> Present(t, b, x)
  {
    if x.Plain? {
      assert x.block in a <==> x.block in multiset(a);
      assert x.block in b <==> x.block in multiset(b);
    }
  }

  lemma MadeUpAnyOrder(space: set<Unit>, t: Table, a: seq<Block>, b: seq<Block>)
    requires multiset(a) == multiset(b) && MadeUp(space, t, a)
    ensures MadeUp(space, t, b)
  {
    hide Present, Extents, Separate;
    forall x ensures Present(t, a, x) <==> Present(t, b, x) {
      PresentAnyOrder(t, a, b, x);
    }
    forall u | u in space ensures Holds(t, b, u) {
      assert Holds(t, a, u);
      var x :| Present(t, a, x) && u in Extents(Copies(t, x));
      assert Present(t, b, x);
    }
  }

  /** Whether a pool matches does not depend on the order of its blocks. */
  lemma PoolMatchesAnyOrder(space: set<Unit>, t: Table, a: seq<Block>, b: seq<Block>)
    requires multiset(a) == multiset(b) && PoolMatches(space, t, a)
    ensures PoolMatches(space, t, b)
  {
    hide Referenced, MadeUp;
    ReferencedAnyOrder(t, a, b);
    MadeUpAnyOrder(space, t, a, b);
    forall x | x in b && !Shares(t, x) && x.dvas != [] ensures multiset(b)[x] == 1 {
      assert x in multiset(b);
    }
  }

  // ----- any order of visits -----

  /** Within one intent log, a first copy identifies a block. */
  ghost predicate LogsAgree(vs: seq<Visit>) {
    forall v, w | v in vs && w in vs :: SameLogBlock(v, w) ==> v.block == w.block
  }

  predicate SameLogBlock(v: Visit, w: Visit) {
    v.zilog.Some? && v.zilog == w.zilog && Identity(v.block.dvas) == Identity(w.block.dvas)
  }

  function Bag(met: Met, vs: seq<Visit>): multiset<Block> { multiset(Fresh(met, vs)) }

  lemma BagCons(met: Met, v: Visit, vs: seq<Visit>)
    ensures Bag(met, [v] + vs) ==
            if AlreadyMet(met, v) then Bag(met, vs) else multiset{v.block} + Bag(Meet(met, v), vs)
  {
    assert ([v] + vs)[1..] == vs;
  }

  lemma MeetSwap(met: Met, v: Visit, w: Visit)
    ensures Meet(Meet(met, v), w) == Meet(Meet(met, w), v)
  {
  }

  lemma BagSwap(met: Met, v: Visit, w: Visit, vs: seq<Visit>)
    requires SameLogBlock(v, w) ==> v.block == w.block
    ensures Bag(met, [v] + ([w] + vs)) == Bag(met, [w] + ([v] + vs))
  {
    hide Bag;
    BagCons(met, v, [w] + vs);
    BagCons(met, w, [v] + vs);
    BagCons(met, w, vs);
    BagCons(met, v, vs);
    BagCons(Meet(met, v), w, vs);
    BagCons(Meet(met, w), v, vs);
    MeetSwap(met, v, w);
  }

  lemma {:induction false} BagToFront(met: Met, a: seq<Visit>, v: Visit, b: seq<Visit>)
    requires forall w | w in a :: SameLogBlock(w, v) ==> w.block == v.block
    ensures Bag(met, a + ([v] + b)) == Bag(met, [v] + (a + b))
    decreases |a|
  {
    hide Bag;
    if a == [] {
      assert a + ([v] + b) == [v] + (a + b);
    } else {
      var w, rest := a[0], a[1..];
      assert a + ([v] + b) == [w] + (rest + ([v] + b));
      assert [v] + (a + b) == [v] + ([w] + (rest + b));
      BagCons(met, w, rest + ([v] + b));
      BagCons(met, w, [v] + (rest + b));
      BagToFront(met, rest, v, b);
      BagToFront(Meet(met, w), rest, v, b);
      BagSwap(met, w, v, rest + b);
    }
  }

  lemma LogsAgreeExcept(vs: seq<Visit>, i: nat)
    requires i < |vs| && LogsAgree(vs)
    ensures LogsAgree(Except(vs, i))
    ensures forall w | w in vs[..i] :: SameLogBlock(w, vs[i]) ==> w.block == vs[i].block
  {
    forall w | w in Except(vs, i) || w in vs[..i] ensures w in vs {
    }
  }

  lemma {:induction false} BagAnyOrder(met: Met, a: seq<Visit>, b: seq<Visit>)
    requires multiset(a) == multiset(b) && LogsAgree(b)
    ensures Bag(met, a) == Bag(met, b)
    decreases |a|
  {
    hide Bag, LogsAgree, SameLogBlock;
    if a == [] {
      SameEmpty(b);
    } else {
      var i := Partner(a, b);
      var v, l, r := a[0], b[..i], b[i + 1..];
      assert a == [v] + a[1..] && b == l + ([v] + r);
      LogsAgreeExcept(b, i);
      BagToFront(met, l, v, r);
      BagCons(met, v, a[1..]);
      BagCons(met, v, l + r);
      BagAnyOrder(met, a[1..], l + r);
      BagAnyOrder(Meet(met, v), a[1..], l + r);
    }
  }

  /** A pool that matches as visited in one order passes when visited in any other. */
  lemma AnyOrderPasses(space: set<Unit>, walk: seq<Walked>, vs: seq<Visit>, vs': seq<Visit>)
    requires ValidWalk(walk)
    requires PoolMatches(space, Preloaded(walk), Fresh({}, vs))
    requires multiset(vs) == multiset(vs') && LogsAgree(vs')
    ensures Check(space, walk, vs').Some?
    ensures Check(space, walk, vs').value.unclaimed == {}
    ensures NoLeaks(Check(space, walk, vs').value, |space|)
  {
    hide Check, PoolMatches, Preloaded, Fresh;
    BagAnyOrder({}, vs, vs');
    PoolMatchesAnyOrder(space, Preloaded(walk), Fresh({}, vs), Fresh({}, vs'));
    MatchingPoolPasses(space, walk, vs');
  }
}

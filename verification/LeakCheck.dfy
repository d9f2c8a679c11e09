/** What zdb's leak check computes, as functions on values: counting a block against the
    unclaimed space and the preloaded dedup table, and what the final byte sum says about the
    pool (cmd/zdb/zdb.c). */
module LeakCheck {
  import Arith
  import opened Base
  import opened PoolSpace

  /** ddt_key_t, together with the checksum that selects the table. */
  datatype Key = Key(checksum: nat, digest: nat, lsize: nat, psize: nat, compress: nat)

  /** ddt_phys_t; birth 0 is an unused slot. */
  datatype Phys = Phys(dvas: seq<Dva>, birth: nat, refcnt: nat)

  /** A dedup table entry: the ditto copies and the single, double and triple blocks. */
  datatype Entry = Entry(ditto: Phys, single: Phys, double: Phys, triple: Phys)

  datatype Slot = Ditto | Single | Double | Triple

  /** blkptr_t; ddt_key_fill makes the key from the checksum and the sizes the pointer carries. */
  datatype Block = Block(key: Key, dvas: seq<Dva>, birth: nat, dedup: bool, level: nat)

  type Table = map<Key, Entry>

  function At(e: Entry, p: Slot): Phys {
    match p case Ditto => e.ditto case Single => e.single case Double => e.double case Triple => e.triple
  }

  function Put(e: Entry, p: Slot, ph: Phys): Entry {
    match p
    case Ditto => e.(ditto := ph)
    case Single => e.(single := ph)
    case Double => e.(double := ph)
    case Triple => e.(triple := ph)
  }

  /** BP_IDENTITY. */
  function Identity(dvas: seq<Dva>): Option<Dva> {
    if dvas == [] then None else Some(dvas[0])
  }

  /** ddt_phys_select looks at the first copy and the birth time only. */
  predicate Hits(ph: Phys, b: Block) {
    Identity(ph.dvas) == Identity(b.dvas) && ph.birth == b.birth
  }

  function Select(e: Entry, b: Block): Option<Slot> {
    if Hits(e.ditto, b) then Some(Ditto)
    else if Hits(e.single, b) then Some(Single)
    else if Hits(e.double, b) then Some(Double)
    else if Hits(e.triple, b) then Some(Triple)
    else None
  }

  /** The slots in the order of dde_phys. */
  function Slots(e: Entry): (slots: seq<Phys>)
    ensures |slots| == 4
  {
    [e.ditto, e.single, e.double, e.triple]
  }

  function Index(p: Slot): (i: nat)
    ensures i < 4
  {
    match p case Ditto => 0 case Single => 1 case Double => 2 case Triple => 3
  }

  /** A block is one of a slot's: their first copies and their births are the same. */
  predicate OneOf(ph: Phys, b: Block) {
    && ph.birth == b.birth && (ph.dvas == [] <==> b.dvas == [])
    && (b.dvas != [] ==> ph.dvas[0] == b.dvas[0])
  }

  /** The block is one of the slot's, and of no slot before it. */
  predicate FirstMatch(e: Entry, b: Block, p: Slot) {
    OneOf(Slots(e)[Index(p)], b) && forall i | 0 <= i < Index(p) :: !OneOf(Slots(e)[i], b)
  }

  /** What is selected is the first slot that the block is one of, if there is any. */
  lemma SelectExact(e: Entry, b: Block)
    ensures forall p :: Select(e, b) == Some(p) <==> FirstMatch(e, b, p)
    ensures Select(e, b).None? <==> forall i | 0 <= i < 4 :: !OneOf(Slots(e)[i], b)
    ensures forall p :: At(e, p) == Slots(e)[Index(p)]
  {
    assert Slots(e)[0] == e.ditto && Slots(e)[1] == e.single && Slots(e)[2] == e.double && Slots(e)[3] == e.triple;
  }

  /** ddt_phys_total_refcnt. */
  function TotalRefs(e: Entry): nat {
    e.single.refcnt + e.double.refcnt + e.triple.refcnt
  }

  // ----- counting one block -----

  datatype State = State(
    unclaimed: set<Unit>,                  // what the loaded space maps still hold
    table: Table,                          // the preloaded dedup entries
    asize: int,                            // zcb_type[ZB_TOTAL][ZDB_OT_TOTAL].zb_asize
    dedup: int,                            // zcb_dedup_asize
    zil: Met)                              // per intent log, the blocks already met

  /** The slot whose reference the block drops, if its entry is preloaded. */
  function Resolve(t: Table, b: Block): Option<Option<Slot>> {
    if b.dedup && b.key in t then Some(Select(t[b.key], b)) else None
  }

  function Decref(t: Table, k: Key, p: Slot): Table
    requires k in t && At(t[k], p).refcnt > 0
  {
    var ph := At(t[k], p);
    var e := Put(t[k], p, ph.(refcnt := ph.refcnt - 1));
    if TotalRefs(e) == 0 then t - {k} else t[k := e]
  }

  /** zdb_count_block past the intent-log check; None is an abort: a failed VERIFY on the claim,
      a block its entry does not know, or a reference beyond the recorded count. */
  ghost function Count(s: State, b: Block): Option<State> {
    var s1 := s.(asize := s.asize + ASize(b.dvas));
    match Resolve(s.table, b)
    case None => Claimed(s1, b.dvas, false)
    case Some(None) => None
    case Some(Some(p)) =>
      var refcnt := At(s.table[b.key], p).refcnt;
      if refcnt == 0 then None
      else Claimed(s1.(table := Decref(s.table, b.key, p)), b.dvas, refcnt > 1)
  }

  ghost function Claimed(s: State, dvas: seq<Dva>, look: bool): Option<State> {
    match Claim(s.unclaimed, dvas, look)
    case None => None
    case Some(space) => Some(s.(unclaimed := space))
  }

  // ----- what is still owed by the dedup table -----

  /** References beyond the one that will take the space. */
  function Excess(ph: Phys): nat {
    if ph.refcnt == 0 then 0 else (ph.refcnt - 1) * ASize(ph.dvas)
  }

  function EntryExcess(e: Entry): nat {
    Excess(e.single) + Excess(e.double) + Excess(e.triple)
  }

  ghost function TableExcess(t: Table): nat
    decreases |t|
  {
    if t == map[] then 0
    else
      var k :| k in t;
      assert (t - {k}).Keys == t.Keys - {k};
      EntryExcess(t[k]) + TableExcess(t - {k})
  }

  lemma {:induction false} ExcessWithout(t: Table, k: Key)
    requires k in t
    ensures TableExcess(t) == EntryExcess(t[k]) + TableExcess(t - {k})
    decreases |t|
  {
    var j :| j in t && TableExcess(t) == EntryExcess(t[j]) + TableExcess(t - {j});
    if j == k {
    } else {
      assert (t - {j}).Keys == t.Keys - {j};
      assert (t - {k}).Keys == t.Keys - {k};
      ExcessWithout(t - {j}, k);
      ExcessWithout(t - {k}, j);
      assert t - {j} - {k} == t - {k} - {j};
    }
  }

  lemma ExcessUpdate(t: Table, k: Key, e: Entry)
    ensures TableExcess(t[k := e]) == EntryExcess(e) + TableExcess(t - {k})
  {
    ExcessWithout(t[k := e], k);
    assert t[k := e] - {k} == t - {k};
  }

  lemma ExcessDrop(ph: Phys)
    requires ph.refcnt > 0
    ensures Excess(ph) == Excess(ph.(refcnt := ph.refcnt - 1)) + (if ph.refcnt > 1 then ASize(ph.dvas) else 0)
  {
    if ph.refcnt > 1 {
      Arith.Distribute(ph.refcnt - 2, 1, ASize(ph.dvas));
    }
  }

  /** Dropping one of m references lowers what is owed by one block, unless it was the last. */
  lemma DecrefExcess(t: Table, k: Key, p: Slot)
    requires k in t && !p.Ditto? && At(t[k], p).refcnt > 0
    ensures TableExcess(t) ==
            TableExcess(Decref(t, k, p)) + (if At(t[k], p).refcnt > 1 then ASize(At(t[k], p).dvas) else 0)
  {
    var ph := At(t[k], p);
    var e := Put(t[k], p, ph.(refcnt := ph.refcnt - 1));
    ExcessWithout(t, k);
    ExcessUpdate(t, k, e);
    ExcessDrop(ph);
  }

  // ----- the whole run -----

  /** What the kernel keeps true of a table entry: a slot is in use exactly while it has
      references, its copies are real, and ditto copies are never counted. */
  ghost predicate ValidPhys(ph: Phys) {
    && (ph.birth == 0 ==> ph.refcnt == 0)
    && (ph.refcnt > 0 ==> ph.dvas != [] && Separate(ph.dvas))
  }

  ghost predicate ValidEntry(e: Entry) {
    e.ditto.refcnt == 0 && ValidPhys(e.single) && ValidPhys(e.double) && ValidPhys(e.triple)
  }

  ghost predicate ValidTable(t: Table) {
    forall k | k in t :: ValidEntry(t[k])
  }

  /** A freshly walked entry: a used slot also has its references still to come. */
  ghost predicate FreshPhys(ph: Phys) {
    ValidPhys(ph) && (ph.birth != 0 ==> ph.refcnt > 0)
  }

  ghost predicate FreshEntry(e: Entry) {
    e.ditto.refcnt == 0 && FreshPhys(e.single) && FreshPhys(e.double) && FreshPhys(e.triple)
  }

  datatype Class = DittoClass | DuplicateClass | UniqueClass

  datatype Walked = Walked(class_: Class, key: Key, entry: Entry)

  function Saved(ph: Phys): int {
    if ph.birth == 0 then 0 else (ph.refcnt as int - 1) * ASize(ph.dvas)
  }

  /** One turn of the loop in zdb_ddt_leak_init. */
  ghost function InitEntry(s: State, k: Key, e: Entry): Option<State> {
    var s1 := if e.ditto.birth == 0 then Some(s)
              else Claimed(s.(asize := s.asize + ASize(e.ditto.dvas)), e.ditto.dvas, false);
    match s1
    case None => None
    case Some(s2) =>
      Some(s2.(dedup := s2.dedup + Saved(e.single) + Saved(e.double) + Saved(e.triple), table := s2.table[k := e]))
  }

  /** The walk goes class by class and stops at the first unique entry. */
  ghost function Init(s: State, walk: seq<Walked>): Option<State>
    decreases |walk|
  {
    if walk == [] || walk[0].class_.UniqueClass? then Some(s)
    else match InitEntry(s, walk[0].key, walk[0].entry)
      case None => None
      case Some(s') => Init(s', walk[1..])
  }

  /** What the walk leaves in the table. */
  function PreloadOnto(t: Table, walk: seq<Walked>): Table
    decreases |walk|
  {
    if walk == [] || walk[0].class_.UniqueClass? then t
    else PreloadOnto(t[walk[0].key := walk[0].entry], walk[1..])
  }

  function Preloaded(walk: seq<Walked>): Table { PreloadOnto(map[], walk) }

  lemma {:induction false} InitTable(s: State, walk: seq<Walked>)
    requires Init(s, walk).Some?
    ensures Init(s, walk).value.table == PreloadOnto(s.table, walk)
    ensures Init(s, walk).value.zil == s.zil
    decreases |walk|
  {
    if walk == [] || walk[0].class_.UniqueClass? {
    } else {
      InitTable(InitEntry(s, walk[0].key, walk[0].entry).value, walk[1..]);
    }
  }

  datatype Visit = Visit(zilog: Option<nat>, block: Block)

  /** The blocks each intent log has met: zil_bp_tree_add. */
  type Met = set<(nat, Option<Dva>)>

  predicate AlreadyMet(met: Met, v: Visit) {
    v.zilog.Some? && (v.zilog.value, Identity(v.block.dvas)) in met
  }

  function Meet(met: Met, v: Visit): Met {
    if v.zilog.Some? then met + {(v.zilog.value, Identity(v.block.dvas))} else met
  }

  predicate Skipped(s: State, v: Visit) {
    AlreadyMet(s.zil, v)
  }

  function Noted(s: State, v: Visit): State {
    s.(zil := Meet(s.zil, v))
  }

  /** zdb_count_block: an intent-log block already met is not counted again. */
  ghost function CountVisit(s: State, v: Visit): Option<State> {
    if Skipped(s, v) then Some(s) else Count(Noted(s, v), v.block)
  }

  ghost function Run(s: State, vs: seq<Visit>): Option<State>
    decreases |vs|
  {
    if vs == [] then Some(s)
    else match CountVisit(s, vs[0])
      case None => None
      case Some(s') => Run(s', vs[1..])
  }

  /** How far the byte sum is from what the maps and the table say it should be. */
  ghost function Balance(s: State, alloc: nat): int {
    s.asize - s.dedup - (alloc - |s.unclaimed|) + TableExcess(s.table)
  }

  lemma SavedIsExcess(ph: Phys)
    requires FreshPhys(ph)
    ensures Saved(ph) == Excess(ph)
  {
  }

  lemma ClaimedBalance(s: State, dvas: seq<Dva>, alloc: nat)
    requires Claimed(s, dvas, false).Some?
    ensures Balance(Claimed(s, dvas, false).value, alloc) == Balance(s, alloc) - ASize(dvas)
    ensures Claimed(s, dvas, false).value.table == s.table
  {
    ClaimExact(s.unclaimed, dvas);
  }

  lemma InitEntryBalance(s: State, k: Key, e: Entry, alloc: nat)
    requires FreshEntry(e)
    requires k !in s.table
    requires InitEntry(s, k, e).Some?
    ensures Balance(InitEntry(s, k, e).value, alloc) == Balance(s, alloc)
  {
    if e.ditto.birth != 0 {
      ClaimedBalance(s.(asize := s.asize + ASize(e.ditto.dvas)), e.ditto.dvas, alloc);
    }
    SavedIsExcess(e.single);
    SavedIsExcess(e.double);
    SavedIsExcess(e.triple);
    ExcessUpdate(s.table, k, e);
    assert s.table - {k} == s.table;
  }

  /** Entries the walk may yield: each key once, each entry fresh. */
  ghost predicate ValidWalk(walk: seq<Walked>) {
    && (forall i | 0 <= i < |walk| :: FreshEntry(walk[i].entry))
    && (forall i, j | 0 <= i < j < |walk| :: walk[i].key != walk[j].key)
  }

  lemma {:induction false} InitBalance(s: State, walk: seq<Walked>, alloc: nat)
    requires ValidWalk(walk)
    requires forall i | 0 <= i < |walk| :: walk[i].key !in s.table
    requires ValidTable(s.table)
    requires Init(s, walk).Some?
    ensures Balance(Init(s, walk).value, alloc) == Balance(s, alloc)
    ensures ValidTable(Init(s, walk).value.table)
    decreases |walk|
  {
    if walk == [] || walk[0].class_.UniqueClass? {
    } else {
      InitEntryBalance(s, walk[0].key, walk[0].entry, alloc);
      InitBalance(InitEntry(s, walk[0].key, walk[0].entry).value, walk[1..], alloc);
    }
  }

  /** Bytes by which a shared block differs from the slot it resolves to. */
  ghost function Mismatch(s: State, b: Block): int {
    match Resolve(s.table, b)
    case Some(Some(p)) =>
      var ph := At(s.table[b.key], p);
      if ph.refcnt > 1 then ASize(b.dvas) - ASize(ph.dvas) else 0
    case _ => 0
  }

  lemma CountBalance(s: State, b: Block, alloc: nat)
    requires ValidTable(s.table)
    requires Count(s, b).Some?
    ensures Balance(Count(s, b).value, alloc) == Balance(s, alloc) + Mismatch(s, b)
    ensures ValidTable(Count(s, b).value.table)
  {
    ClaimExact(s.unclaimed, b.dvas);
    match Resolve(s.table, b) {
      case Some(Some(p)) => DecrefExcess(s.table, b.key, p);
      case _ =>
    }
  }

  // ----- a run, by the blocks it counts -----

  ghost function RunBlocks(s: State, bs: seq<Block>, i: nat): Option<State>
    requires i <= |bs|
    decreases |bs| - i
  {
    if i == |bs| then Some(s)
    else match Count(s, bs[i])
      case None => None
      case Some(s') => RunBlocks(s', bs, i + 1)
  }

  /** The blocks a sequence of visits really counts. */
  function Fresh(met: Met, vs: seq<Visit>): seq<Block>
    decreases |vs|
  {
    if vs == [] then []
    else if AlreadyMet(met, vs[0]) then Fresh(met, vs[1..])
    else [vs[0].block] + Fresh(Meet(met, vs[0]), vs[1..])
  }

  lemma {:induction false} RunShift(s: State, b: Block, bs: seq<Block>, i: nat)
    requires i <= |bs|
    ensures RunBlocks(s, [b] + bs, i + 1) == RunBlocks(s, bs, i)
    decreases |bs| - i
  {
    if i == |bs| || Count(s, bs[i]).None? {
    } else {
      RunShift(Count(s, bs[i]).value, b, bs, i + 1);
    }
  }

  lemma {:induction false} RunCountsFresh(s: State, vs: seq<Visit>, z: Met)
    ensures var r := RunBlocks(s.(zil := z), Fresh(s.zil, vs), 0);
            && Run(s, vs).Some? == r.Some?
            && (r.Some? ==> Run(s, vs).value == r.value.(zil := Run(s, vs).value.zil))
    decreases |vs|
  {
    if vs == [] {
    } else {
      var bs := Fresh(s.zil, vs);
      if Skipped(s, vs[0]) {
        RunCountsFresh(s, vs[1..], z);
      } else {
        var n := Noted(s, vs[0]);
        CountIgnoresZil(n, vs[0].block, z);
        if Count(n, vs[0].block).Some? {
          var s' := Count(n, vs[0].block).value;
          RunCountsFresh(s', vs[1..], z);
          RunShift(s'.(zil := z), vs[0].block, Fresh(s'.zil, vs[1..]), 0);
          assert s'.zil == n.zil;
        }
      }
    }
  }

  lemma CountIgnoresZil(s: State, b: Block, z: Met)
    ensures Count(s.(zil := z), b).Some? == Count(s, b).Some?
    ensures Count(s, b).Some? ==> Count(s.(zil := z), b).value == Count(s, b).value.(zil := z)
    ensures Count(s, b).Some? ==> Count(s, b).value.zil == s.zil
  {
  }

  /** Two visits of one place of an intent log. */
  predicate SamePlace(v: Visit, w: Visit) {
    v.zilog.Some? && v.zilog == w.zilog && (v.block.dvas == [] <==> w.block.dvas == [])
    && (v.block.dvas != [] ==> v.block.dvas[0] == w.block.dvas[0])
  }

  /** The blocks visited, without those of an intent log that were visited before. */
  ghost function FirstVisits(vs: seq<Visit>): seq<Block> {
    if vs == [] then []
    else
      var init, v := vs[..|vs| - 1], vs[|vs| - 1];
      FirstVisits(init) + if exists w | w in init :: SamePlace(v, w) then [] else [v.block]
  }

  function MeetAll(met: Met, vs: seq<Visit>): Met
    decreases |vs|
  {
    if vs == [] then met else MeetAll(Meet(met, vs[0]), vs[1..])
  }

  lemma {:induction false} MetBefore(met: Met, vs: seq<Visit>, v: Visit)
    ensures AlreadyMet(MeetAll(met, vs), v) <==> AlreadyMet(met, v) || exists w | w in vs :: SamePlace(v, w)
    decreases |vs|
  {
    if vs == [] {
    } else {
      MetBefore(Meet(met, vs[0]), vs[1..], v);
      assert AlreadyMet(Meet(met, vs[0]), v) <==> AlreadyMet(met, v) || SamePlace(v, vs[0]);
      assert forall w :: w in vs <==> w == vs[0] || w in vs[1..];
    }
  }

  lemma {:induction false} FreshLast(met: Met, vs: seq<Visit>, v: Visit)
    ensures Fresh(met, vs + [v]) == Fresh(met, vs) + if AlreadyMet(MeetAll(met, vs), v) then [] else [v.block]
    decreases |vs|
  {
    if vs == [] {
      assert vs + [v] == [v] && [v][1..] == [];
    } else {
      assert (vs + [v])[1..] == vs[1..] + [v];
      FreshLast(Meet(met, vs[0]), vs[1..], v);
      assert AlreadyMet(met, vs[0]) ==> Meet(met, vs[0]) == met;
    }
  }

  /** What is counted are the first visits. */
  lemma {:induction false} FreshExact(vs: seq<Visit>)
    ensures Fresh({}, vs) == FirstVisits(vs)
    decreases |vs|
  {
    if vs == [] {
    } else {
      hide Fresh;
      var init, v := vs[..|vs| - 1], vs[|vs| - 1];
      assert vs == init + [v];
      FreshExact(init);
      FreshLast({}, init, v);
      MetBefore({}, init, v);
    }
  }

  // ----- counting one block, slot by slot -----

  /** The entry with one reference less in a slot. */
  function OneLess(e: Entry, p: Slot): Entry
    requires Slots(e)[Index(p)].refcnt > 0
  {
    match p
    case Ditto => e.(ditto := e.ditto.(refcnt := e.ditto.refcnt - 1))
    case Single => e.(single := e.single.(refcnt := e.single.refcnt - 1))
    case Double => e.(double := e.double.(refcnt := e.double.refcnt - 1))
    case Triple => e.(triple := e.triple.(refcnt := e.triple.refcnt - 1))
  }

  /** A block with no entry is counted exactly when its copies can be taken. */
  lemma CountUnshared(s: State, b: Block)
    requires !(b.dedup && b.key in s.table)
    ensures Count(s, b) ==
            if Separate(b.dvas) && Extents(b.dvas) <= s.unclaimed
            then Some(s.(asize := s.asize + ASize(b.dvas), unclaimed := s.unclaimed - Extents(b.dvas)))
            else None
  {
    hide Claim, Separate, Extents;
    ClaimExact(s.unclaimed, b.dvas);
  }

  /** One with an entry exactly when it is one of a slot's with a reference left, and its copies are there
      to be looked at or, with the last reference, can be taken. */
  lemma CountShared(s: State, b: Block, p: Slot)
    requires b.dedup && b.key in s.table && FirstMatch(s.table[b.key], b, p)
    ensures var e := s.table[b.key];
            var n := Slots(e)[Index(p)].refcnt;
            Count(s, b) ==
            if n == 0 || !(forall d | d in b.dvas :: d.asize > 0 && Extent(d) <= s.unclaimed) then None
            else if n == 1 && !(Separate(b.dvas) && Extents(b.dvas) <= s.unclaimed) then None
            else
              var e' := OneLess(e, p);
              Some(s.(asize := s.asize + ASize(b.dvas),
                      table := if e'.single.refcnt + e'.double.refcnt + e'.triple.refcnt == 0
                               then s.table - {b.key} else s.table[b.key := e'],
                      unclaimed := if n > 1 then s.unclaimed else s.unclaimed - Extents(b.dvas)))
  {
    SelectExact(s.table[b.key], b);
    ClaimExact(s.unclaimed, b.dvas);
    hide Select, FirstMatch, Separate, Extents, ClaimEach;
    DryRunIs(s.unclaimed, b.dvas);
    hide DryRun;
  }

  lemma DryRunIs(space: set<Unit>, dvas: seq<Dva>)
    ensures DryRun(space, dvas) <==> forall d | d in dvas :: d.asize > 0 && Extent(d) <= space
  {
  }

  /** And one whose entry has no slot for it is not counted. */
  lemma CountUnknown(s: State, b: Block)
    requires b.dedup && b.key in s.table && forall i | 0 <= i < 4 :: !OneOf(Slots(s.table[b.key])[i], b)
    ensures Count(s, b).None?
  {
    SelectExact(s.table[b.key], b);
  }

  // ----- what the shared blocks' sizes come to -----

  predicate RefersTo(t: Table, b: Block, k: Key, p: Slot) {
    b.key == k && Resolve(t, b) == Some(Some(p))
  }

  /** How many of the first i blocks refer to a slot. */
  function Rank(t: Table, bs: seq<Block>, i: nat, k: Key, p: Slot): nat
    requires i <= |bs|
  {
    if i == 0 then 0 else Rank(t, bs, i - 1, k, p) + (if RefersTo(t, bs[i - 1], k, p) then 1 else 0)
  }

  /** Bytes by which a block differs from the slot it refers to, unless it comes last or too late. */
  function Gap(t: Table, bs: seq<Block>, i: nat): int
    requires i < |bs|
  {
    match Resolve(t, bs[i])
    case Some(Some(p)) =>
      var ph := At(t[bs[i].key], p);
      if ph.refcnt > Rank(t, bs, i, bs[i].key, p) + 1 then ASize(bs[i].dvas) - ASize(ph.dvas) else 0
    case _ => 0
  }

  /** The gaps of the blocks from position i on, from the preloaded table and the blocks alone. */
  function Gaps(t: Table, bs: seq<Block>, i: nat): int
    requires i <= |bs|
    decreases |bs| - i
  {
    if i == |bs| then 0 else Gap(t, bs, i) + Gaps(t, bs, i + 1)
  }

  /** The slot as it stands once r references were dropped. */
  predicate Dropped(now: Phys, was: Phys, r: nat) {
    was.refcnt >= r && now == was.(refcnt := was.refcnt - r)
  }

  /** The table after the first i blocks: what is left in it has lost the references met, and what
      is gone has lost them all. */
  ghost predicate Tracks(t0: Table, t: Table, bs: seq<Block>, i: nat)
    requires i <= |bs|
  {
    && (forall k | k in t :: k in t0 && forall p :: Dropped(At(t[k], p), At(t0[k], p), Rank(t0, bs, i, k, p)))
    && (forall k, p | k in t0 && k !in t :: At(t0[k], p).refcnt <= Rank(t0, bs, i, k, p))
  }

  lemma SelectAlike(e: Entry, e0: Entry, b: Block)
    requires forall p :: At(e, p).dvas == At(e0, p).dvas && At(e, p).birth == At(e0, p).birth
    ensures Select(e, b) == Select(e0, b)
  {
    assert At(e, Ditto).dvas == At(e0, Ditto).dvas && At(e, Single).dvas == At(e0, Single).dvas;
    assert At(e, Double).dvas == At(e0, Double).dvas && At(e, Triple).dvas == At(e0, Triple).dvas;
  }

  /** While its entry is there, a block resolves as it would have at the outset. */
  lemma TracksResolve(t0: Table, t: Table, bs: seq<Block>, i: nat)
    requires i < |bs| && Tracks(t0, t, bs, i)
    ensures bs[i].key in t ==> Resolve(t, bs[i]) == Resolve(t0, bs[i])
  {
    var k := bs[i].key;
    if k in t {
      forall p ensures At(t[k], p).dvas == At(t0[k], p).dvas && At(t[k], p).birth == At(t0[k], p).birth {
        assert Dropped(At(t[k], p), At(t0[k], p), Rank(t0, bs, i, k, p));
      }
      SelectAlike(t[k], t0[k], bs[i]);
    }
  }

  lemma GapIsMismatch(t0: Table, s: State, bs: seq<Block>, i: nat)
    requires i < |bs| && Tracks(t0, s.table, bs, i)
    ensures Gap(t0, bs, i) == Mismatch(s, bs[i])
  {
    var k := bs[i].key;
    TracksResolve(t0, s.table, bs, i);
    match Resolve(t0, bs[i]) {
      case Some(Some(p)) =>
        if k in s.table {
          assert Dropped(At(s.table[k], p), At(t0[k], p), Rank(t0, bs, i, k, p));
        } else {
          assert At(t0[k], p).refcnt <= Rank(t0, bs, i, k, p);
        }
      case _ =>
    }
  }

  lemma DecrefAt(t: Table, k: Key, p: Slot, q: Slot)
    requires k in t && At(t[k], p).refcnt > 0 && k in Decref(t, k, p)
    ensures At(Decref(t, k, p)[k], q) == if q == p then At(t[k], p).(refcnt := At(t[k], p).refcnt - 1) else At(t[k], q)
  {
  }

  lemma TracksStep(t0: Table, s: State, bs: seq<Block>, i: nat)
    requires i < |bs| && ValidTable(t0) && Tracks(t0, s.table, bs, i) && Count(s, bs[i]).Some?
    ensures Tracks(t0, Count(s, bs[i]).value.table, bs, i + 1)
  {
    var t, k, t' := s.table, bs[i].key, Count(s, bs[i]).value.table;
    TracksResolve(t0, t, bs, i);
    match Resolve(t, bs[i]) {
      case None => assert t' == t;
      case Some(Some(p)) =>
        assert t' == Decref(t, k, p);
        hide Count, Select;
        forall q ensures k in t' ==> Dropped(At(t'[k], q), At(t0[k], q), Rank(t0, bs, i + 1, k, q)) {
          if k in t' {
            assert Dropped(At(t[k], q), At(t0[k], q), Rank(t0, bs, i, k, q));
            DecrefAt(t, k, p, q);
          }
        }
        forall q ensures k !in t' ==> At(t0[k], q).refcnt <= Rank(t0, bs, i + 1, k, q) {
          if k !in t' {
            assert Dropped(At(t[k], q), At(t0[k], q), Rank(t0, bs, i, k, q));
            LastOne(t, k, p, q);
          }
        }
    }
  }

  /** An entry goes only with its last reference. */
  lemma LastOne(t: Table, k: Key, p: Slot, q: Slot)
    requires k in t && At(t[k], p).refcnt > 0 && k !in Decref(t, k, p)
    ensures q.Ditto? || At(t[k], q).refcnt == if q == p then 1 else 0
  {
  }

  /** Over every run that does not abort, the sum moves with the claims, the references and the gaps. */
  lemma {:induction false} RunBalance(t0: Table, s: State, bs: seq<Block>, i: nat, alloc: nat)
    requires i <= |bs| && ValidTable(t0) && ValidTable(s.table) && Tracks(t0, s.table, bs, i)
    requires RunBlocks(s, bs, i).Some?
    ensures Balance(RunBlocks(s, bs, i).value, alloc) == Balance(s, alloc) + Gaps(t0, bs, i)
    ensures ValidTable(RunBlocks(s, bs, i).value.table)
    decreases |bs| - i
  {
    if i == |bs| {
    } else {
      hide Count, Tracks, Balance, Gap, Mismatch, ValidTable;
      CountBalance(s, bs[i], alloc);
      GapIsMismatch(t0, s, bs, i);
      TracksStep(t0, s, bs, i);
      RunBalance(t0, Count(s, bs[i]).value, bs, i + 1, alloc);
    }
  }

  lemma TracksFirst(t: Table, bs: seq<Block>)
    ensures Tracks(t, t, bs, 0)
  {
  }

  function Start(space: set<Unit>): State {
    State(space, map[], 0, 0, {})
  }

  /** A whole check: load the maps, preload the table, count every block. */
  ghost function Check(space: set<Unit>, walk: seq<Walked>, vs: seq<Visit>): Option<State> {
    match Init(Start(space), walk)
    case None => None
    case Some(s) => Run(s, vs)
  }

  /** Over every run, the sum zdb reports equals the space claimed so far, less what the table
      still owes, plus the gaps between shared blocks and their slots. */
  lemma Conservation(space: set<Unit>, walk: seq<Walked>, vs: seq<Visit>)
    requires ValidWalk(walk)
    requires Check(space, walk, vs).Some?
    ensures var s := Check(space, walk, vs).value;
            s.asize - s.dedup ==
            |space| - |s.unclaimed| - TableExcess(s.table) + Gaps(Preloaded(walk), Fresh({}, vs), 0)
    ensures ValidTable(Check(space, walk, vs).value.table)
  {
    var s0, bs := Init(Start(space), walk).value, Fresh({}, vs);
    InitBalance(Start(space), walk, |space|);
    InitTable(Start(space), walk);
    RunCountsFresh(s0, vs, {});
    TracksFirst(s0.table, bs);
    assert s0.(zil := {}) == s0;
    hide Run, RunBlocks, Gaps, Tracks, Fresh, Init;
    RunBalance(s0.table, s0, bs, 0, |space|);
  }

  // ----- the verdict -----

  /** "No leaks": the block sum equals the allocator's total. */
  predicate NoLeaks(s: State, totalAlloc: nat) {
    s.asize - s.dedup == totalAlloc
  }

  /** No slot has more than one reference outstanding. */
  ghost predicate Settled(t: Table) {
    forall k | k in t :: t[k].single.refcnt <= 1 && t[k].double.refcnt <= 1 && t[k].triple.refcnt <= 1
  }

  lemma PositiveSize(dvas: seq<Dva>)
    requires dvas != [] && Separate(dvas)
    ensures ASize(dvas) > 0
  {
  }

  lemma ExcessZero(ph: Phys)
    requires ValidPhys(ph)
    ensures Excess(ph) == 0 <==> ph.refcnt <= 1
  {
    if ph.refcnt > 1 {
      PositiveSize(ph.dvas);
      Arith.MulMonotone(1, ph.refcnt - 1, ASize(ph.dvas));
    }
  }

  lemma {:induction false} SettledIffNoExcess(t: Table)
    requires ValidTable(t)
    ensures TableExcess(t) == 0 <==> Settled(t)
    decreases |t|
  {
    if k :| k in t {
      ExcessWithout(t, k);
      assert (t - {k}).Keys == t.Keys - {k};
      SettledIffNoExcess(t - {k});
      ExcessZero(t[k].single);
      ExcessZero(t[k].double);
      ExcessZero(t[k].triple);
      forall j | j in t && j != k ensures j in t - {k} && (t - {k})[j] == t[j] {
      }
    } else {
      assert t == map[];
    }
  }

  /** The block carries the same copies as the slot it resolves to, not just the same first one. */
  ghost predicate Faithful(t: Table, b: Block) {
    match Resolve(t, b)
    case Some(Some(p)) => At(t[b.key], p).dvas == b.dvas
    case _ => true
  }

  /** Counting a block leaves every other block's resolution, and the slot it lands on, alone. */
  lemma ResolveAfterDecref(t: Table, k: Key, p: Slot, b: Block)
    requires k in t && At(t[k], p).refcnt > 0
    ensures b.key in Decref(t, k, p) ==>
              Resolve(Decref(t, k, p), b) == Resolve(t, b) && (Faithful(t, b) ==> Faithful(Decref(t, k, p), b))
    ensures b.key != k ==> (b.key in Decref(t, k, p) <==> b.key in t)
  {
  }

  /** The block is as large as the slot it resolves to. */
  predicate SameSize(t: Table, b: Block) {
    match Resolve(t, b)
    case Some(Some(p)) => ASize(At(t[b.key], p).dvas) == ASize(b.dvas)
    case _ => true
  }

  lemma {:induction false} NoGaps(t: Table, bs: seq<Block>, i: nat)
    requires i <= |bs| && forall j | i <= j < |bs| :: SameSize(t, bs[j])
    ensures Gaps(t, bs, i) == 0
    decreases |bs| - i
  {
    if i == |bs| {
    } else {
      assert SameSize(t, bs[i]);
      NoGaps(t, bs, i + 1);
    }
  }

  /** When shared blocks are as large as their slots, the verdict is given exactly when every
      allocated byte has been claimed and no slot is owed more than one reference. */
  lemma VerdictExact(space: set<Unit>, walk: seq<Walked>, vs: seq<Visit>)
    requires ValidWalk(walk)
    requires Check(space, walk, vs).Some?
    requires forall b | b in Fresh({}, vs) :: SameSize(Preloaded(walk), b)
    ensures var s := Check(space, walk, vs).value;
            NoLeaks(s, |space|) <==> s.unclaimed == {} && Settled(s.table)
  {
    Conservation(space, walk, vs);
    NoGaps(Preloaded(walk), Fresh({}, vs), 0);
    SettledIffNoExcess(Check(space, walk, vs).value.table);
  }

  /** For any blocks, a verdict of "No leaks" is right exactly when the gaps add up to nothing, which
      the preloaded table and the blocks to be counted decide beforehand. */
  lemma VerdictRightIff(space: set<Unit>, walk: seq<Walked>, vs: seq<Visit>)
    requires ValidWalk(walk)
    requires Check(space, walk, vs).Some? && NoLeaks(Check(space, walk, vs).value, |space|)
    ensures var s := Check(space, walk, vs).value;
            s.unclaimed == {} && Settled(s.table) <==> Gaps(Preloaded(walk), Fresh({}, vs), 0) == 0
  {
    Conservation(space, walk, vs);
    SettledIffNoExcess(Check(space, walk, vs).value.table);
  }
}

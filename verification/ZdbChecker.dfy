/** zdb's leak checker as it runs: counters, a statistics table, the unclaimed space and the
    dedup table updated block by block (cmd/zdb/zdb.c). */
module ZdbChecker {
  import opened Base
  import opened PoolSpace
  import opened LeakCheck
  import opened LeakPool
  import opened BlockStats

  class Checker {
    var unclaimed: set<Unit>
    var table: Table
    var dedupAsize: int
    var dedupBlocks: nat
    var met: Met
    const cells: array2<Stats>
    const skipLeaks: bool      // dump_opt['L']
    ghost var log: seq<Item>

    ghost predicate Valid()
      reads this, cells
    {
      && cells.Length0 == ZB_TOTAL + 1
      && cells.Length1 == OT_TOTAL + 1
      && AllValid(log)
      && forall l, t | 0 <= l <= ZB_TOTAL && 0 <= t <= OT_TOTAL :: cells[l, t] == Tally(log, l, t)
    }

    ghost function View(): State
      reads this, cells
      requires Valid()
    {
      State(unclaimed, table, cells[ZB_TOTAL, OT_TOTAL].asize, dedupAsize, met)
    }

    /** The maps as loaded, everything else zero. */
    constructor (space: set<Unit>, skipLeaks: bool)
      ensures Valid() && fresh(cells) && log == []
      ensures this.skipLeaks == skipLeaks
      ensures View() == Start(space)
      ensures dedupBlocks == 0
    {
      this.skipLeaks := skipLeaks;
      unclaimed := space;
      table := map[];
      dedupAsize := 0;
      dedupBlocks := 0;
      met := {};
      cells := new Stats[ZB_TOTAL + 1, OT_TOTAL + 1]((_, _) => NOTHING);
      log := [];
    }

    /** The four cells a block belongs to. */
    method AddStats(b: Block, ot: nat)
      requires Valid()
      requires Item(b, ot).Valid()
      modifies cells, this`log
      ensures Valid() && log == old(log) + [Item(b, ot)]
    {
      ghost var x := Item(b, ot);
      for i := 0 to 4
        invariant forall l, t | 0 <= l <= ZB_TOTAL && 0 <= t <= OT_TOTAL ::
                    cells[l, t] == if Reached(x, i, l, t) then Tally(log, l, t).Plus(Of(b)) else Tally(log, l, t)
        invariant log == old(log)
      {
        var l := if i < 2 then b.level else ZB_TOTAL;
        var t := if i % 2 == 1 then ot else OT_TOTAL;
        cells[l, t] := cells[l, t].Plus(Of(b));
      }
      forall l, t | 0 <= l <= ZB_TOTAL && 0 <= t <= OT_TOTAL ensures cells[l, t] == Tally(log + [x], l, t) {
        TallySnoc(log, x, l, t);
      }
      log := log + [x];
    }

    /** metaslab_claim: look at every copy first, then take each one out of the maps. */
    method Claim(dvas: seq<Dva>, look: bool) returns (ok: bool)
      modifies this`unclaimed
      ensures PoolSpace.Claim(old(unclaimed), dvas, look) == if ok then Some(unclaimed) else None
    {
      if !DryRun(unclaimed, dvas) {
        return false;
      }
      if look {
        return true;
      }
      assert dvas[0..] == dvas;
      for d := 0 to |dvas|
        invariant ClaimEach(unclaimed, dvas[d..]) == ClaimEach(old(unclaimed), dvas)
      {
        assert dvas[d..][1..] == dvas[d + 1..];
        if !Claimable(unclaimed, dvas[d]) {
          return false;
        }
        unclaimed := unclaimed - Extent(dvas[d]);
      }
      ok := true;
    }

    /** zdb_count_block; false is an abort. */
    method CountBlock(zilog: Option<nat>, b: Block, ot: nat) returns (ok: bool)
      requires Valid()
      requires Item(b, ot).Valid()
      modifies this, cells
      ensures Valid()
      ensures !skipLeaks ==>
                CountVisit(old(View()), Visit(zilog, b)) == if ok then Some(View()) else None
      ensures skipLeaks ==> ok && View() == Tallied(old(View()), Visit(zilog, b))
      ensures dedupAsize == old(dedupAsize) && dedupBlocks == old(dedupBlocks)
      ensures log == old(log) + if AlreadyMet(old(met), Visit(zilog, b)) then [] else [Item(b, ot)]
      ensures met == if AlreadyMet(old(met), Visit(zilog, b)) then old(met) else Meet(old(met), Visit(zilog, b))
    {
      hide Decref, Select, PoolSpace.Claim, Tally;
      if zilog.Some? {
        var id := (zilog.value, Identity(b.dvas));
        if id in met {
          return true;
        }
        met := met + {id};
      }
      ghost var noted := View();
      AddStats(b, ot);
      TallySnoc(old(log), Item(b, ot), ZB_TOTAL, OT_TOTAL);
      assert View() == noted.(asize := noted.asize + ASize(b.dvas));
      if skipLeaks {
        return true;
      }
      var refcnt := 0;
      if b.dedup && b.key in table {
        match Select(table[b.key], b) {
          case None => return false;
          case Some(p) =>
            if At(table[b.key], p).refcnt == 0 {
              return false;
            }
            refcnt := At(table[b.key], p).refcnt - 1;
            table := Decref(table, b.key, p);
        }
      }
      ok := Claim(b.dvas, refcnt != 0);
    }

    /** The dedup credit of one slot, taken when the table is preloaded. */
    method Credit(ph: Phys)
      requires Valid()
      modifies this`dedupAsize, this`dedupBlocks
      ensures Valid()
      ensures View() == old(View()).(dedup := old(View()).dedup + Saved(ph))
      ensures dedupBlocks == old(dedupBlocks) + if ph.birth == 0 then 0 else 1
    {
      if ph.birth != 0 {
        dedupAsize := dedupAsize + (ph.refcnt as int - 1) * ASize(ph.dvas);
        dedupBlocks := dedupBlocks + 1;
      }
    }

    method PreloadEntry(k: Key, e: Entry) returns (ok: bool)
      requires Valid()
      modifies this, cells
      ensures Valid()
      ensures !skipLeaks ==> InitEntry(old(View()), k, e) == if ok then Some(View()) else None
      ensures skipLeaks ==> ok && View() == Listed(old(View()), e)
      ensures ok ==> met == old(met) && |log| == |old(log)| + (if e.ditto.birth != 0 then 1 else 0)
      ensures ok ==> dedupBlocks == old(dedupBlocks) + InUse([e.single, e.double, e.triple])
    {
      if e.ditto.birth != 0 {
        ok := CountBlock(None, Block(k, e.ditto.dvas, e.ditto.birth, false, 0), OT_DITTO);
        if !ok {
          return;
        }
      }
      Credit(e.single);
      Credit(e.double);
      Credit(e.triple);
      ThreeSlots(e.single, e.double, e.triple);
      if !skipLeaks {
        table := table[k := e];
      }
      ok := true;
    }

    /** zdb_ddt_leak_init. */
    method Preload(walk: seq<Walked>) returns (ok: bool)
      requires Valid()
      modifies this, cells
      ensures Valid()
      ensures !skipLeaks ==> Init(old(View()), walk) == if ok then Some(View()) else None
      ensures skipLeaks ==> ok && View() == ListedAll(old(View()), walk)
      ensures ok ==> met == old(met) && |log| == |old(log)| + DittoCount(walk)
      ensures ok ==> dedupBlocks == old(dedupBlocks) + SharedSlots(walk)
    {
      assert walk[0..] == walk;
      for i := 0 to |walk|
        invariant Valid()
        invariant !skipLeaks ==> Init(View(), walk[i..]) == Init(old(View()), walk)
        invariant skipLeaks ==> ListedAll(View(), walk[i..]) == ListedAll(old(View()), walk)
        invariant met == old(met) && |log| + DittoCount(walk[i..]) == |old(log)| + DittoCount(walk)
        invariant dedupBlocks + SharedSlots(walk[i..]) == old(dedupBlocks) + SharedSlots(walk)
      {
        assert walk[i..][1..] == walk[i + 1..];
        if walk[i].class_.UniqueClass? {
          return true;
        }
        ok := PreloadEntry(walk[i].key, walk[i].entry);
        if !ok {
          return;
        }
      }
      ok := true;
    }

    /** The visits of dump_block_stats, each with the type it is counted under. */
    method CountAll(vs: seq<Visit>, ots: seq<nat>) returns (ok: bool)
      requires Valid()
      requires |ots| == |vs|
      requires forall i | 0 <= i < |vs| :: Item(vs[i].block, ots[i]).Valid()
      modifies this, cells
      ensures Valid()
      ensures !skipLeaks ==> Run(old(View()), vs) == if ok then Some(View()) else None
      ensures skipLeaks ==> ok && View() == TalliedAll(old(View()), vs)
      ensures ok ==> |log| == |old(log)| + |Fresh(old(met), vs)|
    {
      assert vs[0..] == vs;
      for i := 0 to |vs|
        invariant Valid()
        invariant !skipLeaks ==> Run(View(), vs[i..]) == Run(old(View()), vs)
        invariant skipLeaks ==> TalliedAll(View(), vs[i..]) == TalliedAll(old(View()), vs)
        invariant |log| + |Fresh(met, vs[i..])| == |old(log)| + |Fresh(old(met), vs)|
      {
        assert vs[i..][1..] == vs[i + 1..];
        ok := CountBlock(vs[i].zilog, vs[i].block, ots[i]);
        if !ok {
          return;
        }
      }
      ok := true;
    }
  }

  /** The slots in use. */
  function InUse(slots: seq<Phys>): nat {
    if slots == [] then 0 else (if slots[0].birth == 0 then 0 else 1) + InUse(slots[1..])
  }

  /** The slots in use of the entries walked before the first unique one, without the ditto copies. */
  function SharedSlots(walk: seq<Walked>): nat {
    if walk == [] || walk[0].class_.UniqueClass? then 0
    else
      var e := walk[0].entry;
      InUse([e.single, e.double, e.triple]) + SharedSlots(walk[1..])
  }

  lemma ThreeSlots(a: Phys, b: Phys, c: Phys)
    ensures InUse([a, b, c]) ==
            (if a.birth == 0 then 0 else 1) + (if b.birth == 0 then 0 else 1) + (if c.birth == 0 then 0 else 1)
  {
    assert [a, b, c][1..] == [b, c] && [b, c][1..] == [c] && [c][1..] == [];
    assert InUse([c]) == if c.birth == 0 then 0 else 1;
    assert InUse([b, c]) == (if b.birth == 0 then 0 else 1) + InUse([c]);
  }

  /** The ditto blocks counted while the table is preloaded. */
  function DittoCount(walk: seq<Walked>): nat {
    if walk == [] || walk[0].class_.UniqueClass? then 0
    else (if walk[0].entry.ditto.birth != 0 then 1 else 0) + DittoCount(walk[1..])
  }

  /** The cells touched by the first i of the four updates. */
  predicate Reached(x: Item, i: nat, l: nat, t: nat) {
    || (i > 0 && l == x.block.level && t == OT_TOTAL)
    || (i > 1 && l == x.block.level && t == x.ot)
    || (i > 2 && l == ZB_TOTAL && t == OT_TOTAL)
    || (i > 3 && l == ZB_TOTAL && t == x.ot)
  }

  // ----- with leak checking off -----

  /** Only the statistics move. */
  function Tallied(s: State, v: Visit): State {
    if Skipped(s, v) then s else Noted(s, v).(asize := s.asize + ASize(v.block.dvas))
  }

  function TalliedAll(s: State, vs: seq<Visit>): State
    decreases |vs|
  {
    if vs == [] then s else TalliedAll(Tallied(s, vs[0]), vs[1..])
  }

  /** Only the ditto blocks and the credits of an entry are taken. */
  function Listed(s: State, e: Entry): State {
    s.(asize := s.asize + (if e.ditto.birth == 0 then 0 else ASize(e.ditto.dvas)),
       dedup := s.dedup + Saved(e.single) + Saved(e.double) + Saved(e.triple))
  }

  function ListedAll(s: State, walk: seq<Walked>): State
    decreases |walk|
  {
    if walk == [] || walk[0].class_.UniqueClass? then s else ListedAll(Listed(s, walk[0].entry), walk[1..])
  }

  function Bytes(bs: seq<Block>): nat {
    if bs == [] then 0 else ASize(bs[0].dvas) + Bytes(bs[1..])
  }

  /** The sum with -L: the bytes of every block counted once, less the credits of the dedup table. */
  lemma {:induction false} TalliedBytes(s: State, vs: seq<Visit>)
    ensures TalliedAll(s, vs).asize == s.asize + Bytes(Fresh(s.zil, vs))
    ensures TalliedAll(s, vs).dedup == s.dedup
    decreases |vs|
  {
    if vs == [] {
    } else {
      TalliedBytes(Tallied(s, vs[0]), vs[1..]);
      var bs := Fresh(s.zil, vs);
      assert !AlreadyMet(s.zil, vs[0]) ==> bs[1..] == Fresh(Meet(s.zil, vs[0]), vs[1..]);
    }
  }

  /** The bytes of an entry's ditto copies, and what its references save: all but one of each slot's. */
  function DittoBytes(es: seq<Walked>): nat {
    if es == [] then 0 else ASize(DittoCopies(es[0].entry)) + DittoBytes(es[1..])
  }

  function Credits(es: seq<Walked>): int {
    if es == [] then 0
    else
      var e := es[0].entry;
      CreditOf(e.single) + CreditOf(e.double) + CreditOf(e.triple) + Credits(es[1..])
  }

  function CreditOf(ph: Phys): int {
    if ph.birth == 0 then 0 else ASize(ph.dvas) * (ph.refcnt - 1)
  }

  lemma {:induction false} ListedSums(s: State, walk: seq<Walked>)
    ensures ListedAll(s, walk).asize == s.asize + DittoBytes(Used(walk))
    ensures ListedAll(s, walk).dedup == s.dedup + Credits(Used(walk))
    ensures ListedAll(s, walk).zil == s.zil
    decreases |walk|
  {
    if walk == [] || walk[0].class_.UniqueClass? {
    } else {
      var e := walk[0].entry;
      ListedIs(s, e);
      hide ASize, Listed, CreditOf, DittoCopies;
      ListedSums(Listed(s, e), walk[1..]);
      assert Used(walk)[1..] == Used(walk[1..]);
    }
  }

  lemma ListedIs(s: State, e: Entry)
    ensures Listed(s, e).asize == s.asize + ASize(DittoCopies(e))
    ensures Listed(s, e).dedup == s.dedup + CreditOf(e.single) + CreditOf(e.double) + CreditOf(e.triple)
    ensures Listed(s, e).zil == s.zil
  {
    SavedIs(e.single);
    SavedIs(e.double);
    SavedIs(e.triple);
    hide Saved, CreditOf;
  }

  lemma SavedIs(ph: Phys)
    ensures Saved(ph) == CreditOf(ph)
  {
  }

  /** With -L the verdict is given exactly when the allocator's total is the ditto copies and every block
      counted once, less the credits. */
  lemma SkippedVerdict(space: set<Unit>, walk: seq<Walked>, vs: seq<Visit>, totalAlloc: nat)
    ensures Outcome(space, walk, vs, true).Some?
    ensures NoLeaks(Outcome(space, walk, vs, true).value, totalAlloc) <==>
            totalAlloc == DittoBytes(Used(walk)) + Bytes(Fresh({}, vs)) - Credits(Used(walk))
  {
    hide TalliedAll, ListedAll, Used, DittoBytes, Credits, Bytes, Fresh;
    ListedSums(Start(space), walk);
    TalliedBytes(ListedAll(Start(space), walk), vs);
  }

  /** What the whole run finds, or an abort; with -L nothing is claimed, so nothing aborts. */
  ghost function Outcome(space: set<Unit>, walk: seq<Walked>, vs: seq<Visit>, skipLeaks: bool): Option<State> {
    if skipLeaks then Some(TalliedAll(ListedAll(Start(space), walk), vs)) else Check(space, walk, vs)
  }

  /** dump_block_stats: the exit status is 2 when the block sum does not match the allocator's total
      or no block was found, otherwise 3 after reading errors and 0 without; None is an abort. */
  method DumpBlockStats(space: set<Unit>, walk: seq<Walked>, vs: seq<Visit>, ots: seq<nat>, totalAlloc: nat,
                        skipLeaks: bool, hadErrors: bool)
    returns (status: Option<nat>)
    requires |ots| == |vs|
    requires forall i | 0 <= i < |vs| :: Item(vs[i].block, ots[i]).Valid()
    ensures status.None? <==> Outcome(space, walk, vs, skipLeaks).None?
    ensures status.Some? ==>
              var clean := NoLeaks(Outcome(space, walk, vs, skipLeaks).value, totalAlloc);
              var none := DittoCount(walk) + |Fresh({}, vs)| == 0;
              status.value == if !clean || none then 2 else if hadErrors then 3 else 0
  {
    hide Check, Run, Init, TalliedAll, ListedAll, Fresh, DittoCount;
    var zcb := new Checker(space, skipLeaks);
    ghost var s0 := zcb.View();
    var ok := zcb.Preload(walk);
    CheckIs(space, walk, vs);
    if !ok {
      return None;
    }
    ok := zcb.CountAll(vs, ots);
    if !ok {
      return None;
    }
    var tzb := zcb.cells[ZB_TOTAL, OT_TOTAL];
    var leaks := tzb.asize - zcb.dedupAsize != totalAlloc;
    CountIsLength(zcb.log);
    if tzb.count == 0 {
      return Some(2);
    }
    status := Some(if leaks then 2 else if hadErrors then 3 else 0);
  }

  lemma CheckIs(space: set<Unit>, walk: seq<Walked>, vs: seq<Visit>)
    ensures Check(space, walk, vs) ==
            match Init(Start(space), walk) { case None => None case Some(s) => Run(s, vs) }
  {
  }
}

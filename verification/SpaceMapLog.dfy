/** The on-disk space map: a log of 64-bit words, its bit layout, and the set of
    sectors that replaying it leaves allocated (include/sys/space_map.h, module/zfs/space_map.c). */
module SpaceMapLog {
  import Arith
  import opened Base

  const TWO_64: nat := 0x1_0000_0000_0000_0000
  const TWO_47: nat := 0x8000_0000_0000
  const TWO_50: nat := 0x4_0000_0000_0000
  const RUN_MAX: nat := 0x8000

  type Word = w: nat | w < TWO_64

  /** Where one map lives: its first sector and how many there are, a sector being
      1 << sm_shift bytes. */
  datatype Geometry = Geometry(start: nat, size: nat) {
    predicate Valid() {
      0 < size
    }

    ghost function All(): set<int> {
      Range(start, start + size)
    }
  }

  /** The sectors from lo up to but excluding hi. */
  ghost function Range(lo: nat, hi: nat): set<int> {
    set x | lo <= x < hi && Between(lo, x, hi)
  }

  lemma {:induction false} RangeSize(lo: nat, hi: nat)
    requires lo <= hi
    ensures |Range(lo, hi)| == hi - lo
  {
    if lo >= hi {
    } else {
      RangeSize(lo, hi - 1);
      assert Range(lo, hi) == Range(lo, hi - 1) + {hi - 1};
    }
  }

  // ----- bit layout -----

  predicate IsDebug(w: Word) { w / 0x8000_0000_0000_0000 % 2 == 1 }

  predicate IsAlloc(w: Word) { w / 0x8000 % 2 == 0 }

  function Offset(w: Word): nat { w / 0x1_0000 % TWO_47 }

  function Run(w: Word): nat { w % 0x8000 + 1 }

  function Encode(alloc: bool, offset: nat, run: nat): (w: Word)
    requires offset < TWO_47
    requires 1 <= run <= RUN_MAX
    ensures !IsDebug(w)
    ensures IsAlloc(w) == alloc
    ensures Offset(w) == offset
    ensures Run(w) == run
  {
    offset * 0x1_0000 + (if alloc then 0 else 0x8000) + (run - 1)
  }

  function Action(w: Word): nat { w / 0x1000_0000_0000_0000 % 8 }

  function Pass(w: Word): nat { w / TWO_50 % 0x400 }

  function Txg(w: Word): nat { w % TWO_50 }

  function EncodeDebug(action: nat, pass: nat, txg: nat): (w: Word)
    requires action < 8 && pass < 0x400 && txg < TWO_50
    ensures IsDebug(w)
    ensures Action(w) == action
    ensures Pass(w) == pass
    ensures Txg(w) == txg
  {
    var high := 8 + action;
    Arith.DivModUnique(high, 0x1000_0000_0000_0000, pass * TWO_50 + txg);
    Arith.DivModUnique(high * 0x400 + pass, TWO_50, txg);
    Arith.DivModUnique(high, 0x400, pass);
    high * 0x1000_0000_0000_0000 + pass * TWO_50 + txg
  }

  // ----- replay -----

  /** What a word says: which kind of map was written, in which pass and txg, or that a range of
      sectors was allocated or freed. */
  datatype Entry = Debug(action: nat, pass: nat, txg: nat) | Change(alloc: bool, lo: nat, len: nat) {
    ghost function Extent(): set<int>
      requires Change?
    {
      Range(lo, lo + len)
    }
  }

  function Decode(g: Geometry, w: Word): Entry {
    if IsDebug(w) then Debug(Action(w), Pass(w), Txg(w))
    else Change(IsAlloc(w), Offset(w) + g.start, Run(w))
  }

  /** Entries that have a word: every field fits. */
  predicate Encodable(g: Geometry, e: Entry) {
    match e
    case Debug(action, pass, txg) => action < 8 && pass < 0x400 && txg < TWO_50
    case Change(_, lo, len) => g.start <= lo < g.start + TWO_47 && 1 <= len <= RUN_MAX
  }

  /** The word space_map_sync writes. */
  function EncodeEntry(g: Geometry, e: Entry): (w: Word)
    requires Encodable(g, e)
    ensures Decode(g, w) == e
  {
    match e
    case Debug(action, pass, txg) => EncodeDebug(action, pass, txg)
    case Change(alloc, lo, len) => Encode(alloc, lo - g.start, len)
  }

  /** The note space_map_sync puts before a map's entries: the map's type, and as much of the pass
      and the txg as there is room for. */
  function Note(alloc: bool, pass: nat, txg: nat): Entry {
    Debug(if alloc then 0 else 1, pass % 0x400, txg % TWO_50)
  }

  function DecodeAll(g: Geometry, log: seq<Word>): seq<Entry> {
    seq(|log|, i requires 0 <= i < |log| => Decode(g, log[i]))
  }

  /** An entry that changes every sector it names: an ALLOC of free space inside the map,
      or a FREE of allocated space. */
  ghost predicate Applies(g: Geometry, s: set<int>, e: Entry) {
    e.Change? ==>
      && e.Extent() <= g.All()
      && if e.alloc then s !! e.Extent() else e.Extent() <= s
  }

  ghost function Step(s: set<int>, e: Entry): set<int> {
    match e
    case Debug(_, _, _) => s
    case Change(alloc, _, _) => if alloc then s + e.Extent() else s - e.Extent()
  }

  /** The sectors allocated once every entry has been replayed, in order, on top of s; None
      when one of them does not apply. */
  ghost function Replay(g: Geometry, s: set<int>, es: seq<Entry>): Option<set<int>>
    decreases |es|
  {
    if es == [] then Some(s)
    else if Applies(g, s, es[0]) then Replay(g, Step(s, es[0]), es[1..])
    else None
  }

  lemma {:induction false} ReplayConcat(g: Geometry, s: set<int>, a: seq<Entry>, b: seq<Entry>)
    ensures Replay(g, s, a + b) ==
            match Replay(g, s, a) { case None => None case Some(s') => Replay(g, s', b) }
    decreases |a|
  {
    if a == [] {
      assert a + b == b;
    } else {
      assert (a + b)[1..] == a[1..] + b;
      ReplayConcat(g, Step(s, a[0]), a[1..], b);
    }
  }

  function Delta(e: Entry): int {
    match e
    case Debug(_, _, _) => 0
    case Change(alloc, _, len) => if alloc then len else 0 - len
  }

  lemma StepSize(g: Geometry, s: set<int>, e: Entry)
    requires Applies(g, s, e)
    ensures |Step(s, e)| == |s| + Delta(e)
  {
    if e.Change? {
      RangeSize(e.lo, e.lo + e.len);
      if !e.alloc {
        SubsetSize(e.Extent(), s);
      }
    }
  }

  /** uint64 arithmetic. */
  function Wrap(x: int): (w: Word)
    ensures 0 <= x < TWO_64 ==> w == x
  {
    x % TWO_64
  }

  /** What one more entry does to the size of the allocated set, in bytes. */
  lemma EntryBytes(g: Geometry, s: set<int>, e: Entry, sector: nat)
    requires s <= g.All()
    requires Applies(g, s, e)
    ensures Step(s, e) <= g.All()
    ensures |Step(s, e)| * sector <= g.size * sector
    ensures |Step(s, e)| * sector == |s| * sector + Delta(e) * sector
  {
    StepSize(g, s, e);
    RangeSize(g.start, g.start + g.size);
    SubsetSize(Step(s, e), g.All());
    Arith.Distribute(|s|, Delta(e), sector);
    Arith.MulMonotone(|Step(s, e)|, g.size, sector);
  }

  lemma {:induction false} ReplayInside(g: Geometry, s: set<int>, es: seq<Entry>)
    requires s <= g.All()
    requires Replay(g, s, es).Some?
    ensures Replay(g, s, es).value <= g.All()
    decreases |es|
  {
    if es == [] {
    } else {
      ReplayInside(g, Step(s, es[0]), es[1..]);
    }
  }

  /** A log replayed from nothing allocated. */
  ghost function Allocated(g: Geometry, es: seq<Entry>): Option<set<int>> {
    Replay(g, {}, es)
  }

  lemma AllocatedSnoc(g: Geometry, es: seq<Entry>, i: nat)
    requires i < |es|
    ensures Allocated(g, es[..i + 1]) ==
            match Allocated(g, es[..i]) {
              case None => None
              case Some(s) => if Applies(g, s, es[i]) then Some(Step(s, es[i])) else None
            }
    ensures Allocated(g, es).Some? ==> Allocated(g, es[..i + 1]).Some?
  {
    assert es[..i + 1] == es[..i] + [es[i]];
    ReplayConcat(g, {}, es[..i], [es[i]]);
    assert es == es[..i + 1] + es[i + 1..];
    ReplayConcat(g, {}, es[..i + 1], es[i + 1..]);
  }

  predicate Covers(e: Entry, x: int) { e.Change? && e.lo <= x < e.lo + e.len }

  /** The last entry that covers the sector allocates it. */
  ghost predicate LastSays(es: seq<Entry>, x: int) {
    exists i | 0 <= i < |es| :: Covers(es[i], x) && es[i].alloc && forall j | i < j < |es| :: !Covers(es[j], x)
  }

  lemma LastSaysSnoc(es: seq<Entry>, e: Entry, x: int)
    ensures LastSays(es + [e], x) <==> if Covers(e, x) then e.alloc else LastSays(es, x)
  {
    var es' := es + [e];
    assert es'[|es|] == e && forall i | 0 <= i < |es| :: es'[i] == es[i];
    if LastSays(es, x) && !Covers(e, x) {
      var i :| 0 <= i < |es| && Covers(es[i], x) && es[i].alloc && forall j | i < j < |es| :: !Covers(es[j], x);
      assert Covers(es'[i], x) && es'[i].alloc;
    }
    if Covers(e, x) && e.alloc {
      assert Covers(es'[|es|], x) && es'[|es|].alloc;
    }
    if LastSays(es', x) && !Covers(e, x) {
      var i :| 0 <= i <= |es| && Covers(es'[i], x) && es'[i].alloc && forall j | i < j <= |es| :: !Covers(es'[j], x);
      assert Covers(es[i], x) && es[i].alloc;
    }
  }

  /** The entry lies in the map, and turns over every sector it covers. */
  ghost predicate TurnsOver(g: Geometry, es: seq<Entry>, e: Entry) {
    e.Change? ==> forall x: int | Covers(e, x) :: g.start <= x < g.start + g.size && (LastSays(es, x) <==> !e.alloc)
  }

  /** A log replays exactly when each of its entries turns over what it covers, and then to the sectors
      whose last entry allocates them. */
  lemma {:induction false} AllocatedExactly(g: Geometry, es: seq<Entry>)
    ensures Allocated(g, es).Some? <==> forall i | 0 <= i < |es| :: TurnsOver(g, es[..i], es[i])
    ensures Allocated(g, es).Some? ==> forall x: int :: x in Allocated(g, es).value <==> LastSays(es, x)
    decreases |es|
  {
    if es == [] {
    } else {
      hide Replay, LastSays;
      var n := |es| - 1;
      var init, e := es[..n], es[n];
      assert es[..n + 1] == es && es == init + [e];
      AllocatedExactly(g, init);
      AllocatedSnoc(g, es, n);
      forall i | 0 <= i < n ensures TurnsOver(g, init[..i], init[i]) <==> TurnsOver(g, es[..i], es[i]) {
        assert init[..i] == es[..i];
      }
      forall x: int ensures LastSays(es, x) <==> if Covers(e, x) then e.alloc else LastSays(init, x) {
        LastSaysSnoc(init, e, x);
      }
      if Allocated(g, init).Some? {
        AppliesIs(g, Allocated(g, init).value, init, e);
      }
    }
  }

  lemma AppliesIs(g: Geometry, s: set<int>, es: seq<Entry>, e: Entry)
    requires forall x: int :: x in s <==> LastSays(es, x)
    ensures Applies(g, s, e) <==> TurnsOver(g, es, e)
    ensures e.Change? ==> forall x: int :: x in e.Extent() <==> Covers(e, x)
  {
    hide LastSays;
    if e.Change? {
      assert forall x: int :: x in e.Extent() <==> Covers(e, x);
    }
  }

  lemma NothingYet(g: Geometry)
    ensures Allocated(g, []) == Some({})
  {
  }

  /** The summary check zdb makes of one map: a uint64 running counter, in bytes, over the log.
      For a log that applies cleanly the counter is the size of the allocated set after every
      entry, so it never wraps and the complaint is made exactly when the recorded summary
      differs from that size. */
  method DumpSpaceMap(g: Geometry, sector: nat, log: seq<Word>, smoAlloc: nat)
    returns (inconsistent: bool, counters: seq<nat>)
    requires g.size * sector < TWO_64
    ensures |counters| == |log| + 1
    ensures var es := DecodeAll(g, log);
            Allocated(g, es).Some? ==>
              && (forall i | 0 <= i <= |log| ::
                    && Allocated(g, es[..i]).Some?
                    && counters[i] == |Allocated(g, es[..i]).value| * sector)
              && (inconsistent <==> smoAlloc != |Allocated(g, es).value| * sector)
  {
    hide Decode, Replay;
    ghost var es := DecodeAll(g, log);
    NothingYet(g);
    var alloc: nat := 0;
    counters := [alloc];
    ghost var s: set<int> := {};
    for i := 0 to |log|
      invariant |counters| == i + 1
      invariant alloc == counters[i]
      invariant Allocated(g, es).Some? ==>
                  && Allocated(g, es[..i]) == Some(s)
                  && s <= g.All()
                  && alloc == |s| * sector
      invariant Allocated(g, es).Some? ==>
                  forall k | 0 <= k <= i ::
                    && Allocated(g, es[..k]).Some?
                    && counters[k] == |Allocated(g, es[..k]).value| * sector
    {
      if Allocated(g, es).Some? {
        AllocatedSnoc(g, es, i);
        EntryBytes(g, s, es[i], sector);
        s := Step(s, es[i]);
      }
      alloc := Wrap(alloc + Delta(Decode(g, log[i])) * sector);
      counters := counters + [alloc];
    }
    assert es[..|log|] == es;
    inconsistent := alloc != smoAlloc;
  }
}

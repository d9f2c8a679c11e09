/** Blocks that are exactly what the maps and the dedup counts still expect are all counted without
    an abort, and leave nothing over (cmd/zdb/zdb.c). */
module LeakComplete {
  import opened Base
  import opened PoolSpace
  import opened LeakCheck

  /** Something that will take space out of the maps once: a dedup slot with references to come,
      or the block at position j when it shares nothing. */
  datatype Piece = Shared(key: Key, slot: Slot) | Own(j: nat)

  predicate Live(t: Table, bs: seq<Block>, i: nat, x: Piece) {
    match x
    case Shared(k, p) => k in t && At(t[k], p).refcnt > 0
    case Own(j) => i <= j < |bs| && Resolve(t, bs[j]).None?
  }

  function Dvas(t: Table, bs: seq<Block>, x: Piece): seq<Dva> {
    match x
    case Shared(k, p) => if k in t then At(t[k], p).dvas else []
    case Own(j) => if j < |bs| then bs[j].dvas else []
  }

  /** The references to one slot among the blocks from position i on. */
  function Refs(t: Table, bs: seq<Block>, i: nat, k: Key, p: Slot): nat
    requires i <= |bs|
    decreases |bs| - i
  {
    if i == |bs| then 0 else (if RefersTo(t, bs[i], k, p) then 1 else 0) + Refs(t, bs, i + 1, k, p)
  }

  /** The blocks from position i on are exactly what the maps and the table still expect. */
  ghost predicate Counted(t: Table, bs: seq<Block>, i: nat)
    requires i <= |bs|
  {
    && (forall k, p | k in t :: At(t[k], p).refcnt == Refs(t, bs, i, k, p))
    && (forall j | i <= j < |bs| :: Resolve(t, bs[j]) != Some(None) && Faithful(t, bs[j]))
  }

  ghost predicate Inside(t: Table, space: set<Unit>, bs: seq<Block>, i: nat) {
    forall x | Live(t, bs, i, x) :: Separate(Dvas(t, bs, x)) && Extents(Dvas(t, bs, x)) <= space
  }

  ghost predicate Apart(t: Table, bs: seq<Block>, i: nat) {
    forall x, y | Live(t, bs, i, x) && Live(t, bs, i, y) && x != y ::
      Extents(Dvas(t, bs, x)) !! Extents(Dvas(t, bs, y))
  }

  ghost predicate Covered(t: Table, bs: seq<Block>, i: nat, u: Unit) {
    exists x :: Live(t, bs, i, x) && u in Extents(Dvas(t, bs, x))
  }

  /** Unclaimed space is made up of the live pieces, each byte in exactly one of them. */
  ghost predicate Partition(t: Table, space: set<Unit>, bs: seq<Block>, i: nat) {
    && Inside(t, space, bs, i)
    && Apart(t, bs, i)
    && forall u | u in space :: Covered(t, bs, i, u)
  }

  ghost predicate Matches(t: Table, space: set<Unit>, bs: seq<Block>, i: nat)
    requires i <= |bs|
  {
    Counted(t, bs, i) && Partition(t, space, bs, i)
  }

  /** Taking one live piece out leaves the others. */
  lemma TakePiece(t: Table, space: set<Unit>, bs: seq<Block>, i: nat, x: Piece, t': Table, i': nat)
    requires Partition(t, space, bs, i)
    requires Live(t, bs, i, x)
    requires forall y :: Live(t', bs, i', y) <==> Live(t, bs, i, y) && y != x
    requires forall y | Live(t', bs, i', y) :: Dvas(t', bs, y) == Dvas(t, bs, y)
    ensures Partition(t', space - Extents(Dvas(t, bs, x)), bs, i')
  {
    var rest := space - Extents(Dvas(t, bs, x));
    forall u | u in rest ensures Covered(t', bs, i', u) {
      assert Covered(t, bs, i, u);
      var y :| Live(t, bs, i, y) && u in Extents(Dvas(t, bs, y));
      assert Live(t', bs, i', y);
    }
  }

  /** When nothing that is live changes, neither does the partition. */
  lemma SamePieces(t: Table, space: set<Unit>, bs: seq<Block>, i: nat, t': Table, i': nat)
    requires Partition(t, space, bs, i)
    requires forall y :: Live(t', bs, i', y) <==> Live(t, bs, i, y)
    requires forall y | Live(t', bs, i', y) :: Dvas(t', bs, y) == Dvas(t, bs, y)
    ensures Partition(t', space, bs, i')
  {
    forall u | u in space ensures Covered(t', bs, i', u) {
      assert Covered(t, bs, i, u);
      var y :| Live(t, bs, i, y) && u in Extents(Dvas(t, bs, y));
      assert Live(t', bs, i', y);
    }
  }

  lemma {:induction false} NoRefs(t: Table, bs: seq<Block>, i: nat, j: nat, k: Key, p: Slot)
    requires i <= j < |bs|
    requires RefersTo(t, bs[j], k, p)
    ensures Refs(t, bs, i, k, p) > 0
    decreases j - i
  {
    if i >= j {
    } else {
      NoRefs(t, bs, i + 1, j, k, p);
    }
  }

  /** References do not depend on the counts. */
  lemma {:induction false} RefsAfterDecref(t: Table, bs: seq<Block>, i: nat, k: Key, p: Slot, k0: Key, p0: Slot)
    requires i <= |bs|
    requires k0 in t && At(t[k0], p0).refcnt > 0
    requires k in Decref(t, k0, p0)
    ensures Refs(Decref(t, k0, p0), bs, i, k, p) == Refs(t, bs, i, k, p)
    decreases |bs| - i
  {
    if i == |bs| {
    } else {
      RefsAfterDecref(t, bs, i + 1, k, p, k0, p0);
      ResolveAfterDecref(t, k0, p0, bs[i]);
    }
  }

  /** A shared block uses up one reference, and no later block is left without its entry. */
  lemma CountedAfterShare(t: Table, bs: seq<Block>, i: nat, p: Slot)
    requires i < |bs|
    requires ValidTable(t)
    requires Counted(t, bs, i)
    requires RefersTo(t, bs[i], bs[i].key, p)
    ensures At(t[bs[i].key], p).refcnt > 0
    ensures Counted(Decref(t, bs[i].key, p), bs, i + 1)
    ensures forall j | i < j < |bs| :: Resolve(Decref(t, bs[i].key, p), bs[j]) == Resolve(t, bs[j])
  {
    var k := bs[i].key;
    assert At(t[k], p).refcnt == Refs(t, bs, i, k, p);
    var t' := Decref(t, k, p);
    forall j | i < j < |bs|
      ensures Resolve(t', bs[j]) == Resolve(t, bs[j]) && Faithful(t', bs[j])
    {
      ResolveAfterDecref(t, k, p, bs[j]);
      if bs[j].key == k && k !in t' && bs[j].dedup {
        GoneMeansDone(t, bs, i, p, j);
      }
    }
    forall k', p' | k' in t' ensures At(t'[k'], p').refcnt == Refs(t', bs, i + 1, k', p') {
      RefsAfterDecref(t, bs, i + 1, k', p', k, p);
      assert At(t[k'], p').refcnt == Refs(t, bs, i, k', p');
    }
  }

  /** An entry is dropped only once no later block refers to it. */
  lemma GoneMeansDone(t: Table, bs: seq<Block>, i: nat, p: Slot, j: nat)
    requires i < j < |bs|
    requires ValidTable(t)
    requires Counted(t, bs, i)
    requires RefersTo(t, bs[i], bs[i].key, p) && At(t[bs[i].key], p).refcnt > 0
    requires bs[j].dedup && bs[j].key == bs[i].key
    ensures bs[i].key in Decref(t, bs[i].key, p)
  {
    var k := bs[i].key;
    var q := Resolve(t, bs[j]).value.value;
    NoRefs(t, bs, i + 1, j, k, q);
    assert At(t[k], q).refcnt == Refs(t, bs, i, k, q);
    assert At(t[k], Ditto).refcnt == Refs(t, bs, i, k, Ditto);
  }

  /** A block of its own: it is claimed, and everything else is as expected as before. */
  lemma OwnCounts(s: State, b: Block)
    requires Resolve(s.table, b).None? && Separate(b.dvas) && Extents(b.dvas) <= s.unclaimed
    ensures Count(s, b).Some? && Count(s, b).value.table == s.table
    ensures Count(s, b).value.unclaimed == s.unclaimed - Extents(b.dvas)
  {
    ClaimExact(s.unclaimed, b.dvas);
  }

  lemma ShareCounts(s: State, b: Block, p: Slot)
    requires RefersTo(s.table, b, b.key, p) && Separate(b.dvas) && Extents(b.dvas) <= s.unclaimed
    requires At(s.table[b.key], p).refcnt > 0
    ensures Count(s, b).Some? && Count(s, b).value.table == Decref(s.table, b.key, p)
    ensures Count(s, b).value.unclaimed ==
            if At(s.table[b.key], p).refcnt > 1 then s.unclaimed else s.unclaimed - Extents(b.dvas)
  {
    hide Decref, DryRun, ClaimEach;
    ClaimExact(s.unclaimed, b.dvas);
    LooksClaimable(s.unclaimed, b.dvas);
  }

  lemma OwnStep(s: State, bs: seq<Block>, i: nat)
    requires i < |bs|
    requires ValidTable(s.table)
    requires Matches(s.table, s.unclaimed, bs, i)
    requires Resolve(s.table, bs[i]).None?
    ensures Count(s, bs[i]).Some?
    ensures Matches(Count(s, bs[i]).value.table, Count(s, bs[i]).value.unclaimed, bs, i + 1)
  {
    hide Count, ValidTable;
    var t, x := s.table, Own(i);
    assert Live(t, bs, i, x);
    OwnCounts(s, bs[i]);
    forall y ensures Live(t, bs, i + 1, y) <==> Live(t, bs, i, y) && y != x {
    }
    TakePiece(t, s.unclaimed, bs, i, x, t, i + 1);
    forall k, p | k in t ensures At(t[k], p).refcnt == Refs(t, bs, i + 1, k, p) {
      assert At(t[k], p).refcnt == Refs(t, bs, i, k, p);
    }
  }

  /** A shared block: the last reference claims the slot's space, an earlier one only looks. */
  lemma ShareStep(s: State, bs: seq<Block>, i: nat, p: Slot)
    requires i < |bs|
    requires ValidTable(s.table)
    requires Matches(s.table, s.unclaimed, bs, i)
    requires RefersTo(s.table, bs[i], bs[i].key, p)
    ensures Count(s, bs[i]).Some?
    ensures Matches(Count(s, bs[i]).value.table, Count(s, bs[i]).value.unclaimed, bs, i + 1)
  {
    hide Count, Decref, ValidTable;
    var t, k, x := s.table, bs[i].key, Shared(bs[i].key, p);
    CountedAfterShare(t, bs, i, p);
    var t' := Decref(t, k, p);
    assert Live(t, bs, i, x) && Dvas(t, bs, x) == bs[i].dvas;
    ShareCounts(s, bs[i], p);
    LiveAfterShare(t, bs, i, p);
    if At(t[k], p).refcnt > 1 {
      SamePieces(t, s.unclaimed, bs, i, t', i + 1);
    } else {
      TakePiece(t, s.unclaimed, bs, i, x, t', i + 1);
    }
  }

  lemma LiveAfterShare(t: Table, bs: seq<Block>, i: nat, p: Slot)
    requires i < |bs|
    requires ValidTable(t)
    requires RefersTo(t, bs[i], bs[i].key, p) && At(t[bs[i].key], p).refcnt > 0
    requires forall j | i < j < |bs| :: Resolve(Decref(t, bs[i].key, p), bs[j]) == Resolve(t, bs[j])
    ensures forall y :: Live(Decref(t, bs[i].key, p), bs, i + 1, y) <==>
                        Live(t, bs, i, y) && (y != Shared(bs[i].key, p) || At(t[bs[i].key], p).refcnt > 1)
    ensures forall y | Live(Decref(t, bs[i].key, p), bs, i + 1, y) ::
              Dvas(Decref(t, bs[i].key, p), bs, y) == Dvas(t, bs, y)
  {
    hide Refs;
    var k := bs[i].key;
    var t' := Decref(t, k, p);
    forall y ensures Live(t', bs, i + 1, y) <==> Live(t, bs, i, y) && (y != Shared(k, p) || At(t[k], p).refcnt > 1)
             ensures Live(t', bs, i + 1, y) ==> Dvas(t', bs, y) == Dvas(t, bs, y)
    {
      match y
      case Shared(_, _) => hide Resolve;
      case Own(_) => hide Decref;
    }
  }

  lemma {:induction false} MatchingRun(s: State, bs: seq<Block>, i: nat)
    requires i <= |bs|
    requires ValidTable(s.table)
    requires Matches(s.table, s.unclaimed, bs, i)
    ensures RunBlocks(s, bs, i).Some?
    ensures RunBlocks(s, bs, i).value.unclaimed == {}
    ensures Settled(RunBlocks(s, bs, i).value.table)
    decreases |bs| - i
  {
    var t := s.table;
    if i == |bs| {
      forall k, p | k in t ensures At(t[k], p).refcnt == 0 {
        assert At(t[k], p).refcnt == Refs(t, bs, i, k, p);
      }
      assert forall u :: !Covered(t, bs, i, u);
      forall k | k in t ensures t[k].single.refcnt <= 1 && t[k].double.refcnt <= 1 && t[k].triple.refcnt <= 1 {
        assert At(t[k], Single).refcnt == 0 && At(t[k], Double).refcnt == 0 && At(t[k], Triple).refcnt == 0;
      }
    } else {
      match Resolve(t, bs[i]) {
        case None => OwnStep(s, bs, i);
        case Some(None) => assert false;
        case Some(Some(p)) => ShareStep(s, bs, i, p);
      }
      CountBalance(s, bs[i], 0);
      MatchingRun(Count(s, bs[i]).value, bs, i + 1);
    }
  }
}

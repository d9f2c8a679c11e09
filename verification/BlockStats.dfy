/** The table of block statistics zdb keeps per level and type, with a total row and a total
    column (cmd/zdb/zdb.c). */
module BlockStats {
  import opened PoolSpace
  import opened LeakCheck

  const OT_NUMTYPES: nat := 54
  const OT_DEFERRED: nat := OT_NUMTYPES + 0
  const OT_DITTO: nat := OT_NUMTYPES + 1
  const OT_OTHER: nat := OT_NUMTYPES + 2
  const OT_TOTAL: nat := OT_NUMTYPES + 3
  const ZB_TOTAL: nat := 20

  /** zdb_blkstats_t. */
  datatype Stats = Stats(asize: nat, lsize: nat, psize: nat, count: nat) {
    function Plus(x: Stats): Stats {
      Stats(asize + x.asize, lsize + x.lsize, psize + x.psize, count + x.count)
    }
  }

  const NOTHING := Stats(0, 0, 0, 0)

  function Of(b: Block): Stats {
    Stats(ASize(b.dvas), b.key.lsize, b.key.psize, 1)
  }

  /** A block as it was counted. */
  datatype Item = Item(block: Block, ot: nat) {
    predicate Valid() { block.level < ZB_TOTAL && ot < OT_TOTAL }
  }

  predicate InCell(x: Item, l: nat, t: nat) {
    (l == ZB_TOTAL || l == x.block.level) && (t == OT_TOTAL || t == x.ot)
  }

  /** What a cell holds once every item has been counted. */
  function Tally(log: seq<Item>, l: nat, t: nat): Stats {
    if log == [] then NOTHING
    else
      var rest := Tally(log[..|log| - 1], l, t);
      var x := log[|log| - 1];
      if InCell(x, l, t) then rest.Plus(Of(x.block)) else rest
  }

  datatype Figure = Asize | Lsize | Psize | Count

  function FigureOf(s: Stats, f: Figure): nat {
    match f case Asize => s.asize case Lsize => s.lsize case Psize => s.psize case Count => s.count
  }

  function BlockFigure(b: Block, f: Figure): nat {
    match f case Asize => ASize(b.dvas) case Lsize => b.key.lsize case Psize => b.key.psize case Count => 1
  }

  /** A figure added up over the blocks of a level and a type, or of any where the cell is a total. */
  function Total(log: seq<Item>, l: nat, t: nat, f: Figure): nat {
    if log == [] then 0
    else
      var x := log[|log| - 1];
      Total(log[..|log| - 1], l, t, f) +
      (if (x.block.level == l || l == 20) && (x.ot == t || t == 57) then BlockFigure(x.block, f) else 0)
  }

  /** Each figure of a cell is that figure added up. */
  lemma {:induction false} TallyExact(log: seq<Item>, l: nat, t: nat, f: Figure)
    ensures FigureOf(Tally(log, l, t), f) == Total(log, l, t, f)
  {
    if log == [] {
    } else {
      TallyExact(log[..|log| - 1], l, t, f);
    }
  }

  lemma TallySnoc(log: seq<Item>, x: Item, l: nat, t: nat)
    ensures Tally(log + [x], l, t) == if InCell(x, l, t) then Tally(log, l, t).Plus(Of(x.block)) else Tally(log, l, t)
  {
    assert (log + [x])[..|log|] == log;
  }

  /** The grand total counts every block. */
  lemma {:induction false} CountIsLength(log: seq<Item>)
    ensures Tally(log, ZB_TOTAL, OT_TOTAL).count == |log|
  {
    if log == [] {
    } else {
      CountIsLength(log[..|log| - 1]);
    }
  }

  function RowSum(log: seq<Item>, l: nat, n: nat): Stats {
    if n == 0 then NOTHING else RowSum(log, l, n - 1).Plus(Tally(log, l, n - 1))
  }

  function ColumnSum(log: seq<Item>, t: nat, n: nat): Stats {
    if n == 0 then NOTHING else ColumnSum(log, t, n - 1).Plus(Tally(log, n - 1, t))
  }

  ghost predicate AllValid(log: seq<Item>) {
    forall i | 0 <= i < |log| :: log[i].Valid()
  }

  lemma {:induction false} RowSnoc(log: seq<Item>, x: Item, l: nat, n: nat)
    requires n <= OT_TOTAL
    ensures RowSum(log + [x], l, n) ==
            if x.ot < n && InCell(x, l, OT_TOTAL) then RowSum(log, l, n).Plus(Of(x.block)) else RowSum(log, l, n)
  {
    if n == 0 {
    } else {
      RowSnoc(log, x, l, n - 1);
      TallySnoc(log, x, l, n - 1);
    }
  }

  lemma {:induction false} ColumnSnoc(log: seq<Item>, x: Item, t: nat, n: nat)
    requires n <= ZB_TOTAL
    ensures ColumnSum(log + [x], t, n) ==
            if x.block.level < n && InCell(x, ZB_TOTAL, t) then ColumnSum(log, t, n).Plus(Of(x.block))
            else ColumnSum(log, t, n)
  {
    if n == 0 {
    } else {
      ColumnSnoc(log, x, t, n - 1);
      TallySnoc(log, x, n - 1, t);
    }
  }

  lemma {:induction false} EmptySums(k: nat, n: nat)
    ensures RowSum([], k, n) == NOTHING && ColumnSum([], k, n) == NOTHING
  {
    if n == 0 {
    } else {
      EmptySums(k, n - 1);
    }
  }

  /** The total column is the sum of the types, on every level row. */
  lemma {:induction false} RowsAddUp(log: seq<Item>, l: nat)
    requires AllValid(log)
    requires l <= ZB_TOTAL
    ensures Tally(log, l, OT_TOTAL) == RowSum(log, l, OT_TOTAL)
  {
    if log == [] {
      EmptySums(l, OT_TOTAL);
    } else {
      var init, x := log[..|log| - 1], log[|log| - 1];
      assert log == init + [x];
      RowsAddUp(init, l);
      RowSnoc(init, x, l, OT_TOTAL);
    }
  }

  /** The total row is the sum of the levels, in every type column. */
  lemma {:induction false} ColumnsAddUp(log: seq<Item>, t: nat)
    requires AllValid(log)
    requires t <= OT_TOTAL
    ensures Tally(log, ZB_TOTAL, t) == ColumnSum(log, t, ZB_TOTAL)
  {
    if log == [] {
      EmptySums(t, ZB_TOTAL);
    } else {
      var init, x := log[..|log| - 1], log[|log| - 1];
      assert log == init + [x];
      ColumnsAddUp(init, t);
      ColumnSnoc(init, x, t, ZB_TOTAL);
    }
  }
}

/** The reclaim figure of zfs destroy -v: the space each maximal run of selected snapshots would
    free, added up over filesystems (cmd/zfs/zfs_main.c). */
module Reclaim {
  import opened Base

  /** A snapshot in creation order, and whether it is on the list to destroy. */
  datatype Snap = Snap(name: string, selected: bool)

  /** zfs_get_snapused_int: what destroying everything from one snapshot to another frees. */
  type Used = (string, string) -> Option<nat>

  // ----- maximal runs -----

  predicate Selected(snaps: seq<Snap>, i: int) {
    0 <= i < |snaps| && snaps[i].selected
  }

  /** Positions i to j are selected, and neither neighbour is. */
  ghost predicate IsRun(snaps: seq<Snap>, i: int, j: int) {
    && 0 <= i <= j < |snaps| && !Selected(snaps, i - 1) && !Selected(snaps, j + 1)
    && forall k | i <= k <= j :: Selected(snaps, k)
  }

  /** The last position of the run that goes on at i. */
  function RunEnd(snaps: seq<Snap>, i: nat): (j: nat)
    requires i < |snaps| && snaps[i].selected
    ensures i <= j < |snaps| && !Selected(snaps, j + 1) && forall k | i <= k <= j :: Selected(snaps, k)
    decreases |snaps| - i
  {
    if Selected(snaps, i + 1) then RunEnd(snaps, i + 1) else i
  }

  lemma RunsAreThese(snaps: seq<Snap>, i: nat, j: nat)
    ensures IsRun(snaps, i, j) <==>
            i < |snaps| && snaps[i].selected && !Selected(snaps, i - 1) && j == RunEnd(snaps, i)
  {
    if IsRun(snaps, i, j) {
      assert Selected(snaps, i);
      var e := RunEnd(snaps, i);
      assert j < e ==> Selected(snaps, j + 1);
      assert e < j ==> Selected(snaps, e + 1);
    }
  }

  function Value(o: Option<nat>): nat { if o.Some? then o.value else 0 }

  function RunUsed(used: Used, snaps: seq<Snap>, i: nat): Option<nat>
    requires i < |snaps| && snaps[i].selected
  {
    used(snaps[i].name, snaps[RunEnd(snaps, i)].name)
  }

  /** What the maximal runs that start before position n free together. */
  function Total(used: Used, snaps: seq<Snap>, n: nat): nat
    requires n <= |snaps|
  {
    if n == 0 then 0
    else
      Total(used, snaps, n - 1) +
      (if snaps[n - 1].selected && !Selected(snaps, n - 2) then Value(RunUsed(used, snaps, n - 1)) else 0)
  }

  /** All of them can be worked out. */
  predicate Known(used: Used, snaps: seq<Snap>, n: nat)
    requires n <= |snaps|
  {
    n > 0 ==>
      && Known(used, snaps, n - 1)
      && (snaps[n - 1].selected && !Selected(snaps, n - 2) ==> RunUsed(used, snaps, n - 1).Some?)
  }

  /** Within a run nothing is added after its start. */
  lemma {:induction false} WithinRun(used: Used, snaps: seq<Snap>, i: nat, n: nat)
    requires i < n <= |snaps| && Selected(snaps, i) && !Selected(snaps, i - 1)
    requires forall k | i <= k < n - 1 :: Selected(snaps, k)
    ensures Total(used, snaps, n) == Total(used, snaps, i) + Value(RunUsed(used, snaps, i))
    ensures Known(used, snaps, n) == (Known(used, snaps, i) && RunUsed(used, snaps, i).Some?)
    decreases n
  {
    if i + 1 >= n {
    } else {
      WithinRun(used, snaps, i, n - 1);
    }
  }

  lemma RunEndsHere(snaps: seq<Snap>, i: nat, n: nat)
    requires i < n <= |snaps| && !Selected(snaps, n)
    requires forall k | i <= k < n :: Selected(snaps, k)
    ensures Selected(snaps, i) && RunEnd(snaps, i) == n - 1
  {
    assert Selected(snaps, i);
    var e := RunEnd(snaps, i);
    assert e + 1 < n ==> Selected(snaps, e + 1);
    assert n <= e ==> Selected(snaps, n);
  }

  /** A filesystem with its snapshots in creation order and its children. */
  datatype Fs = Fs(snaps: seq<Snap>, kids: seq<Fs>)

  function TreeTotal(used: Used, fs: Fs, recurse: bool): nat {
    Total(used, fs.snaps, |fs.snaps|) + (if recurse then KidsTotal(used, fs.kids) else 0)
  }

  function KidsTotal(used: Used, kids: seq<Fs>): nat {
    if kids == [] then 0 else KidsTotal(used, kids[..|kids| - 1]) + TreeTotal(used, kids[|kids| - 1], true)
  }

  predicate TreeKnown(used: Used, fs: Fs, recurse: bool) {
    Known(used, fs.snaps, |fs.snaps|) && (recurse ==> KidsKnown(used, fs.kids))
  }

  predicate KidsKnown(used: Used, kids: seq<Fs>) {
    kids == [] || (KidsKnown(used, kids[..|kids| - 1]) && TreeKnown(used, kids[|kids| - 1], true))
  }

  lemma {:induction false} KidsKnownPrefix(used: Used, kids: seq<Fs>, n: nat)
    requires n <= |kids| && KidsKnown(used, kids)
    ensures KidsKnown(used, kids[..n])
    decreases |kids|
  {
    if n < |kids| {
      assert kids[..|kids| - 1][..n] == kids[..n];
      KidsKnownPrefix(used, kids[..|kids| - 1], n);
    } else {
      assert kids[..n] == kids;
    }
  }

  /** The part of destroy_cbdata_t that the figure is made from. */
  class Figure {
    const used: Used
    var firstSnap: Option<string>
    var prevSnap: Option<string>
    var snapUsed: nat

    constructor (used: Used)
      ensures this.used == used && Idle() && snapUsed == 0
    {
      this.used, firstSnap, prevSnap, snapUsed := used, None, None, 0;
    }

    /** No run is open. */
    predicate Idle()
      reads this
    {
      firstSnap.None? && prevSnap.None?
    }

    /** Close the run. */
    method Close() returns (err: bool)
      requires firstSnap.Some? && prevSnap.Some?
      modifies this
      ensures Idle()
      ensures var u := used(old(firstSnap).value, old(prevSnap).value);
              err == u.None? && snapUsed == old(snapUsed) + Value(u)
    {
      var u := used(firstSnap.value, prevSnap.value);
      snapUsed := snapUsed + Value(u);
      err := u.None?;
      firstSnap, prevSnap := None, None;
    }

    /** destroy_print_cb. */
    method PrintCb(s: Snap) returns (err: bool)
      requires firstSnap.Some? == prevSnap.Some?
      modifies this
      ensures s.selected ==>
                && !err && snapUsed == old(snapUsed) && prevSnap == Some(s.name)
                && firstSnap == (if old(firstSnap).None? then Some(s.name) else old(firstSnap))
      ensures !s.selected ==> Idle()
      ensures !s.selected && old(firstSnap).None? ==> !err && snapUsed == old(snapUsed)
      ensures !s.selected && old(firstSnap).Some? ==>
                var u := used(old(firstSnap).value, old(prevSnap).value);
                err == u.None? && snapUsed == old(snapUsed) + Value(u)
    {
      err := false;
      if s.selected {
        if firstSnap.None? {
          firstSnap := Some(s.name);
        }
        prevSnap := Some(s.name);
      } else if firstSnap.Some? {
        err := Close();
      }
    }

    /** Where the run that is open at position n began; n itself if none is. */
    ghost predicate At(snaps: seq<Snap>, n: nat, start: nat)
      reads this
    {
      && start <= n <= |snaps| && !Selected(snaps, start - 1)
      && (forall k | start <= k < n :: Selected(snaps, k))
      && (start == n ==> Idle())
      && (start < n ==> firstSnap == Some(snaps[start].name) && prevSnap == Some(snaps[n - 1].name))
    }

    /** destroy_print_snapshots: exactly the maximal runs are added. */
    method PrintSnapshots(snaps: seq<Snap>) returns (err: bool)
      requires Idle()
      modifies this
      ensures Idle()
      ensures !err <==> Known(used, snaps, |snaps|)
      ensures !err ==> snapUsed == old(snapUsed) + Total(used, snaps, |snaps|)
    {
      err := false;
      ghost var start := 0;
      for n := 0 to |snaps|
        invariant At(snaps, n, start)
        invariant !err <==> Known(used, snaps, start)
        invariant !err ==> snapUsed == old(snapUsed) + Total(used, snaps, start)
      {
        var e := PrintCb(snaps[n]);
        err := err || e;
        if !snaps[n].selected {
          if start < n {
            RunEndsHere(snaps, start, n);
            WithinRun(used, snaps, start, n);
          }
          start := n + 1;
        }
      }
      if firstSnap.Some? {
        RunEndsHere(snaps, start, |snaps|);
        WithinRun(used, snaps, start, |snaps|);
        if err {
          firstSnap, prevSnap := None, None;
        } else {
          err := Close();
        }
      }
    }

    /** gather_snapshots with -v: a filesystem and, with -r, those below it; no run is ever open when
        a filesystem starts. */
    method Gather(fs: Fs, recurse: bool) returns (err: bool)
      requires Idle()
      modifies this
      ensures Idle()
      ensures !err <==> TreeKnown(used, fs, recurse)
      ensures !err ==> snapUsed == old(snapUsed) + TreeTotal(used, fs, recurse)
      decreases fs
    {
      err := PrintSnapshots(fs.snaps);
      if err {
        return;
      }
      if recurse {
        var kids := fs.kids;
        label entered:
        for n := 0 to |kids|
          invariant Idle() && KidsKnown(used, kids[..n])
          invariant snapUsed == old@entered(snapUsed) + KidsTotal(used, kids[..n])
        {
          assert kids[..n + 1][..n] == kids[..n];
          err := Gather(kids[n], true);
          if err {
            if KidsKnown(used, kids) {
              KidsKnownPrefix(used, kids, n + 1);
            }
            return;
          }
        }
        assert kids[..|kids|] == kids;
      }
    }
  }
}

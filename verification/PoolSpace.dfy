/** Allocated space, block pointers into it, and claiming a block: metaslab_claim run against
    the space maps that zdb has loaded (module/zfs/metaslab.c). */
module PoolSpace {
  import opened Base

  /** One copy of a block: a range inside one metaslab of one top-level vdev. `ms` is
      offset >> vdev_ms_shift. */
  datatype Dva = Dva(vdev: nat, ms: nat, offset: nat, asize: nat)

  /** A byte of allocatable space, as one metaslab's map knows it. */
  datatype Unit = Unit(vdev: nat, ms: nat, at: int)

  function Extent(d: Dva): set<Unit> {
    set o | d.offset <= o < d.offset + d.asize && Between(d.offset, o, d.offset + d.asize) :: Unit(d.vdev, d.ms, o)
  }

  lemma {:induction false} ExtentSize(d: Dva)
    ensures |Extent(d)| == d.asize
    decreases d.asize
  {
    if d.asize == 0 {
    } else {
      var d' := d.(asize := d.asize - 1);
      ExtentSize(d');
      assert Extent(d) == Extent(d') + {Unit(d.vdev, d.ms, d.offset + d.asize - 1)};
    }
  }

  /** BP_GET_ASIZE. */
  function ASize(dvas: seq<Dva>): nat {
    if dvas == [] then 0 else dvas[0].asize + ASize(dvas[1..])
  }

  ghost function Extents(dvas: seq<Dva>): set<Unit> {
    if dvas == [] then {} else Extent(dvas[0]) + Extents(dvas[1..])
  }

  /** Copies that are real and do not overlap each other. */
  ghost predicate Separate(dvas: seq<Dva>) {
    dvas != [] ==>
      && dvas[0].asize > 0
      && Extent(dvas[0]) !! Extents(dvas[1..])
      && Separate(dvas[1..])
  }

  lemma {:induction false} ExtentsSize(dvas: seq<Dva>)
    requires Separate(dvas)
    ensures |Extents(dvas)| == ASize(dvas)
  {
    if dvas == [] {
    } else {
      ExtentSize(dvas[0]);
      ExtentsSize(dvas[1..]);
    }
  }

  // ----- claiming -----

  /** metaslab_claim_dva with txg 0: is the whole range still in the metaslab's map? */
  predicate Claimable(space: set<Unit>, d: Dva) {
    d.asize > 0 && Extent(d) <= space
  }

  /** metaslab_claim with txg 0. */
  predicate DryRun(space: set<Unit>, dvas: seq<Dva>) {
    forall i | 0 <= i < |dvas| :: Claimable(space, dvas[i])
  }

  /** The second pass of metaslab_claim, copy by copy. */
  ghost function ClaimEach(space: set<Unit>, dvas: seq<Dva>): Option<set<Unit>> {
    if dvas == [] then Some(space)
    else if Claimable(space, dvas[0]) then ClaimEach(space - Extent(dvas[0]), dvas[1..])
    else None
  }

  /** metaslab_claim: txg 0 only looks, any other txg takes the space out of the maps. None is
      an error return, which zdb VERIFYs away. */
  ghost function Claim(space: set<Unit>, dvas: seq<Dva>, look: bool): Option<set<Unit>> {
    if !DryRun(space, dvas) then None
    else if look then Some(space)
    else ClaimEach(space, dvas)
  }

  lemma {:induction false} ClaimEachIff(space: set<Unit>, dvas: seq<Dva>)
    ensures ClaimEach(space, dvas) ==
            if Separate(dvas) && Extents(dvas) <= space then Some(space - Extents(dvas)) else None
    decreases |dvas|
  {
    if dvas == [] {
      assert space - {} == space;
    } else if Claimable(space, dvas[0]) {
      var rest := space - Extent(dvas[0]);
      ClaimEachIff(rest, dvas[1..]);
      assert rest - Extents(dvas[1..]) == space - Extents(dvas);
      if Extents(dvas[1..]) <= rest {
        assert Extent(dvas[0]) !! Extents(dvas[1..]);
      }
    }
  }

  lemma {:induction false} LooksClaimable(space: set<Unit>, dvas: seq<Dva>)
    requires Separate(dvas)
    requires Extents(dvas) <= space
    ensures DryRun(space, dvas)
  {
    if dvas == [] {
    } else {
      LooksClaimable(space, dvas[1..]);
      forall i | 0 <= i < |dvas| ensures Claimable(space, dvas[i]) {
        assert i > 0 ==> dvas[i] == dvas[1..][i - 1];
      }
    }
  }

  /** A claim takes exactly the block's bytes, or fails: when one is no longer in the maps (a
      double allocation or a freed block) or when two copies overlap. */
  lemma ClaimExact(space: set<Unit>, dvas: seq<Dva>)
    ensures Claim(space, dvas, false) ==
            if Separate(dvas) && Extents(dvas) <= space then Some(space - Extents(dvas)) else None
    ensures Claim(space, dvas, false).Some? ==>
              |Claim(space, dvas, false).value| == |space| - ASize(dvas)
  {
    ClaimEachIff(space, dvas);
    if Separate(dvas) && Extents(dvas) <= space {
      LooksClaimable(space, dvas);
      ExtentsSize(dvas);
      SubsetSize(Extents(dvas), space);
    }
  }
}

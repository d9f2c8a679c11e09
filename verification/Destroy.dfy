/** zfs destroy: the check for dependents, then the destruction, both by the same walk over
    children, snapshots and clones (cmd/zfs/zfs_main.c, lib/libzfs/libzfs_iter.c). */
module Destroy {
  import opened Datasets
  import opened DependentChains

  // ----- what the check is about -----

  /** destroy_check_dependent has something to say about the dependent `n` of the target `t`. */
  predicate Complains(w: World, recurse: bool, t: Name, n: Name) {
    if Below(t, n) then !recurse else recurse || w.kind(t).Snapshot?
  }

  /** Something stands in the way: a child or a snapshot if there is no -r, and with -r but no -R
      a dependent outside the name subtree of something inside it. */
  ghost predicate Obstructed(w: World, recurse: bool, t: Name, alive: set<Name>) {
    if !recurse then exists n | n in alive :: Below(t, n)
    else exists n, m | n in alive && m in alive && Inside(t, n) :: w.Dependent(n, m) && !Inside(t, m)
  }

  ghost predicate Quiet(w: World, recurse: bool, t: Name, seen: set<Name>) {
    forall n | n in seen :: !Complains(w, recurse, t, n)
  }

  lemma QuietAdd(w: World, recurse: bool, t: Name, seen: set<Name>, n: Name)
    ensures Quiet(w, recurse, t, seen + {n}) <==> Quiet(w, recurse, t, seen) && !Complains(w, recurse, t, n)
  {
    assert n in seen + {n};
    assert forall m | m in seen :: m in seen + {n};
  }

  ghost function Family(t: Name, alive: set<Name>): set<Name> {
    set n | n in alive && Inside(t, n)
  }

  lemma FamilyClosed(w: World, recurse: bool, t: Name, alive: set<Name>)
    requires w.Valid() && w.Rooted(alive) && t in alive && !w.kind(t).Snapshot?
    requires !Obstructed(w, recurse, t, alive)
    ensures w.Closed(Family(t, alive), alive)
    ensures forall n | n in Family(t, alive) && n != t :: !Complains(w, recurse, t, n)
  {
    forall n, m | n in Family(t, alive) && m in w.Next(n) ensures m in alive ==> m in Family(t, alive) {
      assert recurse || n == t;
    }
  }

  lemma ObstructionSeen(w: World, recurse: bool, t: Name, alive: set<Name>, c: set<Name>)
    requires w.Valid() && w.Rooted(alive) && !w.kind(t).Snapshot? && Obstructed(w, recurse, t, alive)
    requires t in c && w.Closed(c, alive)
    ensures exists n | n in c && n != t :: Complains(w, recurse, t, n)
  {
    hide World.Valid, World.Rooted, World.Dependent, Below;
    if !recurse {
      var n :| n in alive && Below(t, n);
      SubtreeDepends(w, c, alive, t, n);
      BelowNotSelf(t, n);
      assert Complains(w, recurse, t, n);
    } else {
      var n, m :| n in alive && m in alive && Inside(t, n) && w.Dependent(n, m) && !Inside(t, m);
      if n != t {
        SubtreeDepends(w, c, alive, t, n);
      }
      ReachNext(w, c, alive, n);
      assert m in w.Next(n);
      assert Complains(w, recurse, t, m);
    }
  }

  lemma BelowNotSelf(t: Name, n: Name)
    requires Below(t, n)
    ensures n != t
  {
  }

  /** The walk keeps quiet exactly when nothing stands in the way. */
  lemma Verdict(w: World, recurse: bool, t: Name, alive: set<Name>, seen: set<Name>)
    requires w.Valid() && w.Rooted(alive) && t in alive && !w.kind(t).Snapshot?
    requires t !in seen && w.Closed(seen + {t}, alive)
    requires Obstructed(w, recurse, t, alive) || seen <= Family(t, alive)
    ensures Quiet(w, recurse, t, seen) <==> !Obstructed(w, recurse, t, alive)
  {
    if Obstructed(w, recurse, t, alive) {
      ObstructionSeen(w, recurse, t, alive, seen + {t});
    } else {
      FamilyClosed(w, recurse, t, alive);
    }
  }

  lemma ReachNext(w: World, reach: set<Name>, alive: set<Name>, n: Name)
    requires w.Closed(reach, alive) && n in reach
    ensures forall m | m in w.Next(n) :: m in alive ==> m in reach
  {
  }

  lemma SeenIsClosed(w: World, seen: set<Name>, alive: set<Name>, t: Name)
    requires SeenUpTo(w, seen, alive, {t}) && Listed(w.Next(t), seen, alive, {t})
    ensures w.Closed(seen + {t}, alive)
  {
  }

  predicate HasClone(w: World, alive: set<Name>, s: Name) {
    exists m | m in alive :: w.Dependent(s, m)
  }

  function Cloned(w: World, alive: set<Name>, snaps: set<Name>): set<Name> {
    set s | s in snaps && HasClone(w, alive, s)
  }

  ghost predicate AnyCloned(w: World, alive: set<Name>, snaps: set<Name>) {
    exists s | s in snaps :: HasClone(w, alive, s)
  }

  predicate Snapshots(w: World, snaps: set<Name>) {
    forall s | s in snaps :: s in w.names && w.kind(s).Snapshot?
  }

  lemma ClonesGone(w: World, alive: set<Name>, snaps: set<Name>)
    ensures (forall s, m | s in snaps && m in w.Next(s) :: m !in alive) ==>
            forall s, left | s in snaps && left <= alive :: !HasClone(w, left, s)
  {
  }

  lemma NoneCloned(w: World, alive: set<Name>, snaps: set<Name>)
    ensures (forall s | s in snaps :: !HasClone(w, alive, s)) <==> !AnyCloned(w, alive, snaps)
    ensures Cloned(w, alive, snaps) == {} <==> !AnyCloned(w, alive, snaps)
  {
    hide HasClone;
    assert Cloned(w, alive, snaps) == {} <==> forall s | s in snaps :: s !in Cloned(w, alive, snaps);
  }

  lemma SnapshotsGo(w: World, alive: set<Name>, gone: set<Name>)
    requires w.Valid() && w.Rooted(alive)
    requires forall s | s in gone :: !HasClone(w, alive, s)
    ensures w.Rooted(alive - gone)
  {
  }

  lemma AnyClonedAdd(w: World, alive: set<Name>, snaps: set<Name>, s: Name)
    ensures AnyCloned(w, alive, snaps + {s}) <==> AnyCloned(w, alive, snaps) || HasClone(w, alive, s)
  {
    if AnyCloned(w, alive, snaps) {
      var t :| t in snaps && HasClone(w, alive, t);
      assert t in snaps + {s};
    }
    assert s in snaps + {s};
  }

  /** Checking a snapshot keeps quiet exactly when it has no clone. */
  lemma SnapshotVerdict(w: World, recurse: bool, s: Name, alive: set<Name>, seen: set<Name>)
    requires w.Valid() && s in w.names && w.kind(s).Snapshot?
    requires seen <= w.names && Listed(w.Next(s), seen, alive, {s})
    requires HasClone(w, alive, s) || seen == {}
    ensures Quiet(w, recurse, s, seen) <==> !HasClone(w, alive, s)
  {
    if HasClone(w, alive, s) {
      var m :| m in w.Next(s) && m in alive;
      NothingUnderSnapshot(w, s, m);
      assert m in seen && Complains(w, recurse, s, m);
    }
  }

  // ----- which snapshots are meant -----

  ghost predicate Picks(w: World, pick: Name -> seq<Name>) {
    forall n, s | n in w.names && s in pick(n) :: s in w.snaps(n) && s in w.names
  }

  lemma AliveNamed(w: World, alive: set<Name>, n: Name)
    requires w.Rooted(alive) && n in alive
    ensures n in w.names
  {
  }

  lemma PicksSnapshots(w: World, pick: Name -> seq<Name>, alive: set<Name>, fs: Name)
    requires w.Valid() && w.Rooted(alive) && Picks(w, pick) && fs in alive
    ensures forall s | s in pick(fs) :: s in w.names && w.kind(s).Snapshot?
  {
  }

  predicate Within(recurse: bool, fs: Name, f: Name) { f == fs || (recurse && Below(fs, f)) }

  ghost predicate Named(pick: Name -> seq<Name>, recurse: bool, alive: set<Name>, fs: Name, s: Name) {
    exists f | f in alive && Within(recurse, fs, f) :: s in pick(f)
  }

  /** The existing snapshots the list names, of `fs` alone or of everything below it too. */
  ghost function Chosen(pick: Name -> seq<Name>, recurse: bool, alive: set<Name>, fs: Name): set<Name> {
    set s | s in alive && Named(pick, recurse, alive, fs, s)
  }

  lemma ChosenAreSnapshots(w: World, pick: Name -> seq<Name>, recurse: bool, alive: set<Name>, fs: Name)
    requires w.Valid() && w.Rooted(alive) && Picks(w, pick)
    ensures Snapshots(w, Chosen(pick, recurse, alive, fs)) && Chosen(pick, recurse, alive, fs) <= w.names
  {
    hide World.Valid, World.Rooted, Picks;
    forall s | s in Chosen(pick, recurse, alive, fs) ensures s in w.names && w.kind(s).Snapshot? {
      var f :| f in alive && Within(recurse, fs, f) && s in pick(f);
      PicksSnapshots(w, pick, alive, f);
    }
  }

  ghost function Existing(list: seq<Name>, alive: set<Name>): set<Name> {
    set s | s in list && s in alive
  }

  lemma ExistingSnoc(list: seq<Name>, alive: set<Name>, i: nat)
    requires i < |list|
    ensures Existing(list[..i + 1], alive) == Existing(list[..i], alive) + (if list[i] in alive then {list[i]} else {})
  {
    assert list[..i + 1] == list[..i] + [list[i]];
  }

  ghost function ChosenEach(pick: Name -> seq<Name>, alive: set<Name>, kids: seq<Name>): set<Name> {
    if kids == [] then {}
    else ChosenEach(pick, alive, kids[..|kids| - 1]) +
         (if kids[|kids| - 1] in alive then Chosen(pick, true, alive, kids[|kids| - 1]) else {})
  }

  lemma {:induction false} ChosenEachHas(pick: Name -> seq<Name>, alive: set<Name>, kids: seq<Name>, k: Name)
    requires k in kids && k in alive
    ensures Chosen(pick, true, alive, k) <= ChosenEach(pick, alive, kids)
  {
    if k == kids[|kids| - 1] {
    } else {
      ChosenEachHas(pick, alive, kids[..|kids| - 1], k);
    }
  }

  lemma {:induction false} ChosenEachFrom(pick: Name -> seq<Name>, alive: set<Name>, kids: seq<Name>, fs: Name)
    requires forall k | k in kids :: Below(fs, k)
    ensures ChosenEach(pick, alive, kids) <= Chosen(pick, true, alive, fs)
  {
    if kids == [] {
    } else {
      ChosenEachFrom(pick, alive, kids[..|kids| - 1], fs);
      var k := kids[|kids| - 1];
      forall s | s in Chosen(pick, true, alive, k) ensures s in Chosen(pick, true, alive, fs) {
        var f :| f in alive && Within(true, k, f) && s in pick(f);
        if f != k {
          BelowTrans(fs, k, f);
        }
      }
    }
  }

  lemma NamedStep(w: World, pick: Name -> seq<Name>, alive: set<Name>, fs: Name, s: Name)
    requires w.Valid() && w.Rooted(alive) && Picks(w, pick)
    requires s in Chosen(pick, true, alive, fs) && s !in pick(fs)
    ensures w.kind(fs).Filesystem? && s in ChosenEach(pick, alive, w.kids(fs))
  {
    var f :| f in alive && Within(true, fs, f) && s in pick(f);
    if w.kind(f).Snapshot? {
      NothingUnderSnapshot(w, f, s);
    }
    var k := FirstStep(w, alive, fs, f);
    ChosenEachHas(pick, alive, w.kids(fs), k);
    assert Named(pick, true, alive, k, s);
  }

  lemma ChosenStep(w: World, pick: Name -> seq<Name>, recurse: bool, alive: set<Name>, fs: Name)
    requires w.Valid() && w.Rooted(alive) && Picks(w, pick) && fs in alive
    ensures Chosen(pick, recurse, alive, fs) == Existing(pick(fs), alive) +
            (if recurse && w.kind(fs).Filesystem? then ChosenEach(pick, alive, w.kids(fs)) else {})
  {
    if recurse {
      forall s | s in Chosen(pick, true, alive, fs) && s !in pick(fs)
        ensures w.kind(fs).Filesystem? && s in ChosenEach(pick, alive, w.kids(fs))
      {
        NamedStep(w, pick, alive, fs, s);
      }
      if w.kind(fs).Filesystem? {
        assert fs in w.names;
        ChosenEachFrom(pick, alive, w.kids(fs), fs);
      }
    }
    hide World.Valid, World.Rooted, Picks, ChosenEach;
    assert forall s | s in Existing(pick(fs), alive) :: Within(recurse, fs, fs) && Named(pick, recurse, alive, fs, s);
  }

  // ----- what can keep the dependents from going -----

  /** Without -r there is nothing to keep a dataset that passes the check. */
  lemma NoneToBlock(w: World, alive: set<Name>, busy: set<Name>, t: Name)
    requires w.Valid() && w.Rooted(alive) && t in alive && !w.kind(t).Snapshot?
    requires !Obstructed(w, false, t, alive)
    ensures !Blocked(w, alive, busy, t)
  {
    FamilyClosed(w, false, t, alive);
    hide World.Valid, World.Rooted, Family;
    forall c | Chain(w, alive, c) && c[0] == t ensures |c| == 1 {
      if |c| > 1 {
        assert Step(w, alive, c[0], c[0 + 1]);
        NextBelow(w, t, c[1]);
      }
    }
  }

  lemma NextBelow(w: World, t: Name, m: Name)
    requires w.Valid() && t in w.names && !w.kind(t).Snapshot? && m in w.Next(t)
    ensures Below(t, m)
  {
  }

  /** With -r and no dependent outside the subtree, what blocks is something in the subtree that cannot
      go, or a chain of dependents that comes back to itself. */
  lemma SubtreeBlocked(w: World, alive: set<Name>, busy: set<Name>, t: Name)
    requires w.Valid() && w.Rooted(alive) && t in alive && !w.kind(t).Snapshot?
    requires !Obstructed(w, true, t, alive)
    ensures Blocked(w, alive, busy, t) <==>
            || (exists n | n in alive && n in busy :: Below(t, n))
            || (exists c :: Chain(w, alive, c) && c[0] == t && Circular(w, c))
  {
    FamilyClosed(w, true, t, alive);
    if n :| n in alive && n in busy && Below(t, n) {
      SubtreeChain(w, alive, t, n);
      var c :| Chain(w, alive, c) && |c| > 1 && c[0] == t && c[|c| - 1] == n;
      assert Stuck(w, busy, c);
    }
    hide World.Valid, World.Rooted, World.Closed;
    if Blocked(w, alive, busy, t) {
      var c :| Chain(w, alive, c) && c[0] == t && Stuck(w, busy, c);
      if !Circular(w, c) {
        ChainInside(w, alive, Family(t, alive), c, |c| - 1);
        assert c[0] != c[|c| - 1];
      }
    }
  }

  /** Whatever depends on what was seen was seen as well, or is being visited. */
  ghost predicate SeenUpTo(w: World, seen: set<Name>, alive: set<Name>, stack: set<Name>) {
    forall n, m | n in seen && m in w.Next(n) :: m in alive ==> m in seen + stack
  }

  ghost predicate Listed(next: seq<Name>, seen: set<Name>, alive: set<Name>, stack: set<Name>) {
    forall m | m in next :: m in alive ==> m in seen + stack
  }

  lemma OneFurther(w: World, busy: set<Name>, base: set<Name>, alive: set<Name>, order: seq<Name>,
                   chain: seq<Name>, m: Name)
    requires Orderly(w, busy, base, alive, order) && Chain(w, base, chain)
    requires m in w.Next(chain[|chain| - 1]) && m in alive
    ensures var c := chain + [m]; Chain(w, base, c) && c[0] == chain[0] && c[|c| - 1] == m && c[..|c| - 1] == chain
  {
    Longer(w, base, chain, m);
  }

  lemma StillClosed(w: World, reach: set<Name>, alive: set<Name>, left: set<Name>)
    requires w.Closed(reach, alive) && left <= alive
    ensures w.Closed(reach, left)
  {
  }

  lemma FirstLink(w: World, alive: set<Name>, n: Name)
    ensures Chain(w, alive, [n]) && Filesystems(w, [n][..0]) == {}
  {
  }

  /** destroy_cbdata_t and the pool it acts on. */
  class Destroyer {
    const w: World
    /** Datasets that cannot be unmounted or that the kernel refuses to destroy. */
    const busy: set<Name>
    const recurse: bool
    const doClones: bool
    const deferDestroy: bool
    /** The snapshots of a filesystem that the snapshot list on the command line names. */
    const pick: Name -> seq<Name>
    var alive: set<Name>
    var first: bool
    var error: bool
    var dryRun: bool
    var target: Name
    var nvl: set<Name>
    /** Snapshots left for the kernel to destroy once their last clone goes. */
    var deferred: set<Name>
    /** The names the checking callback was given for this target. */
    ghost var seen: set<Name>
    /** What was destroyed one by one, in this order. */
    ghost var order: seq<Name>

    constructor (w: World, busy: set<Name>, recurse: bool, doClones: bool, deferDestroy: bool, dryRun: bool,
                 alive: set<Name>, target: Name, pick: Name -> seq<Name>)
      ensures this.w == w && this.busy == busy && this.recurse == recurse && this.doClones == doClones
      ensures this.deferDestroy == deferDestroy && this.dryRun == dryRun && this.alive == alive
      ensures this.target == target && this.pick == pick && first && !error && seen == {} && nvl == {} && order == []
    {
      this.w, this.busy, this.recurse, this.doClones := w, busy, recurse, doClones;
      this.deferDestroy, this.dryRun, this.alive, this.target := deferDestroy, dryRun, alive, target;
      this.pick, first, error, seen, nvl, deferred, order := pick, true, false, {}, {}, {}, [];
    }

    // ----- the callbacks -----

    /** The error is up once something was complained of. */
    ghost predicate Noticed()
      reads this
    {
      first == Quiet(w, recurse, target, seen) && (!first ==> error)
    }

    /** destroy_check_dependent. */
    method CheckDependent(n: Name)
      requires Noticed()
      modifies this`first, this`error, this`dryRun, this`seen
      ensures Noticed() && seen == old(seen) + {n}
      ensures (error <==> old(error) || !first) && (first ==> old(first))
      ensures dryRun <==> old(dryRun) || (old(first) && !first && !Below(target, n))
    {
      QuietAdd(w, recurse, target, seen, n);
      seen := seen + {n};
      if Below(target, n) {
        if recurse {
          return;
        }
        if first {
          first, error := false, true;
        }
      } else {
        if !recurse && !w.kind(target).Snapshot? {
          return;
        }
        if first {
          first, error, dryRun := false, true, true;
        }
      }
    }

    /** The kernel destroys what nothing depends on. */
    method KernelDestroy(n: Name, ghost base: set<Name>) returns (ok: bool)
      requires w.Valid() && w.Rooted(alive) && n in w.names && Orderly(w, busy, base, alive, order)
      modifies this`alive, this`order
      ensures w.Rooted(alive) && Orderly(w, busy, base, alive, order)
      ensures ok <==> n !in busy && forall m | m in w.Next(n) :: m !in old(alive)
      ensures ok ==> alive == old(alive) - {n}
      ensures !ok ==> alive == old(alive)
    {
      hide Orderly;
      ok := n !in busy && forall m | m in w.Next(n) :: m !in alive;
      if ok {
        if n in alive {
          OneGoes(w, busy, base, alive, order, n);
          order := order + [n];
        }
        assert n !in alive ==> alive - {n} == alive;
        alive := alive - {n};
      }
    }

    /** destroy_callback; true is failure. */
    method DestroyCallback(n: Name, ghost base: set<Name>) returns (failed: bool)
      requires w.Valid() && w.Rooted(alive) && n in w.names && Orderly(w, busy, base, alive, order)
      modifies this`alive, this`order
      ensures w.Rooted(alive) && Orderly(w, busy, base, alive, order)
      ensures old(alive) - {n} <= alive <= old(alive)
      ensures dryRun || w.IsPool(n) ==> !failed && alive == old(alive)
      ensures !dryRun && !w.IsPool(n) ==>
                (failed <==> n in busy || exists m | m in w.Next(n) :: m in old(alive))
      ensures !failed && !dryRun && !w.IsPool(n) ==> n !in alive
    {
      hide Orderly, World.Valid, World.Rooted;
      if w.IsPool(n) {
        return false;
      }
      if !dryRun {
        var ok := KernelDestroy(n, base);
        return !ok;
      }
      failed := false;
    }

    // ----- the walk, checking -----

    /** What holds while a checking walk is under way: a target that is not a snapshot is on the
        stack, so it is never given to the callback. */
    ghost predicate Checking(stack: set<Name>, reach: set<Name>)
      reads this
    {
      && Noticed() && SeenUpTo(w, seen, alive, stack)
      && (!w.kind(target).Snapshot? ==> target !in seen)
      && seen <= reach && w.Closed(reach, alive)
    }

    /** iter_dependents_cb with destroy_check_dependent: a cycle is passed over, so nothing fails. */
    method CheckFrom(n: Name, stack: set<Name>, start: bool, ghost reach: set<Name>)
      requires w.Valid() && n in w.names && Checking(stack, reach)
      requires if start then n == target else n in reach && (w.kind(target).Snapshot? || target in stack)
      requires forall m | m in w.Next(n) :: m in alive ==> m in reach
      modifies this`first, this`error, this`dryRun, this`seen
      ensures Checking(if start then stack + {n} else stack, reach)
      ensures old(seen) <= seen && (!start ==> n in seen + stack)
      ensures n !in stack ==> Listed(w.Next(n), seen, alive, stack + {n})
      ensures (error <==> old(error) || !first) && (first ==> old(first))
      ensures !error ==> dryRun == old(dryRun)
      decreases w.names - stack, if w.kind(n).Snapshot? then 1 else 0, 1
    {
      hide Quiet, World.Valid, World.Closed;
      if !w.kind(n).Snapshot? && n in stack {
        return;
      }
      CheckEach(n, w.Next(n), if w.kind(n).Snapshot? then stack else stack + {n}, reach);
      if !start {
        CheckDependent(n);
      }
    }

    method CheckEach(n: Name, next: seq<Name>, stack: set<Name>, ghost reach: set<Name>)
      requires w.Valid() && n in w.names && next == w.Next(n) && Checking(stack, reach)
      requires w.kind(target).Snapshot? || target in stack
      requires forall m | m in next :: m in alive ==> m in reach
      modifies this`first, this`error, this`dryRun, this`seen
      ensures Checking(stack, reach) && Listed(next, seen, alive, stack)
      ensures old(seen) <= seen
      ensures (error <==> old(error) || !first) && (first ==> old(first))
      ensures !error ==> dryRun == old(dryRun)
      decreases w.names - stack, if w.kind(n).Snapshot? then 1 else 2, 0
    {
      hide Quiet, World.Valid, World.Closed;
      for i := 0 to |next|
        invariant Checking(stack, reach) && Listed(next[..i], seen, alive, stack)
        invariant old(seen) <= seen
        invariant (error <==> old(error) || !first) && (first ==> old(first))
        invariant !error ==> dryRun == old(dryRun)
      {
        if next[i] in alive {
          NextFacts(w, n, next[i]);
          assert forall m | m in w.Next(next[i]) :: m in alive ==> m in reach by {
            ReachNext(w, reach, alive, next[i]);
          }
          CheckFrom(next[i], stack, false, reach);
        }
        assert next[..i + 1] == next[..i] + [next[i]];
      }
      assert next[..|next|] == next;
    }

    // ----- the walk, destroying -----

    /** What can keep a dataset from going. */
    ghost function Hindrances(): set<Name>
      reads this`dryRun
    {
      if dryRun then {} else busy
    }

    /** iter_dependents_cb with destroy_callback: a cycle is an error. `chain` is how `n` was come to, among
        what existed at the outset. */
    method DestroyFrom(n: Name, stack: set<Name>, start: bool, ghost reach: set<Name>, ghost base: set<Name>,
                       ghost chain: seq<Name>) returns (failed: bool)
      requires w.Valid() && w.Rooted(alive) && n in w.names && n in reach && w.Closed(reach, alive)
      requires !start ==> !w.IsPool(n)
      requires Orderly(w, busy, base, alive, order)
      requires chain != [] && Chain(w, base, chain) && chain[|chain| - 1] == n
      requires stack == Filesystems(w, chain[..|chain| - 1]) && (start <==> |chain| == 1)
      modifies this`alive, this`order
      ensures w.Rooted(alive) && w.Closed(reach, alive) && Orderly(w, busy, base, alive, order)
      ensures old(alive) - reach <= alive <= old(alive)
      ensures dryRun ==> alive == old(alive)
      ensures forall p | p in old(alive) && w.IsPool(p) :: p in alive
      ensures !failed && !dryRun ==> forall m | m in w.Next(n) :: m !in alive
      ensures !failed && !dryRun && !start ==> n !in alive
      ensures failed ==> Blocked(w, base, Hindrances(), chain[0])
      ensures !failed && dryRun ==> Free(w, alive, stack, n)
      decreases w.names - stack, if w.kind(n).Snapshot? then 1 else 0, 1
    {
      hide World.Valid, World.Rooted, World.Closed, Chain, Blocked, Free, Orderly;
      if !w.kind(n).Snapshot? && n in stack {
        MetAgain(w, base, Hindrances(), chain);
        return true;
      }
      ghost var on := if w.kind(n).Snapshot? then stack else stack + {n};
      FilesystemsLonger(w, chain[..|chain| - 1], n);
      assert chain[..|chain| - 1] + [n] == chain;
      failed := DestroyEach(n, w.Next(n), if w.kind(n).Snapshot? then stack else stack + {n}, reach, base, chain);
      if !failed && dryRun {
        FreeStep(w, alive, stack, n);
      }
      if !start && !failed {
        ghost var was := alive;
        failed := DestroyCallback(n, base);
        StillClosed(w, reach, was, alive);
        if failed {
          InUse(w, base, busy, chain);
        }
      }
    }

    method DestroyEach(n: Name, next: seq<Name>, stack: set<Name>, ghost reach: set<Name>, ghost base: set<Name>,
                       ghost chain: seq<Name>) returns (failed: bool)
      requires w.Valid() && w.Rooted(alive) && n in w.names && n in reach && w.Closed(reach, alive)
      requires next == w.Next(n)
      requires Orderly(w, busy, base, alive, order)
      requires chain != [] && Chain(w, base, chain) && chain[|chain| - 1] == n
      requires stack == Filesystems(w, chain)
      modifies this`alive, this`order
      ensures w.Rooted(alive) && w.Closed(reach, alive) && Orderly(w, busy, base, alive, order)
      ensures old(alive) - reach <= alive <= old(alive)
      ensures dryRun ==> alive == old(alive)
      ensures forall p | p in old(alive) && w.IsPool(p) :: p in alive
      ensures !failed && !dryRun ==> forall m | m in next :: m !in alive
      ensures failed ==> Blocked(w, base, Hindrances(), chain[0])
      ensures !failed && dryRun ==> forall m | m in next && m in alive :: Free(w, alive, stack, m)
      decreases w.names - stack, if w.kind(n).Snapshot? then 1 else 2, 0
    {
      hide World.Valid, World.Rooted, Chain, Blocked, Free, Orderly, Filesystems;
      for i := 0 to |next|
        invariant w.Rooted(alive) && w.Closed(reach, alive) && Orderly(w, busy, base, alive, order)
        invariant old(alive) - reach <= alive <= old(alive)
        invariant dryRun ==> alive == old(alive)
        invariant forall p | p in old(alive) && w.IsPool(p) :: p in alive
        invariant !dryRun ==> forall j | 0 <= j < i :: next[j] !in alive
        invariant dryRun ==> forall j | 0 <= j < i && next[j] in alive :: Free(w, alive, stack, next[j])
      {
        if next[i] in alive {
          NextFacts(w, n, next[i]);
          OneFurther(w, busy, base, alive, order, chain, next[i]);
          failed := DestroyFrom(next[i], stack, false, reach, base, chain + [next[i]]);
          if failed {
            return;
          }
        }
      }
      failed := false;
    }

    // ----- zfs destroy of a filesystem or volume -----

    /** The check of zfs_do_destroy raises the error exactly when something stands in the way. */
    method Check()
      requires w.Valid() && w.Rooted(alive) && target in alive && !w.kind(target).Snapshot?
      requires first && !error && seen == {}
      modifies this`first, this`error, this`dryRun, this`seen
      ensures error <==> Obstructed(w, recurse, target, alive)
      ensures !error ==> dryRun == old(dryRun)
    {
      ghost var reach := w.names;
      if !Obstructed(w, recurse, target, alive) {
        FamilyClosed(w, recurse, target, alive);
        reach := Family(target, alive);
      }
      CheckFrom(target, {}, true, reach);
      hide Quiet, Obstructed, World.Valid, World.Closed, Family;
      assert {} + {target} == {target};
      SeenIsClosed(w, seen, alive, target);
      Verdict(w, recurse, target, alive, seen);
    }

    /** zfs_do_destroy without a snapshot list. */
    method DestroyDataset() returns (code: nat)
      requires w.Valid() && w.Rooted(alive) && target in alive && !w.kind(target).Snapshot?
      requires first && !error && seen == {} && order == [] && (doClones ==> recurse)
      modifies this
      ensures w.Rooted(alive)
      ensures old(alive) - Cone(w, old(alive), {target}) <= alive <= old(alive)
      ensures !recurse ==> old(alive) - {target} <= alive
      ensures !doClones ==> forall n | n in old(alive) && n !in alive :: n == target || Below(target, n)
      ensures old(dryRun) || (!doClones && Obstructed(w, recurse, target, old(alive))) ==> alive == old(alive)
      ensures code <= 1
      ensures code == 0 <==>
                && !deferDestroy && (recurse || !w.IsPool(target))
                && (doClones || !Obstructed(w, recurse, target, old(alive)))
                && !Blocked(w, old(alive), if old(dryRun) then {} else busy, target)
                && (old(dryRun) || w.IsPool(target) || target !in busy)
      ensures !recurse && !deferDestroy && !w.IsPool(target) && !Obstructed(w, false, target, old(alive)) ==>
                (code == 0 <==> old(dryRun) || target !in busy)
      ensures code == 0 && !old(dryRun) ==>
                && (forall n | n in alive :: !Below(target, n))
                && alive == old(alive) - Cone(w, old(alive), {target}) + if w.IsPool(target) then {target} else {}
    {
      hide World.Valid, World.Rooted, World.Closed, Obstructed, Blocked, Depends, Orderly, Family, Chain, Free;
      ghost var reach := Cone(w, alive, {target});
      ConeClosed(w, alive, {target});
      AliveNamed(w, alive, target);
      if deferDestroy || (!recurse && w.IsPool(target)) {
        return 1;
      }
      ghost var r := reach;
      if !doClones {
        Check();
        if error {
          return 1;
        }
        if !recurse {
          NoneToBlock(w, alive, if dryRun then {} else busy, target);
        }
        r := Confined(reach);
      }
      NothingGone(w, busy, alive);
      FirstLink(w, alive, target);
      var failed := DestroyFrom(target, {}, true, r, alive, [target]);
      if failed {
        return 1;
      }
      if dryRun {
        FreeUnblocked(w, alive, target);
      } else {
        GoneUnblocked(w, busy, old(alive), alive, order, target);
      }
      failed := DestroyCallback(target, old(alive));
      if failed {
        return 1;
      }
      if !dryRun {
        NothingBelow();
        forall n | n in reach && n != target ensures n !in alive {
          assert Depends(w, old(alive), target, n);
        }
      }
      code := 0;
    }

    /** When nothing stands in the way, only the name subtree can go. */
    lemma Confined(reach: set<Name>) returns (r: set<Name>)
      requires w.Valid() && w.Rooted(alive) && target in alive && !w.kind(target).Snapshot?
      requires !Obstructed(w, recurse, target, alive) && target in reach && w.Closed(reach, alive)
      ensures target in r && r <= reach && w.Closed(r, alive)
      ensures forall n | n in r && n in alive :: n == target || (recurse && Below(target, n))
    {
      FamilyClosed(w, recurse, target, alive);
      r := reach * Family(target, alive);
      forall n | n in r && n in alive ensures n == target || (recurse && Below(target, n)) {
        assert !recurse && n != target ==> !Below(target, n);
      }
    }

    lemma NothingBelow()
      requires w.Valid() && w.Rooted(alive)
      requires forall m | m in w.Next(target) :: m !in alive
      ensures forall n | n in alive :: !Below(target, n)
    {
      forall n | n in alive ensures !Below(target, n) {
        if Below(target, n) {
          SubtreeDepends(w, {target}, alive, target, n);
        }
      }
    }

    // ----- zfs destroy of snapshots -----

    /** The error is up exactly when a snapshot on the list has a clone that may neither go nor stay. */
    ghost predicate Tracked()
      reads this
    {
      error <==> !doClones && !deferDestroy && AnyCloned(w, alive, nvl)
    }

    /** snapshot_to_nvl_cb. */
    method SnapshotToNvl(s: Name)
      requires w.Valid() && w.Rooted(alive) && s in w.names && w.kind(s).Snapshot?
      requires Tracked()
      modifies this`first, this`error, this`dryRun, this`seen, this`target, this`nvl
      ensures Tracked()
      ensures nvl == old(nvl) + {s}
      ensures old(error) ==> error
      ensures !error ==> dryRun == old(dryRun)
    {
      AnyClonedAdd(w, alive, nvl, s);
      if !doClones && !deferDestroy {
        target, first, seen := s, true, {};
        CheckFrom(s, {}, true, if HasClone(w, alive, s) then w.names else {});
        SnapshotVerdict(w, recurse, s, alive, seen);
      }
      nvl := nvl + {s};
    }

    /** The snapshots of one filesystem: zfs_iter_snapspec with snapshot_to_nvl_cb. */
    method GatherPicked(list: seq<Name>)
      requires w.Valid() && w.Rooted(alive) && Tracked()
      requires forall s | s in list :: s in w.names && w.kind(s).Snapshot?
      modifies this`first, this`error, this`dryRun, this`seen, this`target, this`nvl
      ensures Tracked()
      ensures nvl == old(nvl) + Existing(list, alive)
      ensures old(error) ==> error
      ensures !error ==> dryRun == old(dryRun)
    {
      assert Existing(list[..0], alive) == {};
      hide World.Valid, World.Rooted, AnyCloned, Existing;
      for i := 0 to |list|
        invariant Tracked()
        invariant nvl == old(nvl) + Existing(list[..i], alive)
        invariant old(error) ==> error
        invariant !error ==> dryRun == old(dryRun)
      {
        ExistingSnoc(list, alive, i);
        if list[i] in alive {
          SnapshotToNvl(list[i]);
        }
      }
      assert list[..|list|] == list;
    }

    /** gather_snapshots. */
    method Gather(fs: Name)
      requires w.Valid() && w.Rooted(alive) && Picks(w, pick) && fs in alive && Tracked()
      modifies this`first, this`error, this`dryRun, this`seen, this`target, this`nvl
      ensures Tracked()
      ensures nvl == old(nvl) + Chosen(pick, recurse, alive, fs)
      ensures old(error) ==> error
      ensures !error ==> dryRun == old(dryRun)
      decreases Under(w, fs), 1
    {
      hide World.Valid, World.Rooted, AnyCloned, Existing, Chosen, ChosenEach, Picks;
      PicksSnapshots(w, pick, alive, fs);
      GatherPicked(pick(fs));
      ChosenStep(w, pick, recurse, alive, fs);
      if recurse && w.kind(fs).Filesystem? {
        GatherKids(fs, w.kids(fs));
      }
    }

    method GatherKids(fs: Name, kids: seq<Name>)
      requires w.Valid() && w.Rooted(alive) && Picks(w, pick) && fs in alive && kids == w.kids(fs) && Tracked()
      requires recurse && w.kind(fs).Filesystem?
      modifies this`first, this`error, this`dryRun, this`seen, this`target, this`nvl
      ensures Tracked()
      ensures nvl == old(nvl) + ChosenEach(pick, alive, kids)
      ensures old(error) ==> error
      ensures !error ==> dryRun == old(dryRun)
      decreases Under(w, fs), 0
    {
      hide World.Valid, World.Rooted, Chosen, Picks, AnyCloned, Under;
      AliveNamed(w, alive, fs);
      for i := 0 to |kids|
        invariant Tracked()
        invariant nvl == old(nvl) + ChosenEach(pick, alive, kids[..i])
        invariant old(error) ==> error
        invariant !error ==> dryRun == old(dryRun)
      {
        if kids[i] in alive {
          UnderShrinks(w, fs, kids[i]);
          Gather(kids[i]);
        }
        assert kids[..i + 1][..i] == kids[..i];
      }
      assert kids[..|kids|] == kids;
    }

    /** destroy_clones: the dependents of each snapshot on the list, if it is still there. */
    method DestroyClones() returns (failed: bool)
      requires w.Valid() && w.Rooted(alive) && nvl <= w.names && !dryRun && order == []
      modifies this`alive, this`order
      ensures w.Rooted(alive)
      ensures old(alive) - Cone(w, old(alive), nvl) <= alive <= old(alive)
      ensures failed <==> exists s | s in nvl :: Blocked(w, old(alive), busy, s)
      ensures !failed ==> alive <= old(alive) - Cone(w, old(alive), nvl) + nvl
      ensures !failed ==> forall s, m | s in nvl && m in w.Next(s) :: m !in alive
    {
      hide World.Valid, World.Closed, World.Next, Blocked, Orderly, Chain, Depends;
      ghost var base := alive;
      ghost var reach := Cone(w, alive, nvl);
      ConeClosed(w, alive, nvl);
      NothingGone(w, busy, alive);
      var rest := nvl;
      while rest != {}
        invariant rest <= nvl
        invariant w.Rooted(alive) && w.Closed(reach, alive) && Orderly(w, busy, base, alive, order)
        invariant old(alive) - reach <= alive <= old(alive)
        invariant forall s, m | s in nvl - rest && m in w.Next(s) :: m !in alive
        decreases rest
      {
        var s :| s in rest;
        rest := rest - {s};
        if s in alive {
          FirstLink(w, base, s);
          failed := DestroyFrom(s, {}, true, reach, base, [s]);
          if failed {
            return;
          }
        }
      }
      forall s | s in nvl
        ensures !Blocked(w, base, busy, s) && forall n | Depends(w, base, s, n) :: n !in alive
      {
        GoneUnblocked(w, busy, base, alive, order, s);
      }
      failed := false;
    }

    /** The kernel takes the list as a whole; with -d a snapshot that has clones only goes later. */
    method KernelDestroySnaps() returns (ok: bool)
      requires w.Valid() && w.Rooted(alive) && Snapshots(w, nvl)
      modifies this`alive, this`deferred
      ensures w.Rooted(alive)
      ensures ok <==> nvl !! busy && (deferDestroy || !AnyCloned(w, old(alive), nvl))
      ensures alive == old(alive) - if ok then nvl - Cloned(w, old(alive), nvl) else {}
      ensures deferred == old(deferred) + if ok then Cloned(w, old(alive), nvl) else {}
    {
      var cloned := Cloned(w, alive, nvl);
      ok := nvl !! busy && (deferDestroy || cloned == {});
      NoneCloned(w, alive, nvl);
      if ok {
        deferred := deferred + cloned;
        SnapshotsGo(w, alive, nvl - cloned);
        hide World.Valid, World.Rooted, HasClone;
        alive := alive - (nvl - cloned);
      }
    }

    /** What is done about the snapshots on the list, unless it is a dry run. */
    method DestroyListed() returns (failed: bool)
      requires w.Valid() && w.Rooted(alive) && Snapshots(w, nvl) && nvl <= w.names && !dryRun && order == []
      modifies this`alive, this`order, this`deferred
      ensures w.Rooted(alive)
      ensures old(alive) - Cone(w, old(alive), nvl) <= alive <= old(alive)
      ensures failed && !doClones ==> alive == old(alive) && deferred == old(deferred)
      ensures !failed <==>
                && nvl !! busy && (doClones || deferDestroy || !AnyCloned(w, old(alive), nvl))
                && (doClones ==> forall s | s in nvl :: !Blocked(w, old(alive), busy, s))
      ensures !failed && doClones ==> alive == old(alive) - Cone(w, old(alive), nvl)
      ensures !failed && !doClones ==>
                && alive == old(alive) - (nvl - Cloned(w, old(alive), nvl))
                && deferred == old(deferred) + Cloned(w, old(alive), nvl)
    {
      hide AnyCloned, World.Valid, World.Rooted, HasClone, Snapshots, Blocked, Cloned, Cone;
      ConeHolds(w, alive, nvl);
      if doClones {
        failed := DestroyClones();
        if failed {
          return;
        }
        ClonesGone(w, alive, nvl);
        NoneCloned(w, alive, nvl);
      }
      var ok := KernelDestroySnaps();
      failed := !ok;
    }

    /** zfs_do_destroy with a snapshot list, once the filesystem is open. */
    method DestroySnapshots(fs: Name) returns (code: nat)
      requires w.Valid() && w.Rooted(alive) && Picks(w, pick) && fs in alive
      requires !error && nvl == {} && order == [] && (doClones ==> recurse)
      modifies this
      ensures w.Rooted(alive)
      ensures old(alive) - Cone(w, old(alive), Chosen(pick, recurse, old(alive), fs)) <= alive <= old(alive)
      ensures old(dryRun) || (code != 0 && !doClones) ==> alive == old(alive) && deferred == old(deferred)
      ensures code <= 1
      ensures var meant := Chosen(pick, recurse, old(alive), fs);
              code == 0 <==>
                && meant != {} && (doClones || deferDestroy || !AnyCloned(w, old(alive), meant))
                && (old(dryRun) || meant !! busy)
                && (old(dryRun) || !doClones || forall s | s in meant :: !Blocked(w, old(alive), busy, s))
      ensures code == 0 && !old(dryRun) && doClones ==>
                alive == old(alive) - Cone(w, old(alive), Chosen(pick, recurse, old(alive), fs))
      ensures var meant := Chosen(pick, recurse, old(alive), fs);
              code == 0 && !old(dryRun) && !doClones ==>
                && alive == old(alive) - (meant - Cloned(w, old(alive), meant))
                && deferred == old(deferred) + Cloned(w, old(alive), meant)
    {
      assert Tracked();
      ChosenAreSnapshots(w, pick, recurse, alive, fs);
      hide AnyCloned, World.Valid, World.Rooted, Chosen, Snapshots, Picks, Blocked, Cloned, Cone;
      ghost var meant := Chosen(pick, recurse, alive, fs);
      Gather(fs);
      assert nvl == meant;
      if error || nvl == {} {
        return 1;
      }
      if !dryRun {
        var failed := DestroyListed();
        if failed {
          return 1;
        }
      }
      code := 0;
    }
  }

  lemma ConeHolds(w: World, alive: set<Name>, roots: set<Name>)
    ensures roots <= Cone(w, alive, roots)
  {
  }
}

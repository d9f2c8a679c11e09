/** The replication level of a pool and of what is being added to it: get_replication,
    check_replication, and what they keep true over a pool's life (cmd/zpool/zpool_vdev.c). */
module Replication {
  import opened Base

  const ZPOOL_FUZZ: nat := 16 * 1024 * 1024

  /** A leaf vdev: "disk" or "file", and where it is. */
  datatype Device = Device(kind: string, path: string)

  /** A child of a mirror or raidz vdev. A replacing or spare vdev stands for its first child. */
  datatype Child =
    | Plain(device: Device)
    | Replacing(first: Device, second: Device)
    | Sparing(first: Device, second: Device)
  {
    function Real(): Device {
      match this case Plain(d) => d case Replacing(d, _) => d case Sparing(d, _) => d
    }
  }

  datatype Top =
    | Leaf(isLog: bool, kind: string)
    | Group(isLog: bool, kind: string, nparity: nat, children: seq<Child>)

  /** replication_level_t. */
  datatype Level = Level(kind: string, children: nat, parity: nat)

  /** What fstat says of a path: a usable size, or nothing. */
  type Stat = string -> Option<nat>

  /** The vdev is of the level's type, with as many children, a device counting as its own, and, if it is
      raidz, with the level's parity. */
  predicate AtLevel(lv: Level, t: Top) {
    && lv.kind == t.kind
    && lv.children == (if t.Leaf? then 1 else |t.children|)
    && lv.parity == (if t.Group? && t.kind == "raidz" then t.nparity else 0)
  }

  /** Two vdevs with the same redundancy: the same type, the same number of children, and, for raidz, the
      same parity. */
  predicate Alike(a: Top, b: Top) {
    && a.kind == b.kind
    && (if a.Leaf? then 1 else |a.children|) == (if b.Leaf? then 1 else |b.children|)
    && (a.kind == "raidz" ==> (if a.Leaf? then 0 else a.nparity) == (if b.Leaf? then 0 else b.nparity))
  }

  function LevelOf(t: Top): (lv: Level)
    ensures AtLevel(lv, t)
    ensures forall lv' | AtLevel(lv', t) :: lv' == lv
  {
    match t
    case Leaf(_, kind) => Level(kind, 1, 0)
    case Group(_, kind, nparity, children) => Level(kind, |children|, if kind == "raidz" then nparity else 0)
  }

  function Distance(a: nat, b: nat): nat {
    if a < b then b - a else a - b
  }

  /** The kind and size of the last child whose size could be determined. */
  datatype Last = Last(kind: Option<string>, size: Option<nat>)

  predicate KindClash(last: Last, d: Device) {
    last.kind.Some? && last.kind.value != d.kind
  }

  predicate SizeClash(stat: Stat, last: Last, d: Device) {
    stat(d.path).Some? && last.size.Some? && Distance(stat(d.path).value, last.size.value) > ZPOOL_FUZZ
  }

  function NextLast(stat: Stat, last: Last, d: Device): Last {
    if stat(d.path).Some? then Last(Some(d.kind), stat(d.path)) else last
  }

  /** No child clashes with the last sized child before it. */
  predicate Harmonious(stat: Stat, last: Last, children: seq<Child>)
    decreases |children|
  {
    children != [] ==>
      var d := children[0].Real();
      && !KindClash(last, d)
      && !SizeClash(stat, last, d)
      && Harmonious(stat, NextLast(stat, last, d), children[1..])
  }

  const NOTHING := Last(None, None)

  /** A vdev that get_replication finds no fault with on its own. */
  predicate Sound(stat: Stat, t: Top) {
    t.Group? ==> Harmonious(stat, NOTHING, t.children)
  }

  /** Every data vdev has level lv. */
  predicate AllAt(lv: Level, tops: seq<Top>) {
    forall i | 0 <= i < |tops| :: !tops[i].isLog ==> AtLevel(lv, tops[i])
  }

  /** All data vdevs have the same type, parity and number of children. */
  predicate Uniform(tops: seq<Top>) {
    forall i, j | 0 <= i < |tops| && 0 <= j < |tops| ::
      !tops[i].isLog && !tops[j].isLog ==> Alike(tops[i], tops[j])
  }

  predicate AllSound(stat: Stat, tops: seq<Top>) {
    forall i | 0 <= i < |tops| :: !tops[i].isLog ==> Sound(stat, tops[i])
  }

  /** Some top-level vdev is not a log. */
  predicate HasData(tops: seq<Top>) {
    exists i :: 0 <= i < |tops| && !tops[i].isLog
  }

  /** NULL, or a level, which is not set when there are only logs. */
  datatype Answer = Null | Found(level: Option<Level>)

  /** One child of a vdev: does it spoil the level? In quiet mode the caller returns at once; in
      fatal mode a message is printed unless this vdev already had one. */
  method ScanChildren(stat: Stat, children: seq<Child>, fatal: bool) returns (ok: bool, reports: nat)
    ensures ok <==> Harmonious(stat, NOTHING, children)
    ensures !fatal ==> reports == 0
    ensures fatal ==> (reports == 0 <==> ok) && reports <= 1
  {
    var last, dontreport := NOTHING, false;
    ok, reports := true, 0;
    assert children[0..] == children;
    for c := 0 to |children|
      invariant ok == !dontreport
      invariant ok ==> (Harmonious(stat, last, children[c..]) <==> Harmonious(stat, NOTHING, children))
      invariant !ok ==> !Harmonious(stat, NOTHING, children)
      invariant !fatal ==> ok && reports == 0
      invariant fatal ==> reports == if ok then 0 else 1
    {
      assert children[c..][1..] == children[c + 1..];
      var d := children[c].Real();
      if !dontreport && KindClash(last, d) {
        ok := false;
        if !fatal {
          return;
        }
        reports, dontreport := reports + 1, true;
      }
      var size := stat(d.path);
      if size.None? {
        continue;
      }
      if !dontreport && SizeClash(stat, last, d) {
        ok := false;
        if !fatal {
          return;
        }
        reports, dontreport := reports + 1, true;
      }
      last := Last(Some(d.kind), size);
    }
  }

  /** The data vdevs among the first n are all sound and all at the level of the last one. */
  ghost predicate SoFar(stat: Stat, tops: seq<Top>, n: nat, lastrep: Option<Level>)
    requires n <= |tops|
  {
    && AllSound(stat, tops[..n])
    && (lastrep.None? <==> !HasData(tops[..n]))
    && (lastrep.Some? ==> AllAt(lastrep.value, tops[..n]))
  }

  /** get_replication: NULL exactly when some data vdev is unsound or two of them are at different
      levels, whether or not it stops at the first fault; otherwise the level they share. */
  method GetReplication(stat: Stat, tops: seq<Top>, fatal: bool) returns (ret: Answer, reports: nat)
    ensures ret == Null <==> !AllSound(stat, tops) || !Uniform(tops)
    ensures ret.Found? ==> (ret.level.Some? <==> HasData(tops))
    ensures ret.Found? && ret.level.Some? ==> AllAt(ret.level.value, tops)
    ensures !fatal ==> reports == 0
    ensures fatal ==> (reports == 0 <==> ret.Found?)
  {
    var lastrep: Option<Level> := None;
    var ok := true;
    reports := 0;
    for t := 0 to |tops|
      invariant ok ==> SoFar(stat, tops, t, lastrep)
      invariant lastrep.Some? ==> exists i :: 0 <= i < t && !tops[i].isLog && LevelOf(tops[i]) == lastrep.value
      invariant !ok ==> !AllSound(stat, tops) || !Uniform(tops)
      invariant !fatal ==> ok && reports == 0
      invariant fatal ==> (reports == 0 <==> ok)
    {
      var nv := tops[t];
      assert tops[..t + 1] == tops[..t] + [nv];
      if nv.isLog {
        continue;
      }
      if nv.Group? {
        var good, said := ScanChildren(stat, nv.children, fatal);
        reports := reports + said;
        if !good {
          ok := false;
          if !fatal {
            return Null, 0;
          }
        }
      }
      var rep := LevelOf(nv);
      if lastrep.Some? && lastrep.value != rep {
        ok := false;
        if !fatal {
          return Null, 0;
        }
        reports := reports + 1;
      }
      lastrep := Some(rep);
    }
    assert tops[..|tops|] == tops;
    ret := if ok then Found(lastrep) else Null;
  }

  // ----- checking an addition -----

  /** check_replication, whose 0 is true here. `config` is the pool being added to, if there is
      one; spares and cache devices are not among the top-level vdevs. */
  method CheckReplication(stat: Stat, config: Option<seq<Top>>, newroot: seq<Top>) returns (ok: bool)
    requires config.Some? ==> HasData(config.value)
    ensures ok <==> Accepts(stat, config, newroot)
  {
    var current: Option<Level> := None;
    if config.Some? {
      var cur, _ := GetReplication(stat, config.value, false);
      if cur.Null? {
        return true;
      }
      current := cur.level;
    }
    if newroot == [] {
      return true;
    }
    var nlogs := NumLogs(newroot);
    if nlogs == |newroot| {
      return true;
    }
    var found, _ := GetReplication(stat, newroot, true);
    if found.Null? {
      return false;
    }
    if config.Some? {
      JoinUniform(config.value, newroot, current.value, found.level.value);
    }
    ok := current.None? || current.value == found.level.value;
  }

  /** The positions of the logs among the first n. */
  ghost function Logs(tops: seq<Top>, n: nat): set<int> {
    set i | 0 <= i < n && i < |tops| && tops[i].isLog
  }

  /** num_logs. */
  method NumLogs(tops: seq<Top>) returns (n: nat)
    ensures n == |Logs(tops, |tops|)|
    ensures n <= |tops|
    ensures n == |tops| <==> !HasData(tops)
  {
    n := 0;
    for c := 0 to |tops|
      invariant n == |Logs(tops, c)|
      invariant n <= c
      invariant n == c <==> forall i | 0 <= i < c :: tops[i].isLog
    {
      assert Logs(tops, c + 1) == Logs(tops, c) + if tops[c].isLog then {c} else {};
      if tops[c].isLog {
        n := n + 1;
      }
    }
  }

  lemma JoinUniform(a: seq<Top>, b: seq<Top>, la: Level, lb: Level)
    requires HasData(a) && HasData(b)
    requires AllAt(la, a) && AllAt(lb, b)
    ensures Uniform(a + b) <==> la == lb
  {
    var i :| 0 <= i < |a| && !a[i].isLog;
    var j :| 0 <= j < |b| && !b[j].isLog;
    assert (a + b)[i] == a[i] && (a + b)[|a| + j] == b[j];
  }

  /** Nothing wrong that get_replication would see. */
  predicate Consistent(stat: Stat, tops: seq<Top>) {
    AllSound(stat, tops) && Uniform(tops)
  }

  /** When an addition, or a new pool, passes: a pool that is itself inconsistent lets anything
      through; logs always pass; data vdevs must agree among themselves and with the pool. */
  predicate Accepts(stat: Stat, config: Option<seq<Top>>, newroot: seq<Top>) {
    || (config.Some? && !Consistent(stat, config.value))
    || !HasData(newroot)
    || (Consistent(stat, newroot) && (config.Some? ==> Uniform(config.value + newroot)))
  }

  // ----- over a pool's life -----

  /** An addition that was let through, with what stat said at the time. */
  datatype Addition = Addition(stat: Stat, vdevs: seq<Top>)

  function PoolAfter(pool: seq<Top>, adds: seq<Addition>): seq<Top>
    decreases |adds|
  {
    if adds == [] then pool else PoolAfter(pool + adds[0].vdevs, adds[1..])
  }

  ghost predicate AllAccepted(pool: seq<Top>, adds: seq<Addition>)
    decreases |adds|
  {
    adds != [] ==>
      && Accepts(adds[0].stat, Some(pool), adds[0].vdevs)
      && AllAccepted(pool + adds[0].vdevs, adds[1..])
  }

  /** At each addition no vdev of the pool looked unsound. */
  ghost predicate SoundThroughout(pool: seq<Top>, adds: seq<Addition>)
    decreases |adds|
  {
    adds != [] ==> AllSound(adds[0].stat, pool) && SoundThroughout(pool + adds[0].vdevs, adds[1..])
  }

  lemma LogsKeepUniform(pool: seq<Top>, more: seq<Top>)
    requires Uniform(pool)
    requires !HasData(more)
    ensures Uniform(pool + more)
  {
  }

  /** Every run of accepted additions to a uniform pool that looks sound each time keeps it so. */
  lemma {:induction false} AdditionsKeepUniform(pool: seq<Top>, adds: seq<Addition>)
    requires Uniform(pool)
    requires AllAccepted(pool, adds)
    requires SoundThroughout(pool, adds)
    ensures Uniform(PoolAfter(pool, adds))
    decreases |adds|
  {
    if adds == [] {
    } else {
      if !HasData(adds[0].vdevs) {
        LogsKeepUniform(pool, adds[0].vdevs);
      }
      AdditionsKeepUniform(pool + adds[0].vdevs, adds[1..]);
    }
  }

  /** While the devices keep their sizes, a pool that passed at creation stays uniform, and stays
      checkable, through every run of accepted additions. */
  lemma {:induction false} CreatedPoolStaysUniform(stat: Stat, pool: seq<Top>, adds: seq<Addition>)
    requires Accepts(stat, None, pool) && HasData(pool)
    requires forall i | 0 <= i < |adds| :: adds[i].stat == stat
    requires AllAccepted(pool, adds)
    ensures Consistent(stat, PoolAfter(pool, adds))
  {
    ConsistentAdditions(stat, pool, adds);
  }

  lemma {:induction false} ConsistentAdditions(stat: Stat, pool: seq<Top>, adds: seq<Addition>)
    requires Consistent(stat, pool)
    requires forall i | 0 <= i < |adds| :: adds[i].stat == stat
    requires AllAccepted(pool, adds)
    ensures Consistent(stat, PoolAfter(pool, adds))
    decreases |adds|
  {
    if adds == [] {
    } else {
      if !HasData(adds[0].vdevs) {
        LogsKeepUniform(pool, adds[0].vdevs);
      }
      ConsistentAdditions(stat, pool + adds[0].vdevs, adds[1..]);
    }
  }

  /** The check protects a uniform pool from every bad addition exactly when each of its data
      vdevs looks sound: a group whose devices differ in size switches the check off. */
  lemma ProtectedIffSound(stat: Stat, pool: seq<Top>)
    requires Uniform(pool) && HasData(pool)
    ensures (forall more :: Accepts(stat, Some(pool), more) ==> Uniform(pool + more)) <==> AllSound(stat, pool)
  {
    if AllSound(stat, pool) {
      forall more | Accepts(stat, Some(pool), more) ensures Uniform(pool + more) {
        if !HasData(more) {
          LogsKeepUniform(pool, more);
        }
      }
    } else {
      var i :| 0 <= i < |pool| && !pool[i].isLog && !Sound(stat, pool[i]);
      var more := [Leaf(false, "disk")];
      assert |pool[i].children| > 1 by { LoneChild(stat, pool[i].children); }
      assert Accepts(stat, Some(pool), more);
      assert (pool + more)[i] == pool[i] && (pool + more)[|pool|] == more[0];
      assert !Uniform(pool + more);
    }
  }

  lemma LoneChild(stat: Stat, children: seq<Child>)
    ensures |children| <= 1 ==> Harmonious(stat, NOTHING, children)
  {
    if |children| == 1 {
      assert children[1..] == [];
    }
  }

  // ----- files and disks in one group -----

  /** No sized child differs too much in size from the last sized child before it. */
  predicate SizesAgree(stat: Stat, last: Option<nat>, children: seq<Child>)
    decreases |children|
  {
    if children == [] then true
    else
      var size := stat(children[0].Real().path);
      && (size.Some? && last.Some? ==> Distance(size.value, last.value) <= ZPOOL_FUZZ)
      && SizesAgree(stat, if size.Some? then size else last, children[1..])
  }

  predicate Sized(stat: Stat, c: Child) { stat(c.Real().path).Some? }

  /** The device a child stands for: itself, or the first of the two of a replacing or spare vdev. */
  lemma RealIs(a: Device, b: Device)
    ensures Plain(a).Real() == a && Replacing(a, b).Real() == a && Sparing(a, b).Real() == a
  {
  }

  /** Two sized children with none in between. */
  ghost predicate Neighbours(stat: Stat, children: seq<Child>, i: nat, j: nat) {
    && i < j < |children| && Sized(stat, children[i]) && Sized(stat, children[j])
    && forall k | i < k < j :: !Sized(stat, children[k])
  }

  /** The first sized child, if it comes after nothing sized. */
  ghost predicate Leading(stat: Stat, children: seq<Child>, j: nat) {
    j < |children| && Sized(stat, children[j]) && forall k | 0 <= k < j :: !Sized(stat, children[k])
  }

  predicate Close(stat: Stat, a: Child, b: Child)
    requires Sized(stat, a) && Sized(stat, b)
  {
    var x, y := stat(a.Real().path).value, stat(b.Real().path).value;
    x <= y + 0x100_0000 && y <= x + 0x100_0000
  }

  /** Sized children with none in between differ by sixteen megabytes at most. */
  ghost predicate AllClose(stat: Stat, children: seq<Child>) {
    forall i: nat, j: nat | Neighbours(stat, children, i, j) :: Close(stat, children[i], children[j])
  }

  /** So does the first of them from a size given. */
  ghost predicate StartsClose(stat: Stat, last: Option<nat>, children: seq<Child>) {
    last.Some? ==> forall j: nat | Leading(stat, children, j) ::
      Distance(stat(children[j].Real().path).value, last.value) <= 0x100_0000
  }

  lemma NeighboursOn(stat: Stat, children: seq<Child>, i: nat, j: nat)
    requires children != []
    ensures Neighbours(stat, children[1..], i, j) <==> Neighbours(stat, children, i + 1, j + 1)
  {
    var rest := children[1..];
    assert forall k | 0 <= k < |rest| :: rest[k] == children[k + 1];
    if Neighbours(stat, children, i + 1, j + 1) {
      forall k | i < k < j ensures !Sized(stat, rest[k]) {
        assert !Sized(stat, children[k + 1]);
      }
    }
    if Neighbours(stat, rest, i, j) {
      forall k | i + 1 < k < j + 1 ensures !Sized(stat, children[k]) {
        assert !Sized(stat, rest[k - 1]);
      }
    }
  }

  lemma LeadingOn(stat: Stat, children: seq<Child>, j: nat)
    requires children != []
    ensures Leading(stat, children[1..], j) && !Sized(stat, children[0]) <==> Leading(stat, children, j + 1)
    ensures Leading(stat, children[1..], j) && Sized(stat, children[0]) <==> Neighbours(stat, children, 0, j + 1)
  {
    var rest := children[1..];
    assert forall k | 0 <= k < |rest| :: rest[k] == children[k + 1];
    if Leading(stat, rest, j) {
      forall k | 0 < k < j + 1 ensures !Sized(stat, children[k]) {
        assert !Sized(stat, rest[k - 1]);
      }
    }
    if Leading(stat, children, j + 1) || Neighbours(stat, children, 0, j + 1) {
      forall k | 0 <= k < j ensures !Sized(stat, rest[k]) {
        assert !Sized(stat, children[k + 1]);
      }
    }
  }

  lemma AllCloseStep(stat: Stat, children: seq<Child>)
    requires children != []
    ensures var size := stat(children[0].Real().path);
            AllClose(stat, children) <==> AllClose(stat, children[1..]) && StartsClose(stat, size, children[1..])
  {
    var rest := children[1..];
    var size := stat(children[0].Real().path);
    forall i: nat, j: nat | Neighbours(stat, rest, i, j)
      ensures Neighbours(stat, children, i + 1, j + 1) && rest[i] == children[i + 1] && rest[j] == children[j + 1]
    {
      NeighboursOn(stat, children, i, j);
    }
    forall i: nat, j: nat | Neighbours(stat, children, i, j)
      ensures if i > 0 then Neighbours(stat, rest, i - 1, j - 1)
              else Sized(stat, children[0]) && Leading(stat, rest, j - 1)
      ensures rest[j - 1] == children[j]
    {
      if i > 0 {
        NeighboursOn(stat, children, i - 1, j - 1);
      } else {
        LeadingOn(stat, children, j - 1);
      }
    }
    forall j: nat | Leading(stat, rest, j) && size.Some?
      ensures Neighbours(stat, children, 0, j + 1) && rest[j] == children[j + 1]
    {
      LeadingOn(stat, children, j);
    }
  }

  lemma StartsCloseStep(stat: Stat, last: Option<nat>, children: seq<Child>)
    requires children != []
    ensures var size := stat(children[0].Real().path);
            StartsClose(stat, last, children) <==>
            if size.Some? then last.Some? ==> Distance(size.value, last.value) <= 0x100_0000
            else StartsClose(stat, last, children[1..])
  {
    var rest := children[1..];
    assert Leading(stat, children, 0) <==> Sized(stat, children[0]);
    forall j: nat | Leading(stat, children, j) && !Sized(stat, children[0])
      ensures j > 0 && Leading(stat, rest, j - 1) && rest[j - 1] == children[j]
    {
      LeadingOn(stat, children, j - 1);
    }
    forall j: nat | Leading(stat, rest, j) && !Sized(stat, children[0])
      ensures Leading(stat, children, j + 1) && rest[j] == children[j + 1]
    {
      LeadingOn(stat, children, j);
    }
  }

  lemma {:induction false} SizesFrom(stat: Stat, last: Option<nat>, children: seq<Child>)
    ensures SizesAgree(stat, last, children) <==> AllClose(stat, children) && StartsClose(stat, last, children)
    decreases |children|
  {
    if children == [] {
    } else {
      hide AllClose, StartsClose;
      var size := stat(children[0].Real().path);
      SizesFrom(stat, if size.Some? then size else last, children[1..]);
      AllCloseStep(stat, children);
      StartsCloseStep(stat, last, children);
      NoStart(stat, children[1..]);
    }
  }

  lemma NoStart(stat: Stat, children: seq<Child>)
    ensures StartsClose(stat, None, children)
  {
  }

  /** What is compared are the sizes of sized children with none in between. */
  lemma SizesExactly(stat: Stat, children: seq<Child>)
    ensures SizesAgree(stat, None, children) <==> AllClose(stat, children)
  {
    SizesFrom(stat, None, children);
    NoStart(stat, children);
  }

  /** Every child is of the kind of each sized child before it. */
  predicate KindsFollow(stat: Stat, children: seq<Child>) {
    forall i, j | 0 <= i < j < |children| && Sized(stat, children[i]) ::
      children[i].Real().kind == children[j].Real().kind
  }

  predicate AllOfKind(kind: string, children: seq<Child>) {
    forall i | 0 <= i < |children| :: children[i].Real().kind == kind
  }

  lemma {:induction false} HarmoniousFrom(stat: Stat, last: Last, children: seq<Child>)
    requires last.kind.Some? <==> last.size.Some?
    ensures Harmonious(stat, last, children) <==>
            && SizesAgree(stat, last.size, children)
            && KindsFollow(stat, children)
            && (last.kind.Some? ==> AllOfKind(last.kind.value, children))
    decreases |children|
  {
    if children == [] {
    } else {
      var d, rest := children[0].Real(), children[1..];
      HarmoniousFrom(stat, NextLast(stat, last, d), rest);
      assert forall i | 0 < i < |children| :: children[i] == rest[i - 1];
      FollowCons(stat, children);
      KindCons(children);
    }
  }

  lemma FollowCons(stat: Stat, children: seq<Child>)
    requires children != []
    ensures KindsFollow(stat, children) <==>
            && KindsFollow(stat, children[1..])
            && (Sized(stat, children[0]) ==> AllOfKind(children[0].Real().kind, children[1..]))
  {
    var rest := children[1..];
    assert forall i | 0 <= i < |rest| :: rest[i] == children[i + 1];
    if KindsFollow(stat, children) {
      forall i, j | 0 <= i < j < |rest| && Sized(stat, rest[i]) ensures rest[i].Real().kind == rest[j].Real().kind {
        assert children[i + 1] == rest[i] && children[j + 1] == rest[j];
      }
    } else {
      var i, j :| 0 <= i < j < |children| && Sized(stat, children[i])
               && children[i].Real().kind != children[j].Real().kind;
      assert children[j] == rest[j - 1] && (i > 0 ==> children[i] == rest[i - 1]);
    }
  }

  lemma KindCons(children: seq<Child>)
    requires children != []
    ensures forall kind :: AllOfKind(kind, children) <==>
                           children[0].Real().kind == kind && AllOfKind(kind, children[1..])
  {
    forall kind ensures AllOfKind(kind, children) <==>
                        children[0].Real().kind == kind && AllOfKind(kind, children[1..])
    {
      var rest := children[1..];
      assert forall i | 0 <= i < |rest| :: rest[i] == children[i + 1];
      assert forall i | 0 < i < |children| :: children[i] == rest[i - 1];
    }
  }

  /** A group passes exactly when its sizes agree and every child is of the kind of each sized
      child before it. */
  lemma HarmoniousExactly(stat: Stat, children: seq<Child>)
    ensures Harmonious(stat, NOTHING, children) <==> SizesAgree(stat, None, children) && KindsFollow(stat, children)
  {
    HarmoniousFrom(stat, NOTHING, children);
  }

  predicate OneKind(children: seq<Child>) {
    forall i, j | 0 <= i < j < |children| :: children[i].Real().kind == children[j].Real().kind
  }

  /** The same devices with other kinds. */
  predicate SamePaths(a: seq<Child>, b: seq<Child>) {
    |a| == |b| && forall i | 0 <= i < |a| :: a[i].Real().path == b[i].Real().path
  }

  lemma {:induction false} SizesByPath(stat: Stat, last: Option<nat>, a: seq<Child>, b: seq<Child>)
    requires SamePaths(a, b)
    ensures SizesAgree(stat, last, a) <==> SizesAgree(stat, last, b)
    decreases |a|
  {
    if a == [] {
    } else {
      SizesByPath(stat, if Sized(stat, a[0]) then stat(a[0].Real().path) else last, a[1..], b[1..]);
    }
  }

  /** The devices with the first taken for a file and all others for disks. */
  function FirstAFile(children: seq<Child>): seq<Child> {
    seq(|children|, i requires 0 <= i < |children| =>
          Plain(Device(if i == 0 then "file" else "disk", children[i].Real().path)))
  }

  /** For any devices, passing guarantees that files and disks are not mixed exactly when the first
      of them can be sized or is alone, or nothing passes because the sizes do not agree. */
  lemma OneKindGuaranteed(stat: Stat, children: seq<Child>)
    ensures (forall cs: seq<Child> | SamePaths(children, cs) && Harmonious(stat, NOTHING, cs) :: OneKind(cs)) <==>
            |children| <= 1 || Sized(stat, children[0]) || !SizesAgree(stat, None, children)
  {
    if |children| <= 1 || Sized(stat, children[0]) || !SizesAgree(stat, None, children) {
      forall cs: seq<Child> | SamePaths(children, cs) && Harmonious(stat, NOTHING, cs) ensures OneKind(cs) {
        HarmoniousExactly(stat, cs);
        SizesByPath(stat, None, children, cs);
        if |cs| > 1 {
          assert Sized(stat, cs[0]);
          assert forall j | 0 < j < |cs| :: cs[0].Real().kind == cs[j].Real().kind;
        }
      }
    } else {
      var cs := FirstAFile(children);
      SizesByPath(stat, None, children, cs);
      HarmoniousExactly(stat, cs);
      assert cs[0].Real().kind != cs[1].Real().kind;
    }
  }

  /** A file and a disk in one group that passes: the file comes first and cannot be sized. */
  lemma MixedGroupPasses()
    ensures var stat: Stat := path => if path == "b" then Some(0x4000_0000) else None;
            var cs := [Plain(Device("file", "a")), Plain(Device("disk", "b"))];
            Harmonious(stat, NOTHING, cs) && !OneKind(cs)
  {
    var stat: Stat := path => if path == "b" then Some(0x4000_0000) else None;
    var cs := [Plain(Device("file", "a")), Plain(Device("disk", "b"))];
    assert cs[1..] == [Plain(Device("disk", "b"))] && cs[1..][1..] == [];
    assert cs[0].Real().kind != cs[1].Real().kind;
  }
}

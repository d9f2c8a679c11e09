/** Chains of datasets each of which depends on the one before it, what can stand in the way of
    destroying all that depends on a dataset, and the order in which it goes. */
module DependentChains {
  import opened Datasets

  predicate Step(w: World, alive: set<Name>, n: Name, m: Name) { m in alive && w.Dependent(n, m) }

  /** Each but the first exists and depends on the one before it. */
  ghost predicate Chain(w: World, alive: set<Name>, c: seq<Name>) {
    c != [] && forall i | 0 <= i < |c| - 1 :: Step(w, alive, c[i], c[i + 1])
  }

  /** A filesystem or volume comes up twice. */
  ghost predicate Circular(w: World, c: seq<Name>) {
    exists i, j | 0 <= i < j < |c| :: c[i] == c[j] && !w.kind(c[i]).Snapshot?
  }

  /** A chain of dependents that cannot be destroyed: it comes back to itself, or ends in something
      that cannot go. */
  ghost predicate Stuck(w: World, busy: set<Name>, c: seq<Name>) {
    Circular(w, c) || (|c| > 1 && c[|c| - 1] in busy)
  }

  ghost predicate Blocked(w: World, alive: set<Name>, busy: set<Name>, n: Name) {
    exists c :: Chain(w, alive, c) && c[0] == n && Stuck(w, busy, c)
  }

  ghost predicate Depends(w: World, alive: set<Name>, n: Name, m: Name) {
    exists c :: Chain(w, alive, c) && |c| > 1 && c[0] == n && c[|c| - 1] == m
  }

  lemma Longer(w: World, alive: set<Name>, c: seq<Name>, m: Name)
    requires Chain(w, alive, c) && Step(w, alive, c[|c| - 1], m)
    ensures Chain(w, alive, c + [m])
  {
    var d := c + [m];
    forall i | 0 <= i < |d| - 1 ensures Step(w, alive, d[i], d[i + 1]) {
      assert i < |c| - 1 ==> d[i] == c[i] && d[i + 1] == c[i + 1];
    }
  }

  lemma Shorter(w: World, alive: set<Name>, c: seq<Name>)
    requires Chain(w, alive, c) && |c| > 1
    ensures Chain(w, alive, c[1..])
  {
    var d := c[1..];
    forall i | 0 <= i < |d| - 1 ensures Step(w, alive, d[i], d[i + 1]) {
      assert d[i] == c[i + 1] && d[i + 1] == c[i + 1 + 1];
    }
  }

  // ----- the filesystems on a chain -----

  function Filesystems(w: World, c: seq<Name>): set<Name> { set n | n in c && !w.kind(n).Snapshot? }

  lemma FilesystemsLonger(w: World, c: seq<Name>, n: Name)
    ensures Filesystems(w, c + [n]) ==
            if w.kind(n).Snapshot? then Filesystems(w, c) else Filesystems(w, c) + {n}
  {
  }

  /** A filesystem met again makes its chain circular. */
  lemma MetAgain(w: World, alive: set<Name>, busy: set<Name>, c: seq<Name>)
    requires Chain(w, alive, c) && c[|c| - 1] in Filesystems(w, c[..|c| - 1])
    ensures Blocked(w, alive, busy, c[0])
  {
    var n := c[|c| - 1];
    var i :| 0 <= i < |c| - 1 && c[..|c| - 1][i] == n;
    assert c[i] == c[|c| - 1];
    assert Circular(w, c);
  }

  /** So does one that is in use, wherever the chain goes on to. */
  lemma InUse(w: World, alive: set<Name>, busy: set<Name>, c: seq<Name>)
    requires Chain(w, alive, c) && |c| > 1 && c[|c| - 1] in busy
    ensures Blocked(w, alive, busy, c[0])
  {
    assert Stuck(w, busy, c);
  }

  // ----- without destroying anything -----

  /** No chain from `n` comes to one of these or back to itself. */
  ghost predicate Free(w: World, alive: set<Name>, stack: set<Name>, n: Name) {
    forall c | Chain(w, alive, c) && c[0] == n :: Filesystems(w, c) !! stack && !Circular(w, c)
  }

  lemma FreeStep(w: World, alive: set<Name>, stack: set<Name>, n: Name)
    requires !w.kind(n).Snapshot? ==> n !in stack
    requires var on := if w.kind(n).Snapshot? then stack else stack + {n};
             forall m | m in w.Next(n) && m in alive :: Free(w, alive, on, m)
    ensures Free(w, alive, stack, n)
  {
    forall c | Chain(w, alive, c) && c[0] == n ensures Filesystems(w, c) !! stack && !Circular(w, c) {
      if |c| > 1 {
        var on := if w.kind(n).Snapshot? then stack else stack + {n};
        Shorter(w, alive, c);
        assert Step(w, alive, c[0], c[0 + 1]);
        assert c[1..][0] == c[1];
        assert Filesystems(w, c[1..]) !! on && !Circular(w, c[1..]);
        FreeFront(w, c, on);
        assert c == [n] + c[1..];
      }
    }
  }

  lemma FreeFront(w: World, c: seq<Name>, on: set<Name>)
    requires |c| > 1 && Filesystems(w, c[1..]) !! on && !Circular(w, c[1..])
    requires !w.kind(c[0]).Snapshot? ==> c[0] in on
    ensures !Circular(w, c)
  {
    forall i, j | 0 <= i < j < |c| && c[i] == c[j] ensures w.kind(c[i]).Snapshot? {
      assert c[1..][j - 1] == c[j] && c[j] in c[1..];
      if i > 0 {
        assert c[1..][i - 1] == c[i];
      }
    }
  }

  lemma FreeUnblocked(w: World, alive: set<Name>, n: Name)
    requires Free(w, alive, {}, n)
    ensures !Blocked(w, alive, {}, n)
  {
  }

  // ----- the order in which things go -----

  /** What went since `base`, in this order: nothing that cannot go, and everything after all that
      depended on it. */
  ghost predicate Orderly(w: World, busy: set<Name>, base: set<Name>, alive: set<Name>, order: seq<Name>) {
    && alive <= base && (forall n :: n in order <==> n in base && n !in alive)
    && (forall i | 0 <= i < |order| :: order[i] !in busy)
    && (forall i, m | 0 <= i < |order| && Step(w, base, order[i], m) :: m in order[..i])
  }

  lemma NothingGone(w: World, busy: set<Name>, base: set<Name>)
    ensures Orderly(w, busy, base, base, [])
  {
  }

  lemma OneGoes(w: World, busy: set<Name>, base: set<Name>, alive: set<Name>, order: seq<Name>, n: Name)
    requires Orderly(w, busy, base, alive, order) && n in alive && n !in busy
    requires forall m | m in w.Next(n) :: m !in alive
    ensures Orderly(w, busy, base, alive - {n}, order + [n])
  {
    var order' := order + [n];
    forall i, m | 0 <= i < |order'| && Step(w, base, order'[i], m) ensures m in order'[..i] {
      if i < |order| {
        assert order'[i] == order[i] && order'[..i] == order[..i];
      } else {
        assert order'[..i] == order;
      }
    }
  }

  /** When it first went. */
  function Position(order: seq<Name>, n: Name): (i: nat)
    requires n in order
    ensures i < |order| && order[i] == n
  {
    if order[0] == n then 0 else 1 + Position(order[1..], n)
  }

  lemma {:induction false} Soonest(order: seq<Name>, j: nat)
    requires j < |order|
    ensures Position(order, order[j]) <= j
  {
    if order[0] == order[j] {
    } else {
      Soonest(order[1..], j - 1);
    }
  }

  /** Whatever depends on something that went had gone before it. */
  lemma Earlier(w: World, busy: set<Name>, base: set<Name>, alive: set<Name>, order: seq<Name>, n: Name, m: Name)
    requires Orderly(w, busy, base, alive, order) && n in order && Step(w, base, n, m)
    ensures m in order && Position(order, m) < Position(order, n)
  {
    var i := Position(order, n);
    assert m in order[..i];
    var j :| 0 <= j < i && order[..i][j] == m;
    assert order[j] == m;
    Soonest(order, j);
  }

  /** All that depends on a dataset has gone, and the earlier the further down a chain it is. */
  lemma {:induction false} ChainGone(w: World, busy: set<Name>, base: set<Name>, alive: set<Name>,
                                     order: seq<Name>, c: seq<Name>, i: nat, j: nat)
    requires Orderly(w, busy, base, alive, order) && Chain(w, base, c) && 0 < i <= j < |c|
    requires forall m | m in w.Next(c[0]) :: m !in alive
    ensures c[i] in order && c[j] in order && Position(order, c[j]) <= Position(order, c[i])
    ensures i < j ==> Position(order, c[j]) < Position(order, c[i])
    decreases j
  {
    hide Position;
    if j == 1 {
      assert Step(w, base, c[0], c[0 + 1]);
    } else {
      ChainGone(w, busy, base, alive, order, c, if i < j then i else j - 1, j - 1);
      var p := j - 1;
      assert Step(w, base, c[p], c[p + 1]);
      Earlier(w, busy, base, alive, order, c[p], c[p + 1]);
    }
  }

  /** If all that depends on a dataset has gone, nothing stood in the way. */
  lemma GoneUnblocked(w: World, busy: set<Name>, base: set<Name>, alive: set<Name>, order: seq<Name>, n: Name)
    requires Orderly(w, busy, base, alive, order) && forall m | m in w.Next(n) :: m !in alive
    ensures !Blocked(w, base, busy, n)
    ensures forall m | Depends(w, base, n, m) :: m !in alive
  {
    forall c | Chain(w, base, c) && c[0] == n ensures !Stuck(w, busy, c) {
      forall i, j | 0 <= i < j < |c| ensures c[i] != c[j] {
        ChainApart(w, busy, base, alive, order, c, i, j);
      }
      if |c| > 1 {
        ChainGone(w, busy, base, alive, order, c, |c| - 1, |c| - 1);
        assert order[Position(order, c[|c| - 1])] == c[|c| - 1];
      }
    }
    forall m | Depends(w, base, n, m) ensures m !in alive {
      var c :| Chain(w, base, c) && |c| > 1 && c[0] == n && c[|c| - 1] == m;
      ChainGone(w, busy, base, alive, order, c, |c| - 1, |c| - 1);
    }
  }

  lemma ChainApart(w: World, busy: set<Name>, base: set<Name>, alive: set<Name>, order: seq<Name>, c: seq<Name>,
                   i: nat, j: nat)
    requires Orderly(w, busy, base, alive, order) && Chain(w, base, c) && i < j < |c|
    requires forall m | m in w.Next(c[0]) :: m !in alive
    ensures c[i] != c[j]
  {
    hide Position, Orderly;
    if i > 0 {
      ChainGone(w, busy, base, alive, order, c, i, j);
    } else {
      ChainGone(w, busy, base, alive, order, c, 1, j);
      assert Step(w, base, c[0], c[0 + 1]);
      if c[0] == c[j] {
        Earlier(w, busy, base, alive, order, c[0], c[1]);
      }
    }
  }

  // ----- without clones outside -----

  /** Everything in the name subtree of a dataset depends on it, by a chain. */
  lemma {:induction false} SubtreeChain(w: World, alive: set<Name>, t: Name, n: Name)
    requires w.Valid() && w.Rooted(alive) && n in alive && Below(t, n)
    ensures Depends(w, alive, t, n)
    decreases |n|
  {
    var p := w.parent(n);
    assert n[|t|] in n;
    ParentNext(t, p, n);
    assert Step(w, alive, p, n) && p in alive;
    if t == p {
      assert Chain(w, alive, [t, n]);
    } else {
      hide World.Valid, World.Rooted, World.Next, Below, Depends;
      SubtreeChain(w, alive, t, p);
      DependsFurther(w, alive, t, p, n);
    }
  }

  lemma DependsFurther(w: World, alive: set<Name>, t: Name, p: Name, n: Name)
    requires Depends(w, alive, t, p) && Step(w, alive, p, n)
    ensures Depends(w, alive, t, n)
  {
    hide Chain, Step;
    var c :| Chain(w, alive, c) && |c| > 1 && c[0] == t && c[|c| - 1] == p;
    Longer(w, alive, c, n);
    assert (c + [n])[|c + [n]| - 1] == n;
  }

  /** A chain does not leave a set closed under dependence. */
  lemma {:induction false} ChainInside(w: World, alive: set<Name>, reach: set<Name>, c: seq<Name>, i: nat)
    requires w.Closed(reach, alive) && Chain(w, alive, c) && c[0] in reach && i < |c|
    ensures c[i] in reach
  {
    if i == 0 {
    } else {
      ChainInside(w, alive, reach, c, i - 1);
      var p := i - 1;
      assert Step(w, alive, c[p], c[p + 1]);
    }
  }

  /** These datasets and all that depends on them. */
  ghost function Cone(w: World, alive: set<Name>, roots: set<Name>): set<Name> {
    roots + set n | n in alive && OnSome(w, alive, roots, n)
  }

  ghost predicate OnSome(w: World, alive: set<Name>, roots: set<Name>, n: Name) {
    exists s | s in roots :: Depends(w, alive, s, n)
  }

  lemma ConeClosed(w: World, alive: set<Name>, roots: set<Name>)
    ensures w.Closed(Cone(w, alive, roots), alive)
  {
    var cone := Cone(w, alive, roots);
    hide Depends;
    forall n, m | n in cone && m in w.Next(n) ensures m in alive ==> m in cone {
      if m in alive {
        if n in roots {
          DependsDirectly(w, alive, n, m);
        } else {
          var s :| s in roots && Depends(w, alive, s, n);
          DependsFurther(w, alive, s, n, m);
        }
      }
    }
  }

  lemma DependsDirectly(w: World, alive: set<Name>, n: Name, m: Name)
    requires Step(w, alive, n, m)
    ensures Depends(w, alive, n, m)
  {
    assert Chain(w, alive, [n, m]);
  }

  /** No set closed under dependence that holds these datasets is smaller. */
  lemma ConeSmallest(w: World, alive: set<Name>, roots: set<Name>, reach: set<Name>)
    requires w.Closed(reach, alive) && roots <= reach
    ensures Cone(w, alive, roots) <= reach
  {
    forall n | n in Cone(w, alive, roots) ensures n in reach {
      if n !in roots {
        var s :| s in roots && Depends(w, alive, s, n);
        var c :| Chain(w, alive, c) && |c| > 1 && c[0] == s && c[|c| - 1] == n;
        ChainInside(w, alive, reach, c, |c| - 1);
      }
    }
  }
}

/** A small pool in which a clone lies outside the subtree of the dataset it depends on, as
    zfs destroy meets it. */
module DestroyExample {
  import opened Datasets
  import opened Destroy

  /** A pool, a dataset in it, a snapshot of that, and a clone of the snapshot beside the dataset. */
  function Clone(pool: Name, data: Name, snap: Name, clone: Name): World {
    World(
      {pool, data, snap, clone},
      n => if n == snap then Snapshot else Filesystem,
      n => if n == pool then [data, clone] else [],
      n => if n == data then [snap] else [],
      n => if n == snap then [clone] else [],
      n => if n == snap then data else pool)
  }

  ghost predicate Related(pool: Name, data: Name, snap: Name, clone: Name) {
    && Extends(pool, data) && Extends(pool, clone) && Extends(data, snap) && Below(pool, snap)
    && data != clone && !Below(data, clone) && !Below(clone, data) && snap != clone
    && '@' !in pool && '@' !in data && '@' !in clone
    && '/' !in pool && '/' in data && '/' in clone
  }

  lemma AllDifferent(pool: Name, data: Name, snap: Name, clone: Name)
    requires Related(pool, data, snap, clone)
    ensures pool != data && pool != snap && pool != clone && data != snap && data != clone && snap != clone
    ensures Below(pool, data) && Below(pool, clone) && Below(data, snap)
  {
    assert |pool| < |data| < |snap| && |pool| < |clone|;
  }

  lemma Listed(pool: Name, data: Name, snap: Name, clone: Name)
    requires pool != data && pool != snap && pool != clone && data != snap && data != clone && snap != clone
    ensures var w := Clone(pool, data, snap, clone);
            && w.Next(pool) == [data, clone] && w.Next(data) == [snap] && w.Next(snap) == [clone] && w.Next(clone) == []
  {
  }

  /** Everything above the pool: what is listed, and where it hangs. */
  lemma Hangs(pool: Name, data: Name, snap: Name, clone: Name, n: Name)
    requires Related(pool, data, snap, clone) && n in {data, snap, clone}
    ensures var w := Clone(pool, data, snap, clone);
            && !w.IsPool(n) && w.parent(n) in w.names && n in w.Next(w.parent(n))
            && !w.kind(w.parent(n)).Snapshot? && Extends(w.parent(n), n)
  {
    hide Below, Extends, World.Next;
    AllDifferent(pool, data, snap, clone);
    Listed(pool, data, snap, clone);
    assert n == snap ==> '/' in snap by {
      SlashStays(data, snap);
    }
  }

  lemma SlashStays(data: Name, snap: Name)
    requires Extends(data, snap)
    ensures '/' in data ==> '/' in snap
  {
    assert forall i | 0 <= i < |data| :: data[i] == snap[..|data|][i] == snap[i];
  }

  lemma IsValid(pool: Name, data: Name, snap: Name, clone: Name)
    requires Related(pool, data, snap, clone)
    ensures Clone(pool, data, snap, clone).Valid()
    ensures Clone(pool, data, snap, clone).Rooted({pool, data, snap, clone})
  {
    hide Below, Extends, World.Next, World.Dependent;
    AllDifferent(pool, data, snap, clone);
    Listed(pool, data, snap, clone);
    Hangs(pool, data, snap, clone, data);
    Hangs(pool, data, snap, clone, snap);
    Hangs(pool, data, snap, clone, clone);
    var w := Clone(pool, data, snap, clone);
    assert w.IsPool(pool);
    hide World.IsPool, Related;
  }

  /** With -r the dataset cannot go while its clone is left out, but all of the pool's contents can. */
  lemma CloneOutside(pool: Name, data: Name, snap: Name, clone: Name)
    requires Related(pool, data, snap, clone)
    ensures var w, alive := Clone(pool, data, snap, clone), {pool, data, snap, clone};
            Obstructed(w, true, data, alive) && !Obstructed(w, true, pool, alive)
  {
    var w := Clone(pool, data, snap, clone);
    assert |pool| < |data| < |snap| && |pool| < |clone|;
    assert w.Next(snap) == [clone];
    assert clone in w.Next(snap) && Inside(data, snap) && !Inside(data, clone);
  }

  /** There is such a pool. */
  lemma CloneBeside()
    ensures var w, alive := Clone("p", "p/a", "p/a@s", "p/b"), {"p", "p/a", "p/a@s", "p/b"};
            && w.Valid() && w.Rooted(alive)
            && Obstructed(w, true, "p/a", alive) && !Obstructed(w, true, "p", alive)
  {
    hide Clone, World.Valid, World.Rooted, Obstructed;
    assert Related("p", "p/a", "p/a@s", "p/b") by {
      assert "p/a"[..1] == "p" && "p/b"[..1] == "p" && "p/a@s"[..3] == "p/a" && "p/a@s"[..1] == "p";
      assert "p/a"[2] == 'a' && "p/b"[2] == 'b' && "p/a"[1] == '/' && "p/b"[1] == '/';
    }
    hide Related;
    IsValid("p", "p/a", "p/a@s", "p/b");
    CloneOutside("p", "p/a", "p/a@s", "p/b");
  }
}

/** The datasets of a pool: filesystems and volumes by path, their snapshots, and the clones made
    from those (what lib/libzfs/libzfs_iter.c walks over). */
module Datasets {
  type Name = string

  datatype Kind = Filesystem | Volume | Snapshot

  predicate Separator(c: char) { c == '/' || c == '@' }

  /** The name test of destroy_check_dependent: `n` is in the name subtree under `t`. */
  predicate Below(t: Name, n: Name) {
    |t| < |n| && n[..|t|] == t && Separator(n[|t|])
  }

  predicate Inside(t: Name, n: Name) { n == t || Below(t, n) }

  /** `n` is `p` with one more component. */
  predicate Extends(p: Name, n: Name) {
    Below(p, n) && forall i | |p| < i < |n| :: !Separator(n[i])
  }

  /** The subtree of a name is what goes on from it with a slash or an at sign. */
  lemma BelowExactly(t: Name, n: Name)
    ensures Below(t, n) <==> exists rest :: n == t + "/" + rest || n == t + "@" + rest
  {
    if Below(t, n) {
      var rest := n[|t| + 1..];
      assert n == t + [n[|t|]] + rest;
      assert n == t + "/" + rest || n == t + "@" + rest;
    }
    if rest :| n == t + "/" + rest || n == t + "@" + rest {
      assert n[..|t|] == t;
    }
  }

  lemma BelowTrans(a: Name, b: Name, c: Name)
    requires Below(a, b) && Below(b, c)
    ensures Below(a, c)
  {
    assert c[..|a|] == c[..|b|][..|a|];
    assert c[|a|] == c[..|b|][|a|];
  }

  /** Whatever is above a name is its parent or above its parent. */
  lemma ParentNext(t: Name, p: Name, n: Name)
    requires Extends(p, n) && Below(t, n)
    ensures t == p || Below(t, p)
  {
    assert |t| <= |p|;
    assert n[..|p|][..|t|] == n[..|t|];
    if |t| < |p| {
      assert n[..|p|][|t|] == n[|t|];
    }
  }

  /** Everything a pool holds at the outset, in the order the listing calls give it. */
  datatype World = World(
    names: set<Name>,
    kind: Name -> Kind,
    kids: Name -> seq<Name>,
    snaps: Name -> seq<Name>,
    clones: Name -> seq<Name>,
    parent: Name -> Name)
  {
    predicate IsPool(n: Name) { '/' !in n && kind(n).Filesystem? }

    /** A clone of a snapshot depends on it, and on a filesystem or volume what is right below it. */
    predicate Dependent(n: Name, m: Name) {
      || (kind(n) == Snapshot && m in clones(n))
      || (kind(n) == Filesystem && (m in kids(n) || m in snaps(n)))
      || (kind(n) == Volume && m in snaps(n))
    }

    /** What zfs_iter_clones, or zfs_iter_filesystems and then zfs_iter_snapshots, would list. */
    function Next(n: Name): (next: seq<Name>)
      ensures forall m :: m in next <==> Dependent(n, m)
    {
      if kind(n).Snapshot? then clones(n)
      else (if kind(n).Filesystem? then kids(n) else []) + snaps(n)
    }

    ghost predicate Valid() {
      && (forall n, m | n in names && m in Next(n) :: m in names && !IsPool(m))
      && (forall n, m | n in names && m in kids(n) :: Below(n, m) && parent(m) == n && !kind(m).Snapshot?)
      && (forall n, m | n in names && m in snaps(n) :: Below(n, m) && parent(m) == n && kind(m).Snapshot?)
      && (forall n, m | n in names && m in clones(n) :: !kind(m).Snapshot?)
      && (forall n | n in names && !kind(n).Snapshot? :: '@' !in n)
      && (forall n | n in names && !IsPool(n) ::
            parent(n) in names && n in Next(parent(n)) && !kind(parent(n)).Snapshot? && Extends(parent(n), n))
    }

    /** What depends on something that exists exists only while that does. */
    ghost predicate Rooted(alive: set<Name>) {
      alive <= names && forall n, m | n in names && m in Next(n) :: m in alive ==> n in alive
    }

    ghost predicate Closed(c: set<Name>, alive: set<Name>) {
      forall n, m | n in c && m in Next(n) :: m in alive ==> m in c
    }
  }

  lemma NextFacts(w: World, n: Name, m: Name)
    requires w.Valid() && n in w.names && m in w.Next(n)
    ensures m in w.names && !w.IsPool(m) && (w.kind(n).Snapshot? ==> !w.kind(m).Snapshot?)
  {
  }

  lemma ChildFacts(w: World, n: Name, m: Name)
    requires w.Valid() && n in w.names && !w.kind(n).Snapshot? && m in w.Next(n)
    ensures m in w.names && Extends(n, m) && (w.kind(m).Snapshot? ==> m in w.snaps(n))
  {
  }

  /** Everything in the name subtree of a name is among its dependents. */
  lemma {:induction false} SubtreeDepends(w: World, c: set<Name>, alive: set<Name>, t: Name, n: Name)
    requires w.Valid() && w.Rooted(alive) && w.Closed(c, alive)
    requires t in c && n in alive && Below(t, n)
    ensures n in c
    decreases |n|
  {
    var p := w.parent(n);
    assert n[|t|] in n;
    ParentNext(t, p, n);
    if t == p {
    } else {
      SubtreeDepends(w, c, alive, t, p);
    }
  }

  lemma {:induction false} NothingUnderSnapshot(w: World, s: Name, n: Name)
    requires w.Valid() && n in w.names && w.kind(s).Snapshot?
    ensures !Below(s, n)
    decreases |n|
  {
    if Below(s, n) {
      assert n[|s|] in n;
      ParentNext(s, w.parent(n), n);
      NothingUnderSnapshot(w, s, w.parent(n));
    }
  }

  ghost function Under(w: World, fs: Name): set<Name> {
    set n | n in w.names && Below(fs, n)
  }

  lemma UnderShrinks(w: World, fs: Name, k: Name)
    requires w.Valid() && fs in w.names && k in w.kids(fs) && w.kind(fs).Filesystem?
    ensures Under(w, k) < Under(w, fs)
  {
    hide World.Valid;
    ChildFacts(w, fs, k);
    forall n | n in Under(w, k) ensures n in Under(w, fs) {
      BelowTrans(fs, k, n);
    }
    assert k in Under(w, fs) - Under(w, k);
  }

  /** What lies below a filesystem is one of its children or lies below one. */
  lemma {:induction false} FirstStep(w: World, alive: set<Name>, fs: Name, f: Name) returns (k: Name)
    requires w.Valid() && w.Rooted(alive) && f in alive && !w.kind(f).Snapshot? && Below(fs, f)
    ensures w.kind(fs).Filesystem? && k in w.kids(fs) && k in alive && Inside(k, f)
    decreases |f|
  {
    var p := w.parent(f);
    assert f[|fs|] in f;
    ParentNext(fs, p, f);
    if fs == p {
      k := f;
    } else {
      k := FirstStep(w, alive, fs, p);
      if k != p {
        BelowTrans(k, p, f);
      }
    }
  }
}

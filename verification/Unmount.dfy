/** zfs unmount -a: the mounted filesystems gathered by mountpoint and unmounted in reverse order
    (cmd/zfs/zfs_main.c). */
module Unmount {
  import opened OrderedTree
  import opened Strings

  /** What becomes of a mount table entry: it is not ours to unmount, its dataset cannot be opened,
      or it is taken up. */
  datatype Status = Ignored | Unopened | Taken

  datatype Mount = Mount(status: Status, mountp: string)

  lemma CmpLawful()
    ensures Lawful(Cmp)
  {
    forall a, b: string | Cmp(a, b) > 0 ensures Cmp(b, a) < 0 {
      CmpSigns(a, b);
    }
    forall a, b, c: string | Cmp(a, b) <= 0 && Cmp(b, c) <= 0
      ensures Cmp(a, c) <= 0 && (Cmp(a, b) < 0 || Cmp(b, c) < 0 ==> Cmp(a, c) < 0)
    {
      CmpTrans(a, b, c);
    }
  }

  /** Inserting a mountpoint: it is there once, with the others. */
  lemma InsertMountpoint(tree: seq<string>, p: string)
    requires Ordered(Cmp, tree)
    ensures Ordered(Cmp, Insert(Cmp, tree, p))
    ensures forall x :: x in Insert(Cmp, tree, p) <==> x in tree || x == p
  {
    CmpLawful();
    hide Lawful, Cmp;
    InsertOrdered(Cmp, tree, p);
    if Present(Cmp, tree, p) {
      CmpSigns(p, tree[Place(Cmp, tree, p)]);
    } else {
      SpliceHas(tree, Place(Cmp, tree, p), p);
    }
  }

  /** The do_all branch of unshare_unmount: every mountpoint once, and never one with another of
      them still mounted beneath it. */
  method UnmountAll(table: seq<Mount>, works: string -> bool) returns (ok: bool, attempts: seq<string>)
    ensures forall p :: p in attempts <==> exists i | 0 <= i < |table| :: table[i].status.Taken? && table[i].mountp == p
    ensures forall i, j | 0 <= i < j < |attempts| :: attempts[i] != attempts[j]
    ensures forall i, j | 0 <= i < j < |attempts| :: !(attempts[i] <= attempts[j])
    ensures ok <==>
            (forall p | p in attempts :: works(p)) && (forall i | 0 <= i < |table| :: !table[i].status.Unopened?)
  {
    var tree;
    ok, tree := Gather(table);
    hide Cmp;
    ghost var all := tree;
    attempts := [];
    ghost var allOpen := ok;
    while tree != []
      invariant |tree| + |attempts| == |all| && tree == all[..|tree|]
      invariant forall i | 0 <= i < |attempts| :: attempts[i] == all[|all| - 1 - i]
      invariant ok <==> allOpen && forall p | p in attempts :: works(p)
    {
      var p := tree[|tree| - 1];
      tree := tree[..|tree| - 1];
      attempts := attempts + [p];
      if !works(p) {
        ok := false;
      }
    }
    forall p ensures p in attempts <==> p in all {
      if p in all {
        var i :| 0 <= i < |all| && all[i] == p;
        assert attempts[|all| - 1 - i] == p;
      }
    }
    forall i, j | 0 <= i < j < |attempts| ensures attempts[i] != attempts[j] && !(attempts[i] <= attempts[j]) {
      var p, q := all[|all| - 1 - i], all[|all| - 1 - j];
      BeneathFirst(p, q);
    }
  }

  /** What comes later in the order is not a path above what comes earlier. */
  lemma BeneathFirst(p: string, q: string)
    requires Cmp(q, p) < 0
    ensures p != q && !(p <= q)
  {
    CmpSigns(q, p);
    if p < q {
      PrefixFirst(p, q);
    }
  }

  method Gather(table: seq<Mount>) returns (ok: bool, tree: seq<string>)
    ensures Ordered(Cmp, tree)
    ensures forall p :: p in tree <==> exists i | 0 <= i < |table| :: table[i].status.Taken? && table[i].mountp == p
    ensures ok <==> forall i | 0 <= i < |table| :: !table[i].status.Unopened?
  {
    hide Cmp, Insert;
    ok, tree := true, [];
    for n := 0 to |table|
      invariant Ordered(Cmp, tree)
      invariant forall p :: p in tree <==> exists i | 0 <= i < n :: table[i].status.Taken? && table[i].mountp == p
      invariant ok <==> forall i | 0 <= i < n :: !table[i].status.Unopened?
    {
      match table[n].status {
        case Ignored =>
        case Unopened => ok := false;
        case Taken =>
          InsertMountpoint(tree, table[n].mountp);
          tree := Insert(Cmp, tree, table[n].mountp);
      }
    }
  }
}

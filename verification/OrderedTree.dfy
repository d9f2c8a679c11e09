/** An AVL tree under a comparator, read from its first element to its last: uu_avl_find and
    uu_avl_insert. The comparator need not be a total order. */
module OrderedTree {
  type Order<!T> = (T, T) -> int

  /** Whoever comes later is preceded, and being before or equal is transitive, strictly so if either
      step is. */
  ghost predicate Lawful<T(!new)>(cmp: Order<T>) {
    && (forall a, b :: cmp(a, b) > 0 ==> cmp(b, a) < 0)
    && (forall a, b, c :: cmp(a, b) <= 0 && cmp(b, c) <= 0 ==>
          cmp(a, c) <= 0 && (cmp(a, b) < 0 || cmp(b, c) < 0 ==> cmp(a, c) < 0))
  }

  ghost predicate Ordered<T>(cmp: Order<T>, tree: seq<T>) {
    forall i, j | 0 <= i < j < |tree| :: cmp(tree[i], tree[j]) < 0
  }

  lemma Before<T(!new)>(cmp: Order<T>, a: T, b: T, c: T)
    requires Lawful(cmp) && cmp(a, b) <= 0 && cmp(b, c) < 0
    ensures cmp(a, c) < 0
  {
  }

  lemma Flipped<T(!new)>(cmp: Order<T>, a: T, b: T)
    requires Lawful(cmp) && cmp(a, b) > 0
    ensures cmp(b, a) < 0
  {
  }

  /** Where a search ends up: the first element that does not come before `x`. */
  function Place<T>(cmp: Order<T>, tree: seq<T>, x: T): (p: nat)
    ensures p <= |tree|
    ensures forall i | 0 <= i < p :: cmp(x, tree[i]) > 0
    ensures p < |tree| ==> cmp(x, tree[p]) <= 0
  {
    if tree == [] || cmp(x, tree[0]) <= 0 then 0 else 1 + Place(cmp, tree[1..], x)
  }

  /** Something in the tree compares equal. */
  predicate Present<T>(cmp: Order<T>, tree: seq<T>, x: T) {
    var p := Place(cmp, tree, x);
    p < |tree| && cmp(x, tree[p]) == 0
  }

  function Insert<T>(cmp: Order<T>, tree: seq<T>, x: T): seq<T> {
    if Present(cmp, tree, x) then tree else Splice(tree, Place(cmp, tree, x), x)
  }

  function Splice<T>(tree: seq<T>, p: nat, x: T): seq<T>
    requires p <= |tree|
  {
    tree[..p] + [x] + tree[p..]
  }

  /** Every way of searching an ordered tree ends up in the same place. */
  lemma PlaceIsUnique<T(!new)>(cmp: Order<T>, tree: seq<T>, x: T, j: nat)
    requires Lawful(cmp) && Ordered(cmp, tree) && Place(cmp, tree, x) < j < |tree|
    ensures cmp(x, tree[j]) < 0
  {
    hide Lawful;
    Before(cmp, x, tree[Place(cmp, tree, x)], tree[j]);
  }

  /** The search finds something equal exactly when there is something equal. */
  lemma PresentExactly<T(!new)>(cmp: Order<T>, tree: seq<T>, x: T)
    requires Lawful(cmp) && Ordered(cmp, tree)
    ensures Present(cmp, tree, x) <==> exists i | 0 <= i < |tree| :: cmp(x, tree[i]) == 0
  {
    hide Lawful, Ordered;
    var p := Place(cmp, tree, x);
    forall j | p < j < |tree| ensures cmp(x, tree[j]) < 0 {
      PlaceIsUnique(cmp, tree, x, j);
    }
  }

  lemma InsertOrdered<T(!new)>(cmp: Order<T>, tree: seq<T>, x: T)
    requires Lawful(cmp) && Ordered(cmp, tree)
    ensures Ordered(cmp, Insert(cmp, tree, x))
  {
    hide Lawful, Ordered;
    var p := Place(cmp, tree, x);
    if !Present(cmp, tree, x) {
      forall i | 0 <= i < p ensures cmp(tree[i], x) < 0 {
        Flipped(cmp, x, tree[i]);
      }
      forall j | p <= j < |tree| ensures cmp(x, tree[j]) < 0 {
        if p < j {
          PlaceIsUnique(cmp, tree, x, j);
        }
      }
      SpliceOrdered(cmp, tree, p, x);
    }
  }

  lemma SpliceOrdered<T>(cmp: Order<T>, tree: seq<T>, p: nat, x: T)
    requires Ordered(cmp, tree) && p <= |tree|
    requires forall i | 0 <= i < p :: cmp(tree[i], x) < 0
    requires forall j | p <= j < |tree| :: cmp(x, tree[j]) < 0
    ensures Ordered(cmp, Splice(tree, p, x))
  {
    var out := Splice(tree, p, x);
    forall i, j | 0 <= i < j < |out| ensures cmp(out[i], out[j]) < 0 {
      var i', j' := if i < p then i else i - 1, if j < p then j else j - 1;
      assert i != p ==> out[i] == tree[i'];
      assert j != p ==> out[j] == tree[j'];
    }
  }

  lemma SpliceBag<T>(tree: seq<T>, p: nat, x: T)
    requires p <= |tree|
    ensures multiset(Splice(tree, p, x)) == multiset(tree) + multiset{x}
  {
    assert tree == tree[..p] + tree[p..];
  }

  /** What is inserted is added once, or is left out and changes nothing. */
  lemma InsertBag<T>(cmp: Order<T>, tree: seq<T>, x: T)
    ensures multiset(Insert(cmp, tree, x)) ==
            if Present(cmp, tree, x) then multiset(tree) else multiset(tree) + multiset{x}
  {
    SpliceBag(tree, Place(cmp, tree, x), x);
  }

  lemma SpliceHas<T>(tree: seq<T>, p: nat, x: T)
    requires p <= |tree|
    ensures forall y :: y in Splice(tree, p, x) <==> y in tree || y == x
  {
    assert tree == tree[..p] + tree[p..];
  }
}

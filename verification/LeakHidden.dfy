/** A pool in which zdb's byte sum comes out right although a byte is leaked: the dedup table
    recognises a block by its first copy and birth time only (module/zfs/ddt.c). */
module LeakHidden {
  import opened Base
  import opened PoolSpace
  import opened LeakCheck

  const FIRST := Dva(0, 0, 0, 1)
  const SECOND := Dva(0, 0, 1, 1)
  const KEY := Key(8, 1, 512, 512, 2)
  const UNUSED := Phys([], 0, 0)
  const ENTRY := Entry(UNUSED, Phys([FIRST], 5, 2), UNUSED, UNUSED)
  const WIDE := Block(KEY, [FIRST, SECOND], 5, true, 0)
  const PLAIN := Block(KEY, [FIRST], 5, true, 0)
  const SPACE := {Unit(0, 0, 0), Unit(0, 0, 1)}

  lemma Extents2()
    ensures Extent(FIRST) == {Unit(0, 0, 0)}
    ensures Extent(SECOND) == {Unit(0, 0, 1)}
  {
    assert Between(0, 0, 1) && Between(1, 1, 2);
  }

  lemma WideLooks(s: State)
    requires s.unclaimed == SPACE && s.table == map[KEY := ENTRY]
    ensures Count(s, WIDE) == Some(s.(asize := s.asize + 2, table := Decref(s.table, KEY, Single)))
    ensures Decref(s.table, KEY, Single) == map[KEY := ENTRY.(single := Phys([FIRST], 5, 1))]
  {
    Extents2();
    assert ASize([FIRST, SECOND]) == 2 by {
      assert [FIRST, SECOND][1..] == [SECOND];
      assert ASize([SECOND]) == 1;
    }
    assert DryRun(SPACE, [FIRST, SECOND]);
  }

  lemma PlainClaims(s: State)
    requires s.unclaimed == SPACE && s.table == map[KEY := ENTRY.(single := Phys([FIRST], 5, 1))]
    ensures Count(s, PLAIN).Some?
    ensures Count(s, PLAIN).value.asize == s.asize + 1
    ensures Count(s, PLAIN).value.dedup == s.dedup
    ensures Count(s, PLAIN).value.unclaimed == {Unit(0, 0, 1)}
  {
    Extents2();
    ClaimExact(SPACE, [FIRST]);
    assert Extents([FIRST]) == {Unit(0, 0, 0)};
    assert ASize([FIRST]) == 1;
  }

  /** The verdict is "No leaks" with a byte still in the maps. */
  lemma VerdictCanBeWrong()
    ensures var vs := [Visit(None, WIDE), Visit(None, PLAIN)];
            var r := Check(SPACE, [Walked(DuplicateClass, KEY, ENTRY)], vs);
            && r.Some?
            && NoLeaks(r.value, |SPACE|)
            && r.value.unclaimed != {}
  {
    var walk := [Walked(DuplicateClass, KEY, ENTRY)];
    var s0 := State(SPACE, map[KEY := ENTRY], 0, 1, {});
    assert Init(Start(SPACE), walk) == Some(s0) by {
      assert walk[1..] == [];
      assert ASize([FIRST]) == 1;
      assert map[][KEY := ENTRY] == map[KEY := ENTRY];
    }
    WideLooks(s0);
    var s1 := Count(s0, WIDE).value;
    PlainClaims(s1);
    var vs := [Visit(None, WIDE), Visit(None, PLAIN)];
    assert vs[1..] == [Visit(None, PLAIN)];
    assert vs[1..][1..] == [];
    assert Run(s1, vs[1..]) == Some(Count(s1, PLAIN).value);
    assert Run(s0, vs) == Run(s1, vs[1..]);
    assert |SPACE| == 2;
  }
}

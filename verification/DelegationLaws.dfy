/** What zfs allow writes is what is read back (cmd/zfs/zfs_main.c). */
module DelegationLaws {
  import opened Base
  import opened Delegation

  /** Some name in the list is the same as `q` as far as names are compared. */
  ghost predicate HasName(names: seq<string>, q: string) {
    exists n | n in names :: Trunc(n) == q
  }

  predicate Has(t: Table, k: WhoKey, q: string) { k in t && q in t[k] }

  predicate Flag(p: Perm, loc: char) {
    if loc == LOCAL then p.local else p.descend
  }

  predicate HasAt(t: Table, k: WhoKey, q: string, loc: char) {
    Has(t, k, q) && Flag(t[k][q], loc)
  }

  predicate IsLd(loc: char) { loc == LOCAL || loc == DESCENDENT }

  // ----- what reading makes of a list -----

  lemma HasNameCons(names: seq<string>, q: string)
    requires names != []
    ensures HasName(names, q) <==> Trunc(names[0]) == q || HasName(names[1..], q)
  {
    if HasName(names, q) {
      var n :| n in names && Trunc(n) == q;
      if n != names[0] {
        assert n in names[1..];
      }
    }
    assert names[0] in names;
  }

  lemma {:induction false} SetPermsExact(m: Perms, names: seq<string>, loc: char, q: string, l: char)
    requires IsLd(l)
    ensures var r := SetPerms(m, names, loc);
            && (q in r <==> q in m || HasName(names, q))
            && (q in r ==> (Flag(r[q], l) <==> (q in m && Flag(m[q], l)) || (loc == l && HasName(names, q))))
    decreases |names|
  {
    if names == [] {
    } else {
      HasNameCons(names, q);
      hide HasName;
      SetPermsExact(SetPerm(m, names[0], loc), names[1..], loc, q, l);
    }
  }

  ghost predicate Gives(p: Pair, k: WhoKey, q: string) {
    WellFormed(p) && KeyOf(p) == k && HasName(p.value.value, q)
  }

  ghost predicate AnyGives(nvl: seq<Pair>, k: WhoKey, q: string) {
    nvl != [] && (Gives(nvl[0], k, q) || AnyGives(nvl[1..], k, q))
  }

  ghost predicate AnyGivesAt(nvl: seq<Pair>, k: WhoKey, q: string, loc: char) {
    nvl != [] && ((Gives(nvl[0], k, q) && nvl[0].key[1] == loc) || AnyGivesAt(nvl[1..], k, q, loc))
  }

  lemma PairExact(t: Table, p: Pair, k: WhoKey, q: string, l: char)
    requires WellFormed(p) && IsLd(l)
    ensures Has(ParsePair(t, p), k, q) <==> Has(t, k, q) || Gives(p, k, q)
    ensures HasAt(ParsePair(t, p), k, q, l) <==> HasAt(t, k, q, l) || (Gives(p, k, q) && p.key[1] == l)
  {
    SetPermsExact(if KeyOf(p) in t then t[KeyOf(p)] else map[], p.value.value, p.key[1], q, l);
  }

  /** Reading any well-formed list: a permission is there if some pair gives it, and it applies
      locally or to descendents if some pair gives it there. */
  lemma {:induction false} ParseExact(t: Table, nvl: seq<Pair>, k: WhoKey, q: string, l: char)
    requires forall i | 0 <= i < |nvl| :: WellFormed(nvl[i])
    requires IsLd(l)
    ensures Parse(t, nvl).Some?
    ensures Has(Parse(t, nvl).value, k, q) <==> Has(t, k, q) || AnyGives(nvl, k, q)
    ensures HasAt(Parse(t, nvl).value, k, q, l) <==> HasAt(t, k, q, l) || AnyGivesAt(nvl, k, q, l)
    decreases |nvl|
  {
    if nvl == [] {
    } else {
      PairExact(t, nvl[0], k, q, l);
      hide Has, HasAt, Gives, ParsePair;
      ParseExact(ParsePair(t, nvl[0]), nvl[1..], k, q, l);
    }
  }

  // ----- what writing puts in -----

  predicate IsSetKey(key: string)
    requires key != ""
  {
    key[0] == 'S' || key[0] == 'C' || key[0] == 'U' || key[0] == 'G' || key[0] == 'E'
  }

  /** A pair as one command writes it: its permissions follow from its kind. */
  predicate Standard(p: Pair, bases: seq<string>, sets: seq<string>) {
    WellFormed(p) && p.value.value == (if IsSetKey(p.key) then sets else bases) && p.value.value != []
  }

  predicate AllStandard(top: seq<Pair>, bases: seq<string>, sets: seq<string>) {
    forall p | p in top :: Standard(p, bases, sets)
  }

  /** Replacing a pair by itself loses nothing. */
  lemma {:induction false} WithoutExact(top: seq<Pair>, p: Pair, bases: seq<string>, sets: seq<string>,
                                        k: WhoKey, q: string, loc: char)
    requires AllStandard(top, bases, sets) && Standard(p, bases, sets)
    ensures AllStandard(Without(top, p.key), bases, sets)
    ensures AnyGivesAt(Without(top, p.key), k, q, loc) || (Gives(p, k, q) && p.key[1] == loc) <==>
            AnyGivesAt(top, k, q, loc) || (Gives(p, k, q) && p.key[1] == loc)
    decreases |top|
  {
    if top == [] {
    } else {
      assert Standard(top[0], bases, sets);
      WithoutExact(top[1..], p, bases, sets, k, q, loc);
      hide Gives;
      if top[0].key == p.key {
        assert top[0] == p;
      } else {
        var rest := Without(top[1..], p.key);
        assert ([top[0]] + rest)[1..] == rest;
      }
    }
  }

  lemma {:induction false} GivesSnoc(top: seq<Pair>, p: Pair, k: WhoKey, q: string, loc: char)
    requires |p.key| >= 3
    ensures AnyGivesAt(top + [p], k, q, loc) <==> AnyGivesAt(top, k, q, loc) || (Gives(p, k, q) && p.key[1] == loc)
    decreases |top|
  {
    if top == [] {
      assert top + [p] == [p] && [p][1..] == [];
    } else {
      assert (top + [p])[1..] == top[1..] + [p];
      GivesSnoc(top[1..], p, k, q, loc);
    }
  }

  lemma AddExact(top: seq<Pair>, p: Pair, bases: seq<string>, sets: seq<string>, k: WhoKey, q: string, loc: char)
    requires AllStandard(top, bases, sets) && Standard(p, bases, sets)
    ensures AllStandard(AddPair(top, p), bases, sets)
    ensures AnyGivesAt(AddPair(top, p), k, q, loc) <==>
            AnyGivesAt(top, k, q, loc) || (Gives(p, k, q) && p.key[1] == loc)
  {
    WithoutExact(top, p, bases, sets, k, q, loc);
    GivesSnoc(Without(top, p.key), p, k, q, loc);
  }

  lemma KeyReadsBack(c: char, loc: char, who: string)
    ensures var key := PairKey(c, loc, who);
            |key| >= 3 && key[0] == c && key[1] == loc && key[2] == '$' && Trunc(key[3..]) == Trunc(who)
  {
    var full := [c, loc, '$'] + who;
    if |full| > 287 {
      assert full[..287][3..] == who[..284];
      assert who[..284][..127] == who[..127];
    } else {
      assert full[3..] == who;
    }
  }

  predicate Written(w: Who, who: string, loc: char, k: WhoKey, at: char) {
    k == WhoKey(w, Trunc(who)) && at == loc
  }

  lemma PairGives(c: char, w: Who, loc: char, who: string, names: seq<string>, k: WhoKey, q: string)
    requires WhoOf(c) == Some(w) && (IsLd(loc) || loc == NA)
    ensures var p := Pair(PairKey(c, loc, who), Some(names));
            && WellFormed(p) && p.key[0] == c && p.key[1] == loc
            && (Gives(p, k, q) <==> k == WhoKey(w, Trunc(who)) && HasName(names, q))
  {
    KeyReadsBack(c, loc, who);
  }

  lemma StoreAtExact(top: seq<Pair>, w: Who, loc: char, who: string, bases: seq<string>, sets: seq<string>,
                     k: WhoKey, q: string, at: char)
    requires AllStandard(top, bases, sets) && (IsLd(loc) || loc == NA)
    ensures var r := StoreAt(top, w, loc, who, Some((bases, sets)));
            && AllStandard(r, bases, sets)
            && (AnyGivesAt(r, k, q, at) <==>
                AnyGivesAt(top, k, q, at) || (Written(w, who, loc, k, at) && (HasName(bases, q) || HasName(sets, q))))
  {
    var b, s := Pair(PairKey(BaseChar(w), loc, who), Some(bases)), Pair(PairKey(SetChar(w), loc, who), Some(sets));
    PairGives(BaseChar(w), w, loc, who, bases, k, q);
    PairGives(SetChar(w), w, loc, who, sets, k, q);
    hide Gives, AnyGivesAt, PairKey, WellFormed, AddPair, AllStandard;
    var t1 := if bases == [] then top else AddPair(top, b);
    if bases != [] {
      AddExact(top, b, bases, sets, k, q, at);
    }
    if sets != [] {
      AddExact(t1, s, bases, sets, k, q, at);
    }
  }

  lemma {:induction false} StoreEachExact(top: seq<Pair>, w: Who, locs: seq<char>, who: string, bases: seq<string>,
                                          sets: seq<string>, k: WhoKey, q: string, at: char)
    requires AllStandard(top, bases, sets)
    requires forall l | l in locs :: IsLd(l) || l == NA
    ensures var r := StoreEach(top, w, locs, who, Some((bases, sets)));
            && AllStandard(r, bases, sets)
            && (AnyGivesAt(r, k, q, at) <==>
                || AnyGivesAt(top, k, q, at)
                || (k == WhoKey(w, Trunc(who)) && at in locs && (HasName(bases, q) || HasName(sets, q))))
    decreases |locs|
  {
    if locs == [] {
    } else {
      StoreAtExact(top, w, locs[0], who, bases, sets, k, q, at);
      hide StoreAt, AnyGivesAt, AllStandard, HasName;
      StoreEachExact(StoreAt(top, w, locs[0], who, Some((bases, sets))), w, locs[1..], who, bases, sets, k, q, at);
    }
  }

  /** The command addresses `k` at the locality `at`. */
  ghost predicate Addressed(whos: seq<Grantee>, local: bool, descend: bool, k: WhoKey, at: char) {
    exists w | w in whos :: k == WhoKey(w.who, Trunc(w.name)) && at in Localities(w.who, local, descend)
  }

  lemma AddressedCons(whos: seq<Grantee>, local: bool, descend: bool, k: WhoKey, at: char)
    requires whos != []
    ensures Addressed(whos, local, descend, k, at) <==>
            || (k == WhoKey(whos[0].who, Trunc(whos[0].name)) && at in Localities(whos[0].who, local, descend))
            || Addressed(whos[1..], local, descend, k, at)
  {
    if Addressed(whos, local, descend, k, at) {
      var w :| w in whos && k == WhoKey(w.who, Trunc(w.name)) && at in Localities(w.who, local, descend);
      if w != whos[0] {
        assert w in whos[1..];
      }
    }
    assert whos[0] in whos;
  }

  lemma {:induction false} StoreAllExact(top: seq<Pair>, whos: seq<Grantee>, local: bool, descend: bool,
                                         bases: seq<string>, sets: seq<string>, k: WhoKey, q: string, at: char)
    requires AllStandard(top, bases, sets)
    ensures var r := StoreAll(top, whos, local, descend, Some((bases, sets)));
            && AllStandard(r, bases, sets)
            && (AnyGivesAt(r, k, q, at) <==>
                || AnyGivesAt(top, k, q, at)
                || (Addressed(whos, local, descend, k, at) && (HasName(bases, q) || HasName(sets, q))))
    decreases |whos|
  {
    if whos == [] {
    } else {
      var locs := Localities(whos[0].who, local, descend);
      StoreEachExact(top, whos[0].who, locs, whos[0].name, bases, sets, k, q, at);
      AddressedCons(whos, local, descend, k, at);
      hide StoreEach, AnyGivesAt, AllStandard, HasName, Addressed, Localities, Trunc;
      StoreAllExact(StoreEach(top, whos[0].who, locs, whos[0].name, Some((bases, sets))), whos[1..], local, descend,
                    bases, sets, k, q, at);
    }
  }

  // ----- the two together -----

  lemma {:induction false} DropExact(names: seq<string>, name: string, n: string)
    ensures n in Drop(names, name) <==> n in names && n != name
  {
    if names == [] {
    } else {
      DropExact(names[1..], name, n);
    }
  }

  lemma {:induction false} SplitExact(bases: seq<string>, sets: seq<string>, items: seq<string>, n: string)
    ensures n in Bases(bases, items) <==> n in bases || (n in items && !IsSetName(n))
    ensures n in Sets(sets, items) <==> n in sets || (n in items && IsSetName(n))
    decreases |items|
  {
    if items == [] {
    } else {
      DropExact(bases, items[0], n);
      DropExact(sets, items[0], n);
      hide Drop;
      SplitExact(if IsSetName(items[0]) then bases else AddName(bases, items[0]),
                 if IsSetName(items[0]) then AddName(sets, items[0]) else sets, items[1..], n);
    }
  }

  lemma NamesExact(items: seq<string>, q: string)
    ensures HasName(Bases([], items), q) || HasName(Sets([], items), q) <==> HasName(items, q)
  {
    forall n ensures n in Bases([], items) <==> n in items && !IsSetName(n)
             ensures n in Sets([], items) <==> n in items && IsSetName(n)
    {
      SplitExact([], [], items, n);
    }
  }

  lemma {:induction false} GivesSomewhere(nvl: seq<Pair>, k: WhoKey, q: string)
    requires forall i | 0 <= i < |nvl| :: WellFormed(nvl[i])
    ensures AnyGives(nvl, k, q) <==>
            AnyGivesAt(nvl, k, q, LOCAL) || AnyGivesAt(nvl, k, q, DESCENDENT) || AnyGivesAt(nvl, k, q, NA)
  {
    if nvl == [] {
    } else {
      GivesSomewhere(nvl[1..], k, q);
    }
  }

  /** Every node holds a permission. */
  predicate NoEmptyNode(t: Table) { forall k | k in t :: t[k] != map[] }

  lemma {:induction false} ParseKeepsFull(t: Table, nvl: seq<Pair>)
    requires NoEmptyNode(t)
    requires forall i | 0 <= i < |nvl| :: WellFormed(nvl[i]) && nvl[i].value.value != []
    ensures Parse(t, nvl).Some? && NoEmptyNode(Parse(t, nvl).value)
    decreases |nvl|
  {
    if nvl == [] {
    } else {
      var p := nvl[0];
      var was, names := if KeyOf(p) in t then t[KeyOf(p)] else map[], p.value.value;
      SetPermsExact(was, names, p.key[1], Trunc(names[0]), LOCAL);
      ParseKeepsFull(ParsePair(t, p), nvl[1..]);
    }
  }

  /** A delegation of the listed permissions to the listed users, groups, sets, everyone or
      create-time owners reads back as one node for each of them, told apart by the first 127
      characters, that holds exactly the listed permissions and sets, with the flags given. */
  lemma AllowReadsBack(whos: seq<Grantee>, local: bool, descend: bool, perms: string, k: WhoKey, q: string)
    ensures var t := Parse(map[], StoreAll([], whos, local, descend, Listed(Some(perms))));
            && t.Some?
            && NoEmptyNode(t.value)
            && (Has(t.value, k, q) <==>
                && HasName(Items(perms), q)
                && exists at | at in [LOCAL, DESCENDENT, NA] :: Addressed(whos, local, descend, k, at))
            && (Has(t.value, k, q) ==>
                t.value[k][q].local == (IsUge(k.who) && local) && t.value[k][q].descend == (IsUge(k.who) && descend))
  {
    hide StoreAll, Parse, Items, Bases, Sets, HasName, NoEmptyNode;
    var items := Items(perms);
    var bases, sets := Bases([], items), Sets([], items);
    var nvl := StoreAll([], whos, local, descend, Some((bases, sets)));
    StoreAllExact([], whos, local, descend, bases, sets, k, q, LOCAL);
    StoreAllExact([], whos, local, descend, bases, sets, k, q, DESCENDENT);
    StoreAllExact([], whos, local, descend, bases, sets, k, q, NA);
    NamesExact(items, q);
    assert forall i | 0 <= i < |nvl| :: Standard(nvl[i], bases, sets);
    ParseExact(map[], nvl, k, q, LOCAL);
    ParseExact(map[], nvl, k, q, DESCENDENT);
    GivesSomewhere(nvl, k, q);
    ParseKeepsFull(map[], nvl);
  }

  /** The command gives `q` to the user, the group or everyone that `k` stands for. */
  ghost predicate Granted(whos: seq<Grantee>, perms: string, k: WhoKey, q: string) {
    IsUge(k.who) && HasName(Items(perms), q) && exists w | w in whos :: k == WhoKey(w.who, Trunc(w.name))
  }

  /** Each permission given to a user, a group or everyone belongs in the section for the flags it was
      given with, and in no other. */
  lemma OneSection(whos: seq<Grantee>, local: bool, descend: bool, perms: string, k: WhoKey, q: string,
                   l: bool, d: bool)
    requires (l || d) && IsUge(k.who)
    ensures var t := Parse(map[], StoreAll([], whos, local, descend, Listed(Some(perms))));
            && t.Some?
            && (Has(t.value, k, q) && InSection(t.value[k][q], l, d) <==>
                l == local && d == descend && Granted(whos, perms, k, q))
  {
    AllowReadsBack(whos, local, descend, perms, k, q);
    hide Parse, StoreAll, Listed, HasName, Items, Trunc;
    if l == local && d == descend {
      AddressedSomewhere(whos, local, descend, k);
    }
  }

  lemma AddressedSomewhere(whos: seq<Grantee>, local: bool, descend: bool, k: WhoKey)
    requires (local || descend) && IsUge(k.who)
    ensures (exists at | at in [LOCAL, DESCENDENT, NA] :: Addressed(whos, local, descend, k, at)) <==>
            exists w | w in whos :: k == WhoKey(w.who, Trunc(w.name))
  {
    var at := if local then LOCAL else DESCENDENT;
    if w :| w in whos && k == WhoKey(w.who, Trunc(w.name)) {
      assert at in [LOCAL, DESCENDENT, NA] && at in Localities(w.who, local, descend);
      assert Addressed(whos, local, descend, k, at);
    }
  }

  lemma GrantedUge(whos: seq<Grantee>, perms: string, k: WhoKey, q: string)
    ensures Granted(whos, perms, k, q) ==> IsUge(k.who)
  {
  }

  lemma SectionExact(sc: Table, uge: Table, whos: seq<Grantee>, local: bool, descend: bool, perms: string,
                     k: WhoKey, q: string, l: bool, d: bool)
    requires (forall k | k in sc :: !IsUge(k.who)) && (forall k | k in uge :: IsUge(k.who)) && (l || d)
    requires Some(sc + uge) == Parse(map[], StoreAll([], whos, local, descend, Listed(Some(perms))))
    ensures k in uge && q in uge[k] && InSection(uge[k][q], l, d) <==>
            l == local && d == descend && Granted(whos, perms, k, q)
  {
    hide Parse, StoreAll, Listed;
    GrantedUge(whos, perms, k, q);
    if IsUge(k.who) {
      OneSection(whos, local, descend, perms, k, q, l, d);
    }
  }

  /** What zfs allow with these arguments leaves behind, as zfs allow without any then shows it: every
      permission given is printed once, in the one section for its flags, and nothing else is. */
  method AllowThenShow(whos: seq<Grantee>, local: bool, descend: bool, perms: string)
      returns (locals: seq<(WhoKey, string)>, descends: seq<(WhoKey, string)>, both: seq<(WhoKey, string)>)
    ensures forall k, q :: (k, q) in locals <==> local && !descend && Granted(whos, perms, k, q)
    ensures forall k, q :: (k, q) in descends <==> !local && descend && Granted(whos, perms, k, q)
    ensures forall k, q :: (k, q) in both <==> local && descend && Granted(whos, perms, k, q)
    ensures forall out | out in [locals, descends, both] :: forall i, j | 0 <= i < j < |out| :: out[i] != out[j]
  {
    hide Granted, Parse, StoreAll, Listed;
    var nvl := ConstructFsaclList(whos, local, descend, Some(perms));
    var shown := new FsPerm();
    ghost var t := Parse(map[], StoreAll([], whos, local, descend, Listed(Some(perms))));
    OneSection(whos, local, descend, perms, WhoKey(Everyone, ""), "", true, true);
    var ok := shown.ParseFsPerm(nvl);
    locals := shown.PrintSection(true, false);
    descends := shown.PrintSection(false, true);
    both := shown.PrintSection(true, true);
    ghost var uge := shown.uge;
    forall k, q ensures (k, q) in locals <==> local && !descend && Granted(whos, perms, k, q) {
      SectionExact(shown.sc, uge, whos, local, descend, perms, k, q, true, false);
    }
    forall k, q ensures (k, q) in descends <==> !local && descend && Granted(whos, perms, k, q) {
      SectionExact(shown.sc, uge, whos, local, descend, perms, k, q, false, true);
    }
    forall k, q ensures (k, q) in both <==> local && descend && Granted(whos, perms, k, q) {
      SectionExact(shown.sc, uge, whos, local, descend, perms, k, q, true, true);
    }
  }

  // ----- taking everything away -----

  /** One of the two names a grantee's permissions are stored under at a locality. */
  predicate NameFor(w: Grantee, local: bool, descend: bool, key: string) {
    exists loc | loc in Localities(w.who, local, descend) ::
      key == PairKey(BaseChar(w.who), loc, w.name) || key == PairKey(SetChar(w.who), loc, w.name)
  }

  ghost predicate NameForAny(whos: seq<Grantee>, local: bool, descend: bool, key: string) {
    exists w | w in whos :: NameFor(w, local, descend, key)
  }

  predicate Bare(top: seq<Pair>) { forall p | p in top :: p.value.None? }

  lemma {:induction false} WithoutHas(top: seq<Pair>, key: string, p: Pair)
    ensures p in Without(top, key) <==> p in top && p.key != key
  {
    if top == [] {
    } else {
      WithoutHas(top[1..], key, p);
    }
  }

  lemma AddBare(top: seq<Pair>, key: string, p: Pair)
    requires Bare(top)
    ensures Bare(AddPair(top, Pair(key, None)))
    ensures p in AddPair(top, Pair(key, None)) <==> p in top || p == Pair(key, None)
  {
    forall x ensures x in Without(top, key) <==> x in top && x.key != key {
      WithoutHas(top, key, x);
    }
  }

  lemma {:induction false} StoreEachBare(top: seq<Pair>, w: Who, locs: seq<char>, who: string, p: Pair)
    requires Bare(top)
    ensures Bare(StoreEach(top, w, locs, who, None))
    ensures p in StoreEach(top, w, locs, who, None) <==>
            || p in top
            || (p.value.None? && exists loc | loc in locs ::
                  p.key == PairKey(BaseChar(w), loc, who) || p.key == PairKey(SetChar(w), loc, who))
    decreases |locs|
  {
    if locs == [] {
    } else {
      var base, set_ := PairKey(BaseChar(w), locs[0], who), PairKey(SetChar(w), locs[0], who);
      var t1 := AddPair(top, Pair(base, None));
      AddBare(top, base, p);
      AddBare(t1, set_, p);
      hide PairKey, AddPair, BaseChar, SetChar, Bare;
      StoreEachBare(StoreAt(top, w, locs[0], who, None), w, locs[1..], who, p);
      assert forall loc :: loc in locs <==> loc == locs[0] || loc in locs[1..];
    }
  }

  /** Without permissions the list has, for every grantee and locality, the two names that permissions are
      stored under, bare, and nothing else. */
  lemma {:induction false} RevokesExact(top: seq<Pair>, whos: seq<Grantee>, local: bool, descend: bool, p: Pair)
    requires Bare(top)
    ensures Bare(StoreAll(top, whos, local, descend, None))
    ensures p in StoreAll(top, whos, local, descend, None) <==>
            p in top || (p.value.None? && NameForAny(whos, local, descend, p.key))
    decreases |whos|
  {
    if whos == [] {
    } else {
      var w := whos[0];
      var locs := Localities(w.who, local, descend);
      StoreEachBare(top, w.who, locs, w.name, p);
      hide StoreEach, Bare, PairKey, BaseChar, SetChar, Localities;
      RevokesExact(StoreEach(top, w.who, locs, w.name, None), whos[1..], local, descend, p);
      assert forall x :: x in whos <==> x == w || x in whos[1..];
      assert NameFor(w, local, descend, p.key) ==> NameForAny(whos, local, descend, p.key);
    }
  }

  function Least(a: nat, b: nat): nat { if a < b then a else b }

  /** Under a capital letter are the permission sets, which start with '@', and under a small one the
      permissions. */
  lemma StoredUnder(whos: seq<Grantee>, local: bool, descend: bool, perms: string, p: Pair, n: string)
    requires p in StoreAll([], whos, local, descend, Listed(Some(perms))) && p.value.Some? && n in p.value.value
    ensures p.key != "" && (p.key[0] in "UGECS" || p.key[0] in "ugecs")
    ensures p.key[0] in "UGECS" <==> n != "" && n[0] == '@'
  {
    hide StoreAll, Bases, Sets;
    var items := Items(perms);
    StoreAllExact([], whos, local, descend, Bases([], items), Sets([], items), WhoKey(User, ""), "", LOCAL);
    assert Standard(p, Bases([], items), Sets([], items));
    SplitExact([], [], items, n);
  }

  /** How a grantee is written, and how a locality is. */
  lemma Letters()
    ensures BaseChar(User) == 'u' && BaseChar(Group) == 'g' && BaseChar(Everyone) == 'e'
    ensures BaseChar(Create) == 'c' && BaseChar(NamedSet) == 's'
    ensures SetChar(User) == 'U' && SetChar(Group) == 'G' && SetChar(Everyone) == 'E'
    ensures SetChar(Create) == 'C' && SetChar(NamedSet) == 'S'
    ensures LOCAL == 'l' && DESCENDENT == 'd' && NA == '-'
    ensures IsUge(User) && IsUge(Group) && IsUge(Everyone) && !IsUge(Create) && !IsUge(NamedSet)
    ensures forall c, l, who :: PairKey(c, l, who) == ([c, l, '$'] + who)[..Least(|who| + 3, 287)]
    ensures forall s :: Trunc(s) == s[..Least(|s|, 127)]
  {
  }
}

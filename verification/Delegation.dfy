/** zfs allow: delegated permissions written as a list of named pairs, and the table of
    permissions read back from such a list (cmd/zfs/zfs_main.c). */
module Delegation {
  import opened Base

  /** Who a permission is given to; the order of the constructors is that of who_type2weight. */
  datatype Who = NamedSet | Create | User | Group | Everyone

  const LOCAL := 'l'
  const DESCENDENT := 'd'
  const NA := '-'

  function BaseChar(w: Who): char {
    match w case NamedSet => 's' case Create => 'c' case User => 'u' case Group => 'g' case Everyone => 'e'
  }

  function SetChar(w: Who): char {
    match w case NamedSet => 'S' case Create => 'C' case User => 'U' case Group => 'G' case Everyone => 'E'
  }

  function WhoOf(c: char): Option<Who> {
    if c == 's' || c == 'S' then Some(NamedSet)
    else if c == 'c' || c == 'C' then Some(Create)
    else if c == 'u' || c == 'U' then Some(User)
    else if c == 'g' || c == 'G' then Some(Group)
    else if c == 'e' || c == 'E' then Some(Everyone)
    else None
  }

  predicate IsUge(w: Who) { w.User? || w.Group? || w.Everyone? }

  function Cut(s: string, n: nat): string {
    if |s| <= n then s else s[..n]
  }

  /** Names are told apart by their first ZFS_MAX_DELEG_NAME - 1 characters only. */
  function Trunc(s: string): string { Cut(s, 127) }

  // ----- writing -----

  /** A pair of the outer list: a list of permissions, or a bare name when taking all away. */
  datatype Pair = Pair(key: string, value: Option<seq<string>>)

  /** An nvlist with unique names: adding a name again drops the earlier pair. */
  function Without(top: seq<Pair>, key: string): seq<Pair> {
    if top == [] then []
    else if top[0].key == key then Without(top[1..], key)
    else [top[0]] + Without(top[1..], key)
  }

  function AddPair(top: seq<Pair>, p: Pair): seq<Pair> {
    Without(top, p.key) + [p]
  }

  function Drop(names: seq<string>, name: string): seq<string> {
    if names == [] then []
    else if names[0] == name then Drop(names[1..], name)
    else [names[0]] + Drop(names[1..], name)
  }

  function AddName(names: seq<string>, name: string): seq<string> {
    Drop(names, name) + [name]
  }

  /** snprintf into who_buf. */
  function PairKey(c: char, locality: char, who: string): string {
    Cut([c, locality, '$'] + who, 287)
  }

  function FirstComma(s: string): nat
    ensures FirstComma(s) <= |s|
    ensures FirstComma(s) < |s| ==> s[FirstComma(s)] == ','
    ensures forall i | 0 <= i < FirstComma(s) :: s[i] != ','
  {
    if s == "" || s[0] == ',' then 0 else 1 + FirstComma(s[1..])
  }

  /** The comma-separated items; a comma at the very end adds none. */
  function Items(s: string): seq<string>
    decreases |s|
  {
    if s == "" then []
    else
      var n := FirstComma(s);
      if n == |s| then [s] else [s[..n]] + Items(s[n + 1..])
  }

  lemma ItemsStep(s: string)
    requires s != ""
    ensures var n := FirstComma(s);
            Items(s) == [s[..n]] + Items(if n == |s| then "" else s[n + 1..])
  {
    hide FirstComma;
    assert s[..|s|] == s;
  }

  predicate IsSetName(item: string) { item != "" && item[0] == '@' }

  function Bases(names: seq<string>, items: seq<string>): seq<string>
    decreases |items|
  {
    if items == [] then names
    else Bases(if IsSetName(items[0]) then names else AddName(names, items[0]), items[1..])
  }

  function Sets(names: seq<string>, items: seq<string>): seq<string>
    decreases |items|
  {
    if items == [] then names
    else Sets(if IsSetName(items[0]) then AddName(names, items[0]) else names, items[1..])
  }

  /** The locality characters used: both, one, none, or the single one that says neither applies. */
  function Localities(w: Who, local: bool, descend: bool): seq<char> {
    if !IsUge(w) then [NA] else (if local then [LOCAL] else []) + (if descend then [DESCENDENT] else [])
  }

  /** One turn of the loop over localities. */
  function StoreAt(top: seq<Pair>, w: Who, loc: char, who: string,
                   value: Option<(seq<string>, seq<string>)>): seq<Pair> {
    match value
    case None =>
      var t1 := AddPair(top, Pair(PairKey(BaseChar(w), loc, who), None));
      AddPair(t1, Pair(PairKey(SetChar(w), loc, who), None))
    case Some((bases, sets)) =>
      var t1 := if bases == [] then top else AddPair(top, Pair(PairKey(BaseChar(w), loc, who), Some(bases)));
      if sets == [] then t1 else AddPair(t1, Pair(PairKey(SetChar(w), loc, who), Some(sets)))
  }

  function StoreEach(top: seq<Pair>, w: Who, locs: seq<char>, who: string,
                     value: Option<(seq<string>, seq<string>)>): seq<Pair>
    decreases |locs|
  {
    if locs == [] then top else StoreEach(StoreAt(top, w, locs[0], who, value), w, locs[1..], who, value)
  }

  function Listed(perms: Option<string>): Option<(seq<string>, seq<string>)> {
    match perms case None => None case Some(s) => Some((Bases([], Items(s)), Sets([], Items(s))))
  }

  /** The permissions split at the commas into plain ones and sets. */
  method SplitPerms(perms: string) returns (bases: seq<string>, sets: seq<string>)
    ensures Listed(Some(perms)) == Some((bases, sets))
  {
    bases, sets := [], [];
    var rest := perms;
    while rest != ""
      invariant Bases(bases, Items(rest)) == Bases([], Items(perms))
      invariant Sets(sets, Items(rest)) == Sets([], Items(perms))
      decreases |rest|
    {
      var n := FirstComma(rest);
      var item := rest[..n];
      ItemsStep(rest);
      hide Items, FirstComma, AddName;
      if IsSetName(item) {
        sets := AddName(sets, item);
      } else {
        bases := AddName(bases, item);
      }
      rest := if n == |rest| then "" else rest[n + 1..];
    }
  }

  /** store_allow_perm; an absent name is the empty one. */
  method StoreAllowPerm(top: seq<Pair>, w: Who, local: bool, descend: bool, who: string, perms: Option<string>)
    returns (out: seq<Pair>)
    ensures out == StoreEach(top, w, Localities(w, local, descend), who, Listed(perms))
  {
    out := top;
    var locs := Localities(w, local, descend);
    var bases, sets := [], [];
    if perms.Some? {
      bases, sets := SplitPerms(perms.value);
    }
    for i := 0 to |locs|
      invariant StoreEach(out, w, locs[i..], who, Listed(perms)) == StoreEach(top, w, locs, who, Listed(perms))
    {
      assert locs[i..][1..] == locs[i + 1..];
      if perms.Some? {
        if bases != [] {
          out := AddPair(out, Pair(PairKey(BaseChar(w), locs[i], who), Some(bases)));
        }
        if sets != [] {
          out := AddPair(out, Pair(PairKey(SetChar(w), locs[i], who), Some(sets)));
        }
      } else {
        out := AddPair(out, Pair(PairKey(BaseChar(w), locs[i], who), None));
        out := AddPair(out, Pair(PairKey(SetChar(w), locs[i], who), None));
      }
    }
  }

  /** Someone a permission is given to, by id or set name. */
  datatype Grantee = Grantee(who: Who, name: string)

  function StoreAll(top: seq<Pair>, whos: seq<Grantee>, local: bool, descend: bool,
                    value: Option<(seq<string>, seq<string>)>): seq<Pair>
    decreases |whos|
  {
    if whos == [] then top
    else
      var w := whos[0];
      var locs := Localities(w.who, local, descend);
      StoreAll(StoreEach(top, w.who, locs, w.name, value), whos[1..], local, descend, value)
  }

  /** construct_fsacl_list, once the users and groups named on the command line are known. */
  method ConstructFsaclList(whos: seq<Grantee>, local: bool, descend: bool, perms: Option<string>)
    returns (out: seq<Pair>)
    ensures out == StoreAll([], whos, local, descend, Listed(perms))
  {
    out := [];
    for i := 0 to |whos|
      invariant StoreAll(out, whos[i..], local, descend, Listed(perms)) ==
                StoreAll([], whos, local, descend, Listed(perms))
    {
      assert whos[i..][1..] == whos[i + 1..];
      out := StoreAllowPerm(out, whos[i].who, local, descend, whos[i].name, perms);
    }
  }

  // ----- reading -----

  datatype Perm = Perm(name: string, local: bool, descend: bool)

  type Perms = map<string, Perm>

  /** What who_perm_compare distinguishes. */
  datatype WhoKey = WhoKey(who: Who, name: string)

  type Table = map<WhoKey, Perms>

  function SetPerm(m: Perms, name: string, loc: char): Perms {
    var k := Trunc(name);
    var p := if k in m then m[k] else Perm(name, false, false);
    m[k := if loc == LOCAL then p.(local := true) else if loc == DESCENDENT then p.(descend := true) else p]
  }

  function SetPerms(m: Perms, names: seq<string>, loc: char): Perms
    decreases |names|
  {
    if names == [] then m else SetPerms(SetPerm(m, names[0], loc), names[1..], loc)
  }

  predicate WellFormed(p: Pair) {
    && |p.key| >= 3 && WhoOf(p.key[0]).Some? && p.key[2] == '$'
    && (p.key[1] == LOCAL || p.key[1] == DESCENDENT || p.key[1] == NA)
    && p.value.Some?
  }

  function KeyOf(p: Pair): WhoKey
    requires WellFormed(p)
  {
    WhoKey(WhoOf(p.key[0]).value, Trunc(p.key[3..]))
  }

  function ParsePair(t: Table, p: Pair): Table
    requires WellFormed(p)
  {
    var k := KeyOf(p);
    t[k := SetPerms(if k in t then t[k] else map[], p.value.value, p.key[1])]
  }

  function Parse(t: Table, nvl: seq<Pair>): Option<Table>
    decreases |nvl|
  {
    if nvl == [] then Some(t)
    else if !WellFormed(nvl[0]) then None
    else Parse(ParsePair(t, nvl[0]), nvl[1..])
  }

  lemma InRest(sc: Table, uge: Table, k: WhoKey, m: Perms)
    ensures sc + uge[k := m] == (sc + uge)[k := m]
  {
  }

  lemma InSets(sc: Table, uge: Table, k: WhoKey, m: Perms)
    requires k !in uge
    ensures sc[k := m] + uge == (sc + uge)[k := m]
  {
  }

  /** fs_perm_t: one tree for the sets and create-time permissions, one for the rest. */
  class FsPerm {
    var sc: Table
    var uge: Table

    ghost predicate Valid()
      reads this
    {
      (forall k | k in sc :: !IsUge(k.who)) && (forall k | k in uge :: IsUge(k.who))
    }

    ghost function Contents(): Table
      reads this
    {
      sc + uge
    }

    constructor ()
      ensures Valid() && Contents() == map[]
    {
      sc, uge := map[], map[];
    }

    /** parse_who_perm with set_deleg_perm_node, on the node's own tree. */
    static method ParseWhoPerm(m: Perms, names: seq<string>, loc: char) returns (out: Perms)
      ensures out == SetPerms(m, names, loc)
    {
      out := m;
      for i := 0 to |names|
        invariant SetPerms(out, names[i..], loc) == SetPerms(m, names, loc)
      {
        assert names[i..][1..] == names[i + 1..];
        var k := Trunc(names[i]);
        ghost var before := out;
        if k !in out {
          out := out[k := Perm(names[i], false, false)];
        }
        if loc == LOCAL {
          out := out[k := out[k].(local := true)];
        } else if loc == DESCENDENT {
          out := out[k := out[k].(descend := true)];
        }
        assert out == SetPerm(before, names[i], loc);
      }
    }

    method ParseOne(p: Pair)
      requires Valid() && WellFormed(p)
      modifies this
      ensures Valid() && Contents() == ParsePair(old(Contents()), p)
    {
      var k := KeyOf(p);
      hide SetPerms, WellFormed;
      if IsUge(k.who) {
        var m := ParseWhoPerm(if k in uge then uge[k] else map[], p.value.value, p.key[1]);
        InRest(sc, uge, k, m);
        uge := uge[k := m];
      } else {
        var m := ParseWhoPerm(if k in sc then sc[k] else map[], p.value.value, p.key[1]);
        InSets(sc, uge, k, m);
        sc := sc[k := m];
      }
    }

    /** parse_fs_perm; false is a pair it cannot read. */
    method ParseFsPerm(nvl: seq<Pair>) returns (ok: bool)
      requires Valid()
      modifies this
      ensures Valid()
      ensures ok <==> Parse(old(Contents()), nvl).Some?
      ensures ok ==> Contents() == Parse(old(Contents()), nvl).value
    {
      for i := 0 to |nvl|
        invariant Valid()
        invariant Parse(Contents(), nvl[i..]) == Parse(old(Contents()), nvl)
      {
        assert nvl[i..][1..] == nvl[i + 1..];
        if !WellFormed(nvl[i]) {
          return false;
        }
        ParseOne(nvl[i]);
      }
      ok := true;
    }

    /** One section of print_uge_deleg_perms: what it prints, in some order. */
    method PrintSection(local: bool, descend: bool) returns (out: seq<(WhoKey, string)>)
      ensures forall i, j | 0 <= i < j < |out| :: out[i] != out[j]
      ensures forall k, q :: (k, q) in out <==> k in uge && q in uge[k] && InSection(uge[k][q], local, descend)
    {
      out := [];
      var rest := uge.Keys;
      while rest != {}
        invariant rest <= uge.Keys
        invariant forall i, j | 0 <= i < j < |out| :: out[i] != out[j]
        invariant forall k, q :: (k, q) in out <==>
                    k in uge && k !in rest && q in uge[k] && InSection(uge[k][q], local, descend)
        decreases rest
      {
        var k :| k in rest;
        var lines := PrintWho(k, uge[k], local, descend);
        out := out + lines;
        rest := rest - {k};
      }
    }
  }

  /** The permission belongs in the section for this pair of flags. */
  predicate InSection(p: Perm, local: bool, descend: bool) {
    p.local == local && p.descend == descend
  }

  method PrintWho(k: WhoKey, perms: Perms, local: bool, descend: bool) returns (out: seq<(WhoKey, string)>)
    ensures forall i, j | 0 <= i < j < |out| :: out[i] != out[j]
    ensures forall x :: x in out <==> x.0 == k && x.1 in perms && InSection(perms[x.1], local, descend)
  {
    out := [];
    var rest := perms.Keys;
    while rest != {}
      invariant rest <= perms.Keys
      invariant forall i, j | 0 <= i < j < |out| :: out[i] != out[j]
      invariant forall x :: x in out <==>
                  x.0 == k && x.1 in perms && x.1 !in rest && InSection(perms[x.1], local, descend)
      decreases rest
    {
      var q :| q in rest;
      if InSection(perms[q], local, descend) {
        out := out + [(k, q)];
      }
      rest := rest - {q};
    }
  }
}

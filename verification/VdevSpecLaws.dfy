/** What zpool's specification parser guarantees: it undoes printing, and whatever it accepts
    it turns into leaves one for one, in groups of legal size (cmd/zpool/zpool_vdev.c). */
module VdevSpecLaws {
  import opened Base
  import opened VdevSpec

  // ----- printing a keyword -----

  function DigitChar(d: nat): char
    requires d < 10
  {
    ('0' as int + d) as char
  }

  function Decimal(n: nat): string {
    if n < 10 then [DigitChar(n)] else Decimal(n / 10) + [DigitChar(n % 10)]
  }

  function Token(k: Kind): string {
    match k case Mirror => "mirror" case Raidz(n) => "raidz" + Decimal(n)
  }

  predicate LegalKind(k: Kind) {
    k.Raidz? ==> 1 <= k.parity < 255
  }

  lemma {:induction false} DigitsConcat(a: string, b: string, n: nat)
    ensures Digits(a + b, n) == match Digits(a, n) { case None => None case Some(m) => Digits(b, m) }
    decreases |a|
  {
    if a == "" {
      assert a + b == b;
    } else if IsDigit(a[0]) {
      assert (a + b)[1..] == a[1..] + b;
      DigitsConcat(a[1..], b, 10 * n + DigitOf(a[0]));
    }
  }

  lemma {:induction false} DigitsDecimal(n: nat)
    ensures Digits(Decimal(n), 0) == Some(n)
    ensures Decimal(n) != "" && IsDigit(Decimal(n)[0])
    ensures n > 0 ==> Decimal(n)[0] != '0'
  {
    if n < 10 {
      assert Digits([DigitChar(n)][1..], n) == Some(n);
    } else {
      DigitsDecimal(n / 10);
      DigitsConcat(Decimal(n / 10), [DigitChar(n % 10)], 0);
      assert Digits([DigitChar(n % 10)], n / 10) == Some(n);
    }
  }

  /** Every legal group keyword is read back as itself. */
  lemma TokenReadBack(k: Kind)
    requires LegalKind(k)
    ensures IsGrouping(Token(k)) == Some(Redundant(k))
  {
    if k.Raidz? {
      var d := Decimal(k.parity);
      DigitsDecimal(k.parity);
      assert Token(k)[5..] == d;
      assert Strtol(d) == Some(k.parity);
    }
  }

  // ----- printing a tree -----

  datatype Row = Row(kind: Kind, devices: seq<string>)

  /** A specification in canonical order. */
  datatype Layout = Layout(
    plain: seq<string>,
    groups: seq<Row>,
    logs: seq<string>,
    logMirrors: seq<Row>,
    caches: seq<string>,
    spares: seq<string>)

  function Disks(names: seq<string>, isLog: bool): seq<Top> {
    seq(|names|, i requires 0 <= i < |names| => Disk(Leaf(names[i], isLog)))
  }

  function Groups(rows: seq<Row>, isLog: bool): seq<Top> {
    seq(|rows|, i requires 0 <= i < |rows| => Group(rows[i].kind, isLog, Leaves(rows[i].devices)))
  }

  function TreeOf(x: Layout): Spec {
    Spec(Disks(x.plain, false) + Groups(x.groups, false) + Disks(x.logs, true) + Groups(x.logMirrors, true),
         Leaves(x.spares), Leaves(x.caches))
  }

  // Printing puts tokens in front of what is printed after them.

  function PutNames(names: seq<string>, rest: Toks): Toks {
    if names == [] then rest else More(Name(names[0]), PutNames(names[1..], rest))
  }

  function PutRows(rows: seq<Row>, rest: Toks): Toks {
    if rows == [] then rest
    else More(Key(Redundant(rows[0].kind)), PutNames(rows[0].devices, PutRows(rows[1..], rest)))
  }

  function PutSection(g: Grouping, devices: seq<string>, rest: Toks): Toks {
    if devices == [] then rest else More(Key(g), PutNames(devices, rest))
  }

  function PutTail(x: Layout): Toks {
    PutSection(Cache, x.caches, PutSection(Spare, x.spares, End))
  }

  function PutLogs(x: Layout, rest: Toks): Toks {
    if x.logs == [] && x.logMirrors == [] then rest
    else More(Key(Log), PutNames(x.logs, PutRows(x.logMirrors, rest)))
  }

  function Put(x: Layout): Toks {
    PutNames(x.plain, PutRows(x.groups, PutLogs(x, PutTail(x))))
  }

  /** A token as it is typed. */
  function Spell(t: Tok): string {
    match t
    case Name(arg) => arg
    case Key(Redundant(k)) => Token(k)
    case Key(Spare) => "spare"
    case Key(Log) => "log"
    case Key(Cache) => "cache"
  }

  function SpellAll(toks: Toks): seq<string> {
    match toks case End => [] case More(t, rest) => [Spell(t)] + SpellAll(rest)
  }

  /** The arguments that describe a layout. */
  function Print(x: Layout): seq<string> {
    SpellAll(Put(x))
  }

  /** Device names that is_grouping does not take for keywords. */
  ghost predicate Unreserved(names: seq<string>) {
    forall i | 0 <= i < |names| :: IsGrouping(names[i]).None?
  }

  ghost predicate UnreservedRows(rows: seq<Row>) {
    forall i | 0 <= i < |rows| :: LegalKind(rows[i].kind) && Unreserved(rows[i].devices)
  }

  ghost predicate LegalRow(usable: string -> bool, r: Row) {
    && AllUsable(usable, r.devices)
    && MinDev(Redundant(r.kind)) <= |r.devices| <= MaxDev(Redundant(r.kind))
  }

  ghost predicate LegalRows(usable: string -> bool, rows: seq<Row>) {
    forall i | 0 <= i < |rows| :: LegalRow(usable, rows[i])
  }

  /** Every name can be typed. */
  ghost predicate Printable(x: Layout) {
    && Unreserved(x.plain) && Unreserved(x.logs) && Unreserved(x.caches) && Unreserved(x.spares)
    && UnreservedRows(x.groups) && UnreservedRows(x.logMirrors)
  }

  /** Every device is usable, every group of a legal size, every log group a mirror. */
  ghost predicate Legal(usable: string -> bool, x: Layout) {
    && AllUsable(usable, x.plain) && AllUsable(usable, x.logs)
    && AllUsable(usable, x.caches) && AllUsable(usable, x.spares)
    && LegalRows(usable, x.groups) && LegalRows(usable, x.logMirrors)
    && (forall i | 0 <= i < |x.logMirrors| :: x.logMirrors[i].kind == Mirror)
    && |x.caches| <= INT_MAX && |x.spares| <= INT_MAX
    && TreeOf(x) != Spec([], [], [])
  }

  // ----- typing a token and reading it back -----

  lemma Keywords()
    ensures IsGrouping("cache") == Some(Cache)
    ensures IsGrouping("spare") == Some(Spare)
    ensures IsGrouping("log") == Some(Log)
  {
    assert "cache"[0] == 'c' && "spare"[0] == 's' && "log"[0] == 'l' && "raidz"[0] == 'r';
  }

  /** Tokens that have a spelling of their own. */
  predicate Spellable(t: Tok) {
    match t
    case Name(arg) => IsGrouping(arg).None?
    case Key(Redundant(k)) => LegalKind(k)
    case Key(_) => true
  }

  lemma SpellReadBack(t: Tok)
    requires Spellable(t)
    ensures LexOne(Spell(t)) == t
  {
    match t {
      case Name(_) =>
      case Key(Redundant(k)) => TokenReadBack(k);
      case Key(_) => Keywords();
    }
  }

  ghost predicate AllSpellable(toks: Toks) {
    match toks case End => true case More(t, rest) => Spellable(t) && AllSpellable(rest)
  }

  lemma {:induction false} NamesSpellable(names: seq<string>, rest: Toks)
    requires Unreserved(names) && AllSpellable(rest)
    ensures AllSpellable(PutNames(names, rest))
    decreases |names|
  {
    if names == [] {
    } else {
      NamesSpellable(names[1..], rest);
    }
  }

  lemma {:induction false} RowsSpellable(rows: seq<Row>, rest: Toks)
    requires UnreservedRows(rows) && AllSpellable(rest)
    ensures AllSpellable(PutRows(rows, rest))
    decreases |rows|
  {
    if rows == [] {
    } else {
      RowsSpellable(rows[1..], rest);
      NamesSpellable(rows[0].devices, PutRows(rows[1..], rest));
    }
  }

  lemma LayoutSpellable(x: Layout)
    requires Printable(x)
    ensures AllSpellable(Put(x))
  {
    NamesSpellable(x.spares, End);
    NamesSpellable(x.caches, PutSection(Spare, x.spares, End));
    RowsSpellable(x.logMirrors, PutTail(x));
    NamesSpellable(x.logs, PutRows(x.logMirrors, PutTail(x)));
    RowsSpellable(x.groups, PutLogs(x, PutTail(x)));
    NamesSpellable(x.plain, PutRows(x.groups, PutLogs(x, PutTail(x))));
  }

  lemma {:induction false} SpellLexes(toks: Toks)
    requires AllSpellable(toks)
    ensures Lex(SpellAll(toks)) == toks
  {
    match toks {
      case End =>
      case More(t, rest) =>
        SpellReadBack(t);
        SpellLexes(rest);
        assert SpellAll(toks)[1..] == SpellAll(rest);
    }
  }

  // ----- parsing what was printed -----

  /** Nothing that a group would swallow. */
  predicate Closed(rest: Toks) {
    rest.More? ==> rest.head.Key?
  }

  function WithTops(st: Loop, tops: seq<Top>): Loop {
    st.(spec := st.spec.(tops := st.spec.tops + tops), nlogs := if st.isLog then st.nlogs + |tops| else st.nlogs)
  }

  lemma WithTopsTwice(st: Loop, a: seq<Top>, b: seq<Top>)
    ensures WithTops(WithTops(st, a), b) == WithTops(st, a + b)
    ensures WithTops(st, []) == st
  {
    Assoc(st.spec.tops, a, b);
    assert st.spec.tops + [] == st.spec.tops;
  }

  lemma {:induction false} ParseDisks(usable: string -> bool, st: Loop, names: seq<string>, rest: Toks)
    requires AllUsable(usable, names)
    ensures Parse(usable, st, PutNames(names, rest)) == Parse(usable, WithTops(st, Disks(names, st.isLog)), rest)
    decreases |names|
  {
    if names == [] {
      WithTopsTwice(st, [], []);
    } else {
      var top := Disk(Leaf(names[0], st.isLog));
      ParseDisks(usable, WithTops(st, [top]), names[1..], rest);
      WithTopsTwice(st, [top], Disks(names[1..], st.isLog));
      assert Disks(names, st.isLog) == [top] + Disks(names[1..], st.isLog);
    }
  }

  lemma {:induction false} NamesPut(names: seq<string>, rest: Toks)
    requires Closed(rest)
    ensures Names(PutNames(names, rest)) == names
    ensures After(PutNames(names, rest)) == rest
    decreases |names|
  {
    if names == [] {
    } else {
      NamesPut(names[1..], rest);
    }
  }

  function TopOf(r: Row, isLog: bool): Top {
    Group(r.kind, isLog, Leaves(r.devices))
  }

  lemma {:induction false} ParseRows(usable: string -> bool, st: Loop, rows: seq<Row>, rest: Toks)
    requires LegalRows(usable, rows)
    requires st.isLog ==> forall i | 0 <= i < |rows| :: rows[i].kind == Mirror
    requires Closed(rest)
    ensures Parse(usable, st, PutRows(rows, rest)) == Parse(usable, WithTops(st, Groups(rows, st.isLog)), rest)
    ensures Closed(PutRows(rows, rest))
    decreases |rows|
  {
    if rows == [] {
      WithTopsTwice(st, [], []);
    } else {
      var r, top := rows[0], TopOf(rows[0], st.isLog);
      assert LegalRow(usable, r);
      ParseRows(usable, WithTops(st, [top]), rows[1..], rest);
      NamesPut(r.devices, PutRows(rows[1..], rest));
      WithTopsTwice(st, [top], Groups(rows[1..], st.isLog));
      assert Groups(rows, st.isLog) == [top] + Groups(rows[1..], st.isLog);
    }
  }

  function WithCaches(st: Loop, names: seq<string>): Loop {
    if names == [] then st else st.(spec := st.spec.(caches := Leaves(names)), isLog := false)
  }

  function WithSpares(st: Loop, names: seq<string>): Loop {
    if names == [] then st else st.(spec := st.spec.(spares := Leaves(names)), isLog := false)
  }

  lemma ParseSpares(usable: string -> bool, st: Loop, names: seq<string>)
    requires AllUsable(usable, names) && |names| <= INT_MAX
    requires st.spec.spares == []
    ensures Parse(usable, st, PutSection(Spare, names, End)) == Some(WithSpares(st, names))
  {
    NamesPut(names, End);
  }

  /** The cache and spare sections. */
  lemma ParseTail(usable: string -> bool, st: Loop, x: Layout)
    requires Legal(usable, x)
    requires st.spec.caches == [] && st.spec.spares == []
    ensures Parse(usable, st, PutTail(x)) == Some(WithSpares(WithCaches(st, x.caches), x.spares))
    ensures Closed(PutTail(x))
  {
    ParseSpares(usable, WithCaches(st, x.caches), x.spares);
    NamesPut(x.caches, PutSection(Spare, x.spares, End));
  }

  function LogTops(x: Layout): seq<Top> {
    Disks(x.logs, true) + Groups(x.logMirrors, true)
  }

  function WithLogs(st: Loop, x: Layout): Loop {
    if LogTops(x) == [] then st else WithTops(st.(isLog := true, seenLogs := true), LogTops(x))
  }

  lemma ParseLogs(usable: string -> bool, st: Loop, x: Layout, rest: Toks)
    requires Legal(usable, x)
    requires !st.isLog && !st.seenLogs
    requires Closed(rest)
    ensures Closed(PutLogs(x, rest))
    ensures Parse(usable, st, PutLogs(x, rest)) == Parse(usable, WithLogs(st, x), rest)
  {
    if x.logs != [] || x.logMirrors != [] {
      var st1 := st.(isLog := true, seenLogs := true);
      ParseDisks(usable, st1, x.logs, PutRows(x.logMirrors, rest));
      ParseRows(usable, WithTops(st1, Disks(x.logs, true)), x.logMirrors, rest);
      WithTopsTwice(st1, Disks(x.logs, true), Groups(x.logMirrors, true));
    }
  }

  /** Every canonical specification, printed as arguments, is parsed back to the same tree. */
  lemma RoundTrip(usable: string -> bool, x: Layout)
    requires Legal(usable, x) && Printable(x)
    ensures Construct(usable, Print(x)) == Some(TreeOf(x))
  {
    LayoutSpellable(x);
    SpellLexes(Put(x));
    var a, b := Disks(x.plain, false), Groups(x.groups, false);
    var rest := PutLogs(x, PutTail(x));
    var st := WithTops(START, a + b);
    ParseTail(usable, WithLogs(st, x), x);
    ParseLogs(usable, st, x, PutTail(x));
    ParseRows(usable, WithTops(START, a), x.groups, rest);
    WithTopsTwice(START, a, b);
    ParseDisks(usable, START, x.plain, PutRows(x.groups, rest));
    RoundTripTree(x);
  }

  lemma RoundTripTree(x: Layout)
    ensures var st := WithTops(START, Disks(x.plain, false) + Groups(x.groups, false));
            var r := WithSpares(WithCaches(WithLogs(st, x), x.caches), x.spares);
            && r.spec == TreeOf(x)
            && (r.seenLogs ==> r.nlogs > 0)
  {
    var ab := Disks(x.plain, false) + Groups(x.groups, false);
    Assoc(ab, Disks(x.logs, true), Groups(x.logMirrors, true));
    assert [] + ab == ab;
    assert ab + [] == ab;
    assert Leaves([]) == [];
  }

  // ----- what acceptance guarantees -----

  function ArgsOf(leaves: seq<Leaf>): seq<string> {
    seq(|leaves|, i requires 0 <= i < |leaves| => leaves[i].arg)
  }

  function TopBag(t: Top): multiset<string> {
    match t case Disk(leaf) => multiset{leaf.arg} case Group(_, _, children) => multiset(ArgsOf(children))
  }

  function TopsBag(ts: seq<Top>): multiset<string> {
    if ts == [] then multiset{} else TopsBag(ts[..|ts| - 1]) + TopBag(ts[|ts| - 1])
  }

  /** Every leaf of a tree, by the argument it was made from. */
  function LeafBag(s: Spec): multiset<string> {
    TopsBag(s.tops) + multiset(ArgsOf(s.spares)) + multiset(ArgsOf(s.caches))
  }

  /** Every argument that is not a keyword. */
  function DeviceBag(toks: Toks): multiset<string> {
    match toks
    case End => multiset{}
    case More(Name(arg), rest) => multiset{arg} + DeviceBag(rest)
    case More(Key(_), rest) => DeviceBag(rest)
  }

  lemma TopsBagSnoc(ts: seq<Top>, t: Top)
    ensures TopsBag(ts + [t]) == TopsBag(ts) + TopBag(t)
  {
    assert (ts + [t])[..|ts|] == ts;
  }

  lemma {:induction false} DeviceBagNames(toks: Toks)
    ensures DeviceBag(toks) == multiset(Names(toks)) + DeviceBag(After(toks))
  {
    match toks {
      case More(Name(_), rest) => DeviceBagNames(rest);
      case _ =>
    }
  }

  lemma ArgsOfLeaves(args: seq<string>)
    ensures ArgsOf(Leaves(args)) == args
    ensures ArgsOf([]) == []
  {
  }

  lemma AddGroupLeaves(st: Loop, g: Grouping, args: seq<string>)
    requires AddGroup(st, g, args).Some?
    ensures LeafBag(AddGroup(st, g, args).value.spec) == LeafBag(st.spec) + multiset(args)
  {
    ArgsOfLeaves(args);
    match g {
      case Redundant(kind) => TopsBagSnoc(st.spec.tops, Group(kind, st.isLog, Leaves(args)));
      case _ =>
    }
  }

  lemma AddDiskLeaf(st: Loop, arg: string)
    ensures LeafBag(AddDisk(st, arg).spec) == LeafBag(st.spec) + multiset{arg}
  {
    TopsBagSnoc(st.spec.tops, Disk(Leaf(arg, st.isLog)));
  }

  lemma GroupLeaves(st: Loop, g: Grouping, rest: Toks)
    requires AddGroup(st, g, Names(rest)).Some?
    ensures LeafBag(AddGroup(st, g, Names(rest)).value.spec) + DeviceBag(After(rest)) ==
            LeafBag(st.spec) + DeviceBag(rest)
  {
    DeviceBagNames(rest);
    AddGroupLeaves(st, g, Names(rest));
  }

  lemma {:induction false} ParseLeaves(usable: string -> bool, st: Loop, toks: Toks)
    requires Parse(usable, st, toks).Some?
    ensures LeafBag(Parse(usable, st, toks).value.spec) == LeafBag(st.spec) + DeviceBag(toks)
    decreases toks
  {
    hide LeafBag, AddDisk, AddGroup;
    match toks {
      case End =>
      case More(Name(arg), rest) =>
        AddDiskLeaf(st, arg);
        ParseLeaves(usable, AddDisk(st, arg), rest);
      case More(Key(g), rest) =>
        if g == Log {
          ParseLeaves(usable, st.(isLog := true, seenLogs := true), rest);
        } else {
          GroupLeaves(st, g, rest);
          ParseLeaves(usable, AddGroup(st, g, Names(rest)).value, After(rest));
        }
    }
  }

  /** A group keeps the bounds of its keyword, and only mirrors are logs. */
  predicate LegalTop(t: Top) {
    match t
    case Disk(_) => true
    case Group(k, isLog, children) =>
      && MinDev(Redundant(k)) <= |children| <= MaxDev(Redundant(k))
      && (isLog ==> k == Mirror)
      && forall i | 0 <= i < |children| :: !children[i].isLog
  }

  ghost predicate LegalTops(ts: seq<Top>) {
    forall i | 0 <= i < |ts| :: LegalTop(ts[i])
  }

  lemma {:induction false} ParseLegal(usable: string -> bool, st: Loop, toks: Toks)
    requires Parse(usable, st, toks).Some?
    requires LegalTops(st.spec.tops)
    ensures LegalTops(Parse(usable, st, toks).value.spec.tops)
    decreases toks
  {
    match toks {
      case End =>
      case More(Name(arg), rest) => ParseLegal(usable, AddDisk(st, arg), rest);
      case More(Key(g), rest) =>
        if g == Log {
          ParseLegal(usable, st.(isLog := true, seenLogs := true), rest);
        } else {
          ParseLegal(usable, AddGroup(st, g, Names(rest)).value, After(rest));
        }
    }
  }

  /** Whatever is accepted, each argument that is not a keyword became exactly one leaf, and every
      group is of a legal size. */
  lemma AcceptedLeaves(usable: string -> bool, args: seq<string>)
    requires Construct(usable, args).Some?
    ensures LeafBag(Construct(usable, args).value) == DeviceBag(Lex(args))
    ensures LegalTops(Construct(usable, args).value.tops)
  {
    ParseLeaves(usable, START, Lex(args));
    ParseLegal(usable, START, Lex(args));
  }
}

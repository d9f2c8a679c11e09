/** Which vdev specifications zpool accepts, and the tree each of them stands for, said of its
    sections and not of the parser's state (cmd/zpool/zpool_vdev.c). */
module VdevSpecExact {
  import opened Base
  import opened VdevSpec

  // ----- sections -----

  /** A keyword, or none at the very beginning, and the devices up to the next keyword. */
  datatype Section = Section(key: Option<Grouping>, devices: seq<string>)

  function Keyed(toks: Toks): seq<Section>
    decreases toks
  {
    match toks
    case More(Key(g), rest) => [Section(Some(g), Names(rest))] + Keyed(After(rest))
    case _ => []
  }

  function Sections(toks: Toks): seq<Section> {
    [Section(None, Names(toks))] + Keyed(After(toks))
  }

  predicate Is(s: Section, g: Grouping) { s.key == Some(g) }

  /** The section is for log devices: it comes after "log" with no "spare" or "cache" in between. */
  ghost predicate ForLogs(secs: seq<Section>, i: nat)
    requires i < |secs|
  {
    exists j | 0 <= j <= i :: Is(secs[j], Log) && forall k | j < k <= i :: !Is(secs[k], Spare) && !Is(secs[k], Cache)
  }

  /** A group has the devices it needs and no more than it can have. */
  predicate RightSize(s: Section) {
    match s.key
    case Some(Redundant(Mirror)) => 2 <= |s.devices| <= 0x7FFF_FFFF
    case Some(Redundant(Raidz(n))) => n + 1 <= |s.devices| <= 255
    case Some(Spare) => 1 <= |s.devices| <= 0x7FFF_FFFF
    case Some(Cache) => 1 <= |s.devices| <= 0x7FFF_FFFF
    case _ => true
  }

  ghost predicate AtMostOne(secs: seq<Section>, g: Grouping) {
    forall i, j | 0 <= i < j < |secs| :: !(Is(secs[i], g) && Is(secs[j], g))
  }

  predicate IsRaidz(s: Section) { s.key.Some? && s.key.value.Redundant? && s.key.value.kind.Raidz? }

  /** All devices can be used, groups are of the right size, "log", "spare" and "cache" come up once at
      most, and no log device is raidz. */
  ghost predicate InOrder(usable: string -> bool, secs: seq<Section>) {
    && (forall i | 0 <= i < |secs| :: AllUsable(usable, secs[i].devices) && RightSize(secs[i]))
    && AtMostOne(secs, Log) && AtMostOne(secs, Spare) && AtMostOne(secs, Cache)
    && (forall i | 0 <= i < |secs| :: IsRaidz(secs[i]) ==> !ForLogs(secs, i))
  }

  /** There is some device, and a log device if there is a "log". */
  ghost predicate Something(secs: seq<Section>) {
    && (exists i | 0 <= i < |secs| :: secs[i].devices != [])
    && ((exists i | 0 <= i < |secs| :: Is(secs[i], Log)) ==>
          exists i | 0 <= i < |secs| :: ForLogs(secs, i) && secs[i].devices != [])
  }

  // ----- the tree -----

  function DisksOf(names: seq<string>, isLog: bool): seq<Top> {
    if names == [] then [] else DisksOf(names[..|names| - 1], isLog) + [Disk(Leaf(names[|names| - 1], isLog))]
  }

  function NamedLeaves(names: seq<string>): seq<Leaf> {
    if names == [] then [] else NamedLeaves(names[..|names| - 1]) + [Leaf(names[|names| - 1], false)]
  }

  lemma {:induction false} LeavesAre(names: seq<string>)
    ensures NamedLeaves(names) == Leaves(names)
    decreases |names|
  {
    if names == [] {
    } else {
      LeavesAre(names[..|names| - 1]);
    }
  }

  /** The top-level vdevs of a section. */
  function TopsOf(s: Section, isLog: bool): seq<Top> {
    match s.key
    case None => DisksOf(s.devices, isLog)
    case Some(Log) => DisksOf(s.devices, isLog)
    case Some(Redundant(kind)) => [Group(kind, isLog, NamedLeaves(s.devices))]
    case _ => []
  }

  ghost function Tops(secs: seq<Section>): seq<Top> {
    if secs == [] then []
    else
      var n := |secs| - 1;
      Tops(secs[..n]) + TopsOf(secs[n], ForLogs(secs, n))
  }

  /** The devices of the last section with this keyword. */
  function DevicesOf(secs: seq<Section>, g: Grouping): seq<Leaf> {
    if secs == [] then []
    else if Is(secs[|secs| - 1], g) then NamedLeaves(secs[|secs| - 1].devices)
    else DevicesOf(secs[..|secs| - 1], g)
  }

  ghost function TreeOf(secs: seq<Section>): Spec {
    Spec(Tops(secs), DevicesOf(secs, Spare), DevicesOf(secs, Cache))
  }

  // ----- the parser, section by section -----

  function AddDisks(st: Loop, names: seq<string>): Loop {
    if names == [] then st else AddDisk(AddDisks(st, names[..|names| - 1]), names[|names| - 1])
  }

  function TakeSection(usable: string -> bool, st: Loop, s: Section): Option<Loop> {
    if !AllUsable(usable, s.devices) then None
    else match s.key
      case None => Some(AddDisks(st, s.devices))
      case Some(Log) =>
        if st.seenLogs then None else Some(AddDisks(st.(isLog := true, seenLogs := true), s.devices))
      case Some(g) => AddGroup(st, g, s.devices)
  }

  function TakeAll(usable: string -> bool, st: Loop, secs: seq<Section>): Option<Loop>
    decreases |secs|
  {
    if secs == [] then Some(st)
    else match TakeSection(usable, st, secs[0])
      case None => None
      case Some(st') => TakeAll(usable, st', secs[1..])
  }

  lemma {:induction false} AddDisksFront(st: Loop, names: seq<string>)
    requires names != []
    ensures AddDisks(st, names) == AddDisks(AddDisk(st, names[0]), names[1..])
    decreases |names|
  {
    hide AddDisk;
    if |names| == 1 {
      assert names[..0] == [] && names[1..] == [];
    } else {
      AddDisksFront(st, names[..|names| - 1]);
      assert names[..|names| - 1][1..] == names[1..][..|names[1..]| - 1];
    }
  }

  /** Plain devices are added one by one. */
  lemma {:induction false} ParseNames(usable: string -> bool, st: Loop, toks: Toks)
    ensures Parse(usable, st, toks) ==
            if AllUsable(usable, Names(toks)) then Parse(usable, AddDisks(st, Names(toks)), After(toks)) else None
    decreases toks
  {
    match toks {
      case More(Name(arg), rest) =>
        var names := Names(toks);
        assert names[0] == arg && names[1..] == Names(rest);
        if usable(arg) {
          ParseNames(usable, AddDisk(st, arg), rest);
          AddDisksFront(st, names);
          hide AddDisk, AddDisks;
          assert AllUsable(usable, names) <==> AllUsable(usable, names[1..]) by {
            assert forall i | 0 < i < |names| :: names[i] == names[1..][i - 1];
          }
        }
      case End =>
      case More(Key(_), _) =>
    }
  }

  lemma {:induction false} ParseKeyed(usable: string -> bool, st: Loop, toks: Toks)
    requires toks == After(toks)
    ensures Parse(usable, st, toks) == TakeAll(usable, st, Keyed(toks))
    decreases toks
  {
    hide AddDisks, AddGroup, AllUsable;
    match toks {
      case More(Key(g), rest) =>
        AfterTwice(rest);
        assert Keyed(toks)[1..] == Keyed(After(rest));
        match TakeSection(usable, st, Section(Some(g), Names(rest))) {
          case None =>
          case Some(st') => ParseKeyed(usable, st', After(rest));
        }
        if g == Log && !st.seenLogs {
          ParseNames(usable, st.(isLog := true, seenLogs := true), rest);
        }
      case More(Name(_), rest) => AfterTwice(rest);
      case End =>
    }
  }

  lemma {:induction false} AfterTwice(toks: Toks)
    ensures After(After(toks)) == After(toks) && !(After(toks).More? && After(toks).head.Name?)
    decreases toks
  {
    match toks {
      case More(Name(_), rest) => AfterTwice(rest);
      case End =>
      case More(Key(_), _) =>
    }
  }

  lemma ParseIsTakeAll(usable: string -> bool, toks: Toks)
    ensures Parse(usable, START, toks) == TakeAll(usable, START, Sections(toks))
  {
    hide AddDisks, Parse;
    ParseNames(usable, START, toks);
    AfterTwice(toks);
    assert Sections(toks)[1..] == Keyed(After(toks));
    if AllUsable(usable, Names(toks)) {
      ParseKeyed(usable, AddDisks(START, Names(toks)), After(toks));
    }
  }

  lemma {:induction false} TakeAllSnoc(usable: string -> bool, st: Loop, secs: seq<Section>)
    requires secs != []
    ensures TakeAll(usable, st, secs) ==
            match TakeAll(usable, st, secs[..|secs| - 1]) {
              case None => None
              case Some(st') => TakeSection(usable, st', secs[|secs| - 1])
            }
    decreases |secs|
  {
    hide TakeSection;
    if |secs| == 1 {
      assert secs[..0] == [] && secs[1..] == [];
    } else {
      assert secs[..|secs| - 1][1..] == secs[1..][..|secs[1..]| - 1];
      match TakeSection(usable, st, secs[0]) {
        case None =>
        case Some(st') => TakeAllSnoc(usable, st', secs[1..]);
      }
    }
  }

  // ----- what the loop variables come to -----

  ghost predicate Has(secs: seq<Section>, g: Grouping) {
    exists i | 0 <= i < |secs| :: Is(secs[i], g)
  }

  ghost predicate HasDevice(secs: seq<Section>) {
    exists i | 0 <= i < |secs| :: secs[i].devices != []
  }

  ghost predicate HasLogDevice(secs: seq<Section>) {
    exists i | 0 <= i < |secs| :: ForLogs(secs, i) && secs[i].devices != []
  }

  ghost predicate LastForLogs(secs: seq<Section>) { secs != [] && ForLogs(secs, |secs| - 1) }

  const NO_DEVICES := Spec([], [], [])

  /** The loop variables after these sections. */
  ghost predicate Reached(st: Loop, secs: seq<Section>) {
    && st.spec == TreeOf(secs)
    && (st.isLog <==> LastForLogs(secs)) && (st.seenLogs <==> Has(secs, Log))
    && (st.nlogs > 0 <==> HasLogDevice(secs)) && (st.spec == NO_DEVICES <==> !HasDevice(secs))
    && (st.spec.spares == [] <==> !Has(secs, Spare)) && (st.spec.caches == [] <==> !Has(secs, Cache))
  }

  // ----- one section more -----

  lemma ForLogsBefore(rest: seq<Section>, s: Section, i: nat)
    requires i < |rest|
    ensures ForLogs(rest + [s], i) <==> ForLogs(rest, i)
  {
    var secs := rest + [s];
    assert forall k | 0 <= k <= i :: secs[k] == rest[k];
    if ForLogs(secs, i) {
      var j :| 0 <= j <= i && Is(secs[j], Log) && forall k | j < k <= i :: !Is(secs[k], Spare) && !Is(secs[k], Cache);
      assert Is(rest[j], Log);
    }
    if ForLogs(rest, i) {
      var j :| 0 <= j <= i && Is(rest[j], Log) && forall k | j < k <= i :: !Is(rest[k], Spare) && !Is(rest[k], Cache);
      assert Is(secs[j], Log);
    }
  }

  lemma ForLogsLast(rest: seq<Section>, s: Section)
    ensures ForLogs(rest + [s], |rest|) <==>
            Is(s, Log) || (!Is(s, Spare) && !Is(s, Cache) && LastForLogs(rest))
  {
    var secs, n := rest + [s], |rest|;
    assert forall k | 0 <= k < n :: secs[k] == rest[k];
    assert secs[n] == s;
    if ForLogs(secs, n) && !Is(s, Log) {
      var j :| 0 <= j <= n && Is(secs[j], Log) && forall k | j < k <= n :: !Is(secs[k], Spare) && !Is(secs[k], Cache);
      assert Is(rest[j], Log);
    }
    if !Is(s, Spare) && !Is(s, Cache) && LastForLogs(rest) {
      var j :| 0 <= j <= n - 1 && Is(rest[j], Log)
               && forall k | j < k <= n - 1 :: !Is(rest[k], Spare) && !Is(rest[k], Cache);
      assert Is(secs[j], Log);
    }
  }

  lemma HasLast(rest: seq<Section>, s: Section, g: Grouping)
    ensures Has(rest + [s], g) <==> Has(rest, g) || Is(s, g)
    ensures HasDevice(rest + [s]) <==> HasDevice(rest) || s.devices != []
    ensures AtMostOne(rest + [s], g) <==> AtMostOne(rest, g) && !(Has(rest, g) && Is(s, g))
  {
    var secs, n := rest + [s], |rest|;
    assert forall k | 0 <= k < n :: secs[k] == rest[k];
    assert secs[n] == s;
    if AtMostOne(secs, g) {
      forall i, j | 0 <= i < j < n ensures !(Is(rest[i], g) && Is(rest[j], g)) {
        assert !(Is(secs[i], g) && Is(secs[j], g));
      }
    }
    if AtMostOne(rest, g) && !(Has(rest, g) && Is(s, g)) {
      forall i, j | 0 <= i < j <= n ensures !(Is(secs[i], g) && Is(secs[j], g)) {
        assert j < n ==> !(Is(rest[i], g) && Is(rest[j], g));
      }
    }
  }

  lemma HasLogDeviceLast(rest: seq<Section>, s: Section)
    ensures HasLogDevice(rest + [s]) <==>
            HasLogDevice(rest) || (ForLogs(rest + [s], |rest|) && s.devices != [])
  {
    hide ForLogs;
    var secs, n := rest + [s], |rest|;
    assert secs[n] == s;
    forall i | 0 <= i < n ensures ForLogs(secs, i) <==> ForLogs(rest, i) {
      ForLogsBefore(rest, s, i);
    }
    assert forall k | 0 <= k < n :: secs[k] == rest[k];
    if HasLogDevice(rest) {
      var i :| 0 <= i < n && ForLogs(rest, i) && rest[i].devices != [];
      assert ForLogs(secs, i) && secs[i].devices != [];
    }
  }

  /** What one more section must be for all to stay in order. */
  ghost predicate Fits(usable: string -> bool, rest: seq<Section>, s: Section) {
    && AllUsable(usable, s.devices) && RightSize(s)
    && (forall g | g in {Log, Spare, Cache} :: !(Has(rest, g) && Is(s, g)))
    && (IsRaidz(s) ==> !LastForLogs(rest))
  }

  lemma InOrderLast(usable: string -> bool, rest: seq<Section>, s: Section)
    ensures InOrder(usable, rest + [s]) <==> InOrder(usable, rest) && Fits(usable, rest, s)
  {
    hide ForLogs, AllUsable, AtMostOne, Has, RightSize;
    var secs, n := rest + [s], |rest|;
    assert secs[n] == s;
    assert forall k | 0 <= k < n :: secs[k] == rest[k];
    HasLast(rest, s, Log);
    HasLast(rest, s, Spare);
    HasLast(rest, s, Cache);
    ForLogsLast(rest, s);
    forall i | 0 <= i < n ensures ForLogs(secs, i) <==> ForLogs(rest, i) {
      ForLogsBefore(rest, s, i);
    }
    if InOrder(usable, secs) {
      forall i | 0 <= i < n
        ensures AllUsable(usable, rest[i].devices) && RightSize(rest[i]) && (IsRaidz(rest[i]) ==> !ForLogs(rest, i))
      {
        assert AllUsable(usable, secs[i].devices) && RightSize(secs[i]);
      }
      assert AllUsable(usable, secs[n].devices) && RightSize(secs[n]);
    }
  }

  lemma {:induction false} AddDisksIs(st: Loop, names: seq<string>)
    ensures AddDisks(st, names) ==
            st.(spec := st.spec.(tops := st.spec.tops + DisksOf(names, st.isLog)),
                nlogs := if st.isLog then st.nlogs + |names| else st.nlogs)
    ensures |DisksOf(names, st.isLog)| == |names|
    decreases |names|
  {
    if names == [] {
      assert st.spec.tops + [] == st.spec.tops;
    } else {
      AddDisksIs(st, names[..|names| - 1]);
      Assoc(st.spec.tops, DisksOf(names[..|names| - 1], st.isLog), [Disk(Leaf(names[|names| - 1], st.isLog))]);
    }
  }

  lemma TreeLast(rest: seq<Section>, s: Section)
    ensures var secs := rest + [s];
            TreeOf(secs) == Spec(Tops(rest) + TopsOf(s, ForLogs(secs, |rest|)),
                                 if Is(s, Spare) then NamedLeaves(s.devices) else DevicesOf(rest, Spare),
                                 if Is(s, Cache) then NamedLeaves(s.devices) else DevicesOf(rest, Cache))
  {
    hide ForLogs;
    var secs := rest + [s];
    assert secs[..|secs| - 1] == rest && secs[|secs| - 1] == s;
  }

  lemma LastIs(rest: seq<Section>, s: Section)
    ensures LastForLogs(rest + [s]) <==> ForLogs(rest + [s], |rest|)
  {
  }

  /** How what is said of the sections changes with one more. */
  lemma SectionFacts(rest: seq<Section>, s: Section)
    ensures var secs := rest + [s];
            && (forall g | g in {Log, Spare, Cache} :: Has(secs, g) <==> Has(rest, g) || Is(s, g))
            && (HasDevice(secs) <==> HasDevice(rest) || s.devices != [])
            && (LastForLogs(secs) <==> Is(s, Log) || (!Is(s, Spare) && !Is(s, Cache) && LastForLogs(rest)))
            && (HasLogDevice(secs) <==> HasLogDevice(rest) || (LastForLogs(secs) && s.devices != []))
            && TreeOf(secs) == Spec(Tops(rest) + TopsOf(s, LastForLogs(secs)),
                                    if Is(s, Spare) then NamedLeaves(s.devices) else DevicesOf(rest, Spare),
                                    if Is(s, Cache) then NamedLeaves(s.devices) else DevicesOf(rest, Cache))
  {
    hide ForLogs, HasLogDevice, LastForLogs, Has, HasDevice, Tops, DevicesOf, TreeOf, TopsOf;
    HasLast(rest, s, Log);
    HasLast(rest, s, Spare);
    HasLast(rest, s, Cache);
    ForLogsLast(rest, s);
    LastIs(rest, s);
    HasLogDeviceLast(rest, s);
    TreeLast(rest, s);
  }

  /** A section is taken exactly when it fits, and the loop variables are then as they should be. */
  ghost predicate TakenWell(usable: string -> bool, st: Loop, rest: seq<Section>, s: Section) {
    && (TakeSection(usable, st, s).Some? <==> Fits(usable, rest, s))
    && (TakeSection(usable, st, s).Some? ==> Reached(TakeSection(usable, st, s).value, rest + [s]))
  }

  lemma TakenDisks(usable: string -> bool, st: Loop, rest: seq<Section>, s: Section)
    requires Reached(st, rest) && (s.key.None? || Is(s, Log))
    ensures TakenWell(usable, st, rest, s)
  {
    hide AllUsable, HasLogDevice, LastForLogs, Has, HasDevice, Tops, DevicesOf;
    SectionFacts(rest, s);
    hide Leaves;
    if s.key.None? {
      AddDisksIs(st, s.devices);
    } else {
      AddDisksIs(st.(isLog := true, seenLogs := true), s.devices);
    }
  }

  lemma TakenRedundant(usable: string -> bool, st: Loop, rest: seq<Section>, s: Section)
    requires Reached(st, rest) && s.key.Some? && s.key.value.Redundant?
    ensures TakenWell(usable, st, rest, s)
  {
    hide AllUsable, HasLogDevice, LastForLogs, Has, HasDevice, Tops, DevicesOf, Leaves, NamedLeaves;
    SectionFacts(rest, s);
    LeavesAre(s.devices);
  }

  lemma TakenAside(usable: string -> bool, st: Loop, rest: seq<Section>, s: Section)
    requires Reached(st, rest) && (Is(s, Spare) || Is(s, Cache))
    ensures TakenWell(usable, st, rest, s)
  {
    hide AllUsable, HasLogDevice, LastForLogs, Has, HasDevice, Tops, DevicesOf;
    SectionFacts(rest, s);
    LeavesAre(s.devices);
    assert s.devices != [] ==> Leaves(s.devices) != [];
    hide NamedLeaves;
  }

  lemma TakenSection(usable: string -> bool, st: Loop, rest: seq<Section>, s: Section)
    requires Reached(st, rest)
    ensures TakenWell(usable, st, rest, s)
  {
    hide TakenWell, Reached;
    match s.key {
      case None => TakenDisks(usable, st, rest, s);
      case Some(Log) => TakenDisks(usable, st, rest, s);
      case Some(Redundant(_)) => TakenRedundant(usable, st, rest, s);
      case _ => TakenAside(usable, st, rest, s);
    }
  }

  lemma {:induction false} TakenExactly(usable: string -> bool, secs: seq<Section>)
    ensures TakeAll(usable, START, secs).Some? <==> InOrder(usable, secs)
    ensures TakeAll(usable, START, secs).Some? ==> Reached(TakeAll(usable, START, secs).value, secs)
    decreases |secs|
  {
    if secs == [] {
    } else {
      hide TakeAll, TakeSection, InOrder, Reached, Fits;
      var rest, s := secs[..|secs| - 1], secs[|secs| - 1];
      assert secs == rest + [s];
      TakenExactly(usable, rest);
      TakeAllSnoc(usable, START, secs);
      InOrderLast(usable, rest, s);
      match TakeAll(usable, START, rest) {
        case None =>
        case Some(st) => TakenSection(usable, st, rest, s);
      }
    }
  }

  /** A specification is accepted exactly when its sections are in order and there is something in them, and
      then stands for the tree of its sections. */
  lemma ConstructExactly(usable: string -> bool, args: seq<string>)
    ensures var secs := Sections(Lex(args));
            Construct(usable, args) ==
            if InOrder(usable, secs) && Something(secs) then Some(TreeOf(secs)) else None
  {
    hide Parse, TakeAll, InOrder, Sections, Lex, ForLogs, Tops, DevicesOf;
    var secs := Sections(Lex(args));
    ParseIsTakeAll(usable, Lex(args));
    TakenExactly(usable, secs);
  }

  // ----- keywords -----

  /** How a keyword can be spelt. */
  predicate Spelt(s: string, g: Grouping) {
    match g
    case Spare => s == "spare"
    case Log => s == "log"
    case Cache => s == "cache"
    case Redundant(Mirror) => s == "mirror"
    case Redundant(Raidz(n)) =>
      || (s == "raidz" && n == 1)
      || ("raidz" <= s && s != "raidz" && s[5] != '0' && Strtol(s[5..]) == Some(n) && 1 <= n <= 254)
  }

  predicate AllDigits(s: string) { forall i | 0 <= i < |s| :: '0' <= s[i] <= '9' }

  predicate AllBlank(s: string) { forall i | 0 <= i < |s| :: IsSpace(s[i]) }

  /** White space, a sign or none, and digits. */
  ghost predicate NumeralAs(s: string, blank: string, sign: string, digits: string) {
    && s == blank + sign + digits && AllBlank(blank) && sign in {"", "+", "-"}
    && digits != "" && AllDigits(digits)
  }

  /** What strtol makes of a whole string: the number its digits come to, negated after a minus sign. */
  lemma {:induction false} StrtolReads(s: string, blank: string, sign: string, digits: string)
    requires NumeralAs(s, blank, sign, digits)
    ensures Strtol(s) == Some(if sign == "-" then 0 - DecimalValue(digits) else DecimalValue(digits))
    decreases |blank|
  {
    DigitsRead(digits, 0);
    if blank == "" {
      assert s == sign + digits;
      assert sign != "" ==> s[1..] == digits;
      assert sign == "" ==> s == digits;
      hide Digits;
    } else {
      assert s[0] == blank[0] && s[1..] == blank[1..] + sign + digits;
      StrtolReads(s[1..], blank[1..], sign, digits);
    }
  }

  function DecimalValue(digits: string): nat
    requires AllDigits(digits)
  {
    if digits == "" then 0
    else
      var c := digits[|digits| - 1];
      10 * DecimalValue(digits[..|digits| - 1]) + (c as int - '0' as int)
  }

  function Tens(n: nat): nat { if n == 0 then 1 else 10 * Tens(n - 1) }

  lemma {:induction false} DigitsRead(digits: string, n: nat)
    requires AllDigits(digits)
    ensures Digits(digits, n) == Some(n * Tens(|digits|) + DecimalValue(digits))
    decreases |digits|
  {
    if digits == "" {
    } else {
      DigitsRead(digits[1..], 10 * n + DigitOf(digits[0]));
      ValueFront(digits);
      Shifted(n, DigitOf(digits[0]), Tens(|digits| - 1));
    }
  }

  lemma Shifted(n: nat, d: nat, t: nat)
    ensures (10 * n + d) * t == n * (10 * t) + d * t
  {
  }

  lemma Tenfold(d: nat, t: nat)
    ensures 10 * (d * t) == d * (10 * t)
  {
  }

  lemma {:induction false} ValueFront(digits: string)
    requires digits != "" && AllDigits(digits)
    ensures DecimalValue(digits) == (digits[0] as int - '0' as int) * Tens(|digits| - 1) + DecimalValue(digits[1..])
    decreases |digits|
  {
    if |digits| == 1 {
      assert digits[..0] == "" && digits[1..] == "";
    } else {
      var init := digits[..|digits| - 1];
      ValueFront(init);
      assert init[1..] == digits[1..][..|digits| - 2];
      Tenfold(digits[0] as int - '0' as int, Tens(|digits| - 2));
    }
  }

  /** And it makes nothing of any other. */
  lemma {:induction false} StrtolOnly(s: string) returns (blank: string, sign: string, digits: string)
    requires Strtol(s).Some?
    ensures NumeralAs(s, blank, sign, digits)
    decreases |s|
  {
    if IsSpace(s[0]) {
      blank, sign, digits := StrtolOnly(s[1..]);
      assert s == [s[0]] + blank + sign + digits;
      blank := [s[0]] + blank;
    } else if s[0] == '-' || s[0] == '+' {
      blank, sign, digits := "", [s[0]], s[1..];
      OnlyDigits(digits, 0);
    } else {
      blank, sign, digits := "", "", s;
      OnlyDigits(digits, 0);
    }
  }

  lemma {:induction false} OnlyDigits(s: string, n: nat)
    requires Digits(s, n).Some?
    ensures AllDigits(s)
    decreases |s|
  {
    if s == "" {
    } else {
      OnlyDigits(s[1..], 10 * n + DigitOf(s[0]));
      assert forall i | 0 < i < |s| :: s[i] == s[1..][i - 1];
    }
  }

  lemma GroupingExactly(s: string, g: Grouping)
    ensures IsGrouping(s) == Some(g) <==> Spelt(s, g)
  {
    hide Strtol;
    if "raidz" <= s {
      assert s[0] == "raidz"[0];
      assert s[5..] == "" <==> s == "raidz";
    }
  }
}

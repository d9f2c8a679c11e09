/** The vdev specification that zpool create and zpool add read from the command line, and the
    two-level tree it is parsed into (cmd/zpool/zpool_vdev.c). */
module VdevSpec {
  import opened Base

  // ----- keywords -----

  datatype Kind = Mirror | Raidz(parity: nat)

  datatype Grouping = Redundant(kind: Kind) | Spare | Log | Cache

  predicate IsSpace(c: char) { c in " \t\n\r" || c as int == 0x0B || c as int == 0x0C }

  predicate IsDigit(c: char) { '0' <= c <= '9' }

  function DigitOf(c: char): nat
    requires IsDigit(c)
  {
    c as int - '0' as int
  }

  /** The value of a string of digits read after `n`, when it is nothing but digits. */
  function Digits(s: string, n: nat): Option<nat> {
    if s == "" then Some(n)
    else if IsDigit(s[0]) then Digits(s[1..], 10 * n + DigitOf(s[0]))
    else None
  }

  /** strtol that consumes the whole string. Values too large for a long are rejected by the
      caller as well, so they need no case of their own. */
  function Strtol(s: string): Option<int> {
    if s == "" then None
    else if IsSpace(s[0]) then Strtol(s[1..])
    else
      var neg := s[0] == '-';
      var body := if neg || s[0] == '+' then s[1..] else s;
      match Digits(body, 0)
      case None => None
      case Some(n) => if body == "" then None else Some(if neg then 0 - n else n)
  }

  /** is_grouping. */
  function IsGrouping(s: string): Option<Grouping> {
    if "raidz" <= s then
      var p := s[5..];
      if p == "" then Some(Redundant(Raidz(1)))
      else if p[0] == '0' then None
      else match Strtol(p)
        case None => None
        case Some(n) => if 1 <= n < 255 then Some(Redundant(Raidz(n))) else None
    else if s == "mirror" then Some(Redundant(Mirror))
    else if s == "spare" then Some(Spare)
    else if s == "log" then Some(Log)
    else if s == "cache" then Some(Cache)
    else None
  }

  const INT_MAX: nat := 0x7FFF_FFFF

  function MinDev(g: Grouping): nat {
    match g case Redundant(Mirror) => 2 case Redundant(Raidz(n)) => n + 1 case _ => 1
  }

  function MaxDev(g: Grouping): nat {
    match g case Redundant(Raidz(_)) => 255 case _ => INT_MAX
  }

  // ----- the tree -----

  datatype Leaf = Leaf(arg: string, isLog: bool)

  datatype Top = Disk(leaf: Leaf) | Group(kind: Kind, isLog: bool, children: seq<Leaf>)

  datatype Spec = Spec(tops: seq<Top>, spares: seq<Leaf>, caches: seq<Leaf>)

  // ----- parsing -----

  /** An argument as is_grouping sees it. */
  datatype Tok = Key(grouping: Grouping) | Name(arg: string)

  /** The arguments still to be read. */
  datatype Toks = End | More(head: Tok, tail: Toks)

  function LexOne(arg: string): Tok {
    match IsGrouping(arg) case Some(g) => Key(g) case None => Name(arg)
  }

  function Lex(args: seq<string>): Toks {
    if args == [] then End else More(LexOne(args[0]), Lex(args[1..]))
  }

  /** The loop variables of construct_spec. */
  datatype Loop = Loop(spec: Spec, isLog: bool, seenLogs: bool, nlogs: nat)

  /** The device names up to the next keyword. */
  function Names(toks: Toks): seq<string> {
    match toks
    case More(Name(arg), rest) => [arg] + Names(rest)
    case _ => []
  }

  /** What follows them. */
  function After(toks: Toks): (rest: Toks)
    ensures rest == toks || rest < toks
  {
    match toks
    case More(Name(_), rest) => After(rest)
    case _ => toks
  }

  /** make_leaf_vdev for each argument; `usable` is what the system says of a device name. */
  function Leaves(args: seq<string>): seq<Leaf> {
    seq(|args|, i requires 0 <= i < |args| => Leaf(args[i], false))
  }

  predicate AllUsable(usable: string -> bool, args: seq<string>) {
    forall i | 0 <= i < |args| :: usable(args[i])
  }

  /** What the keyword g does with the devices that follow it; None is a usage error. */
  function AddGroup(st: Loop, g: Grouping, args: seq<string>): Option<Loop> {
    if !(MinDev(g) <= |args| <= MaxDev(g)) then None
    else match g
      case Spare =>
        if st.spec.spares != [] then None
        else Some(st.(spec := st.spec.(spares := Leaves(args)), isLog := false))
      case Cache =>
        if st.spec.caches != [] then None
        else Some(st.(spec := st.spec.(caches := Leaves(args)), isLog := false))
      case Redundant(kind) =>
        if st.isLog && kind != Mirror then None
        else Some(st.(spec := st.spec.(tops := st.spec.tops + [Group(kind, st.isLog, Leaves(args))]),
                      nlogs := if st.isLog then st.nlogs + 1 else st.nlogs))
      case Log => None
  }

  function AddDisk(st: Loop, arg: string): Loop {
    st.(spec := st.spec.(tops := st.spec.tops + [Disk(Leaf(arg, st.isLog))]),
        nlogs := if st.isLog then st.nlogs + 1 else st.nlogs)
  }

  function Parse(usable: string -> bool, st: Loop, toks: Toks): Option<Loop>
    decreases toks
  {
    match toks
    case End => Some(st)
    case More(Name(arg), rest) => if usable(arg) then Parse(usable, AddDisk(st, arg), rest) else None
    case More(Key(g), rest) =>
      if g == Log then
        if st.seenLogs then None else Parse(usable, st.(isLog := true, seenLogs := true), rest)
      else if !AllUsable(usable, Names(rest)) then None
      else match AddGroup(st, g, Names(rest))
        case None => None
        case Some(st') => Parse(usable, st', After(rest))
  }

  const START := Loop(Spec([], [], []), false, false, 0)

  /** construct_spec. */
  function Construct(usable: string -> bool, args: seq<string>): Option<Spec> {
    match Parse(usable, START, Lex(args))
    case None => None
    case Some(st) =>
      if st.spec == Spec([], [], []) then None
      else if st.seenLogs && st.nlogs == 0 then None
      else Some(st.spec)
  }

  /** The devices after a keyword, one by one. */
  method TakeDevices(usable: string -> bool, toks: Toks) returns (ok: bool, names: seq<string>, rest: Toks)
    ensures ok <==> AllUsable(usable, Names(toks))
    ensures ok ==> names == Names(toks) && rest == After(toks)
  {
    names, rest := [], toks;
    while rest.More? && rest.head.Name?
      invariant names + Names(rest) == Names(toks)
      invariant After(rest) == After(toks)
      invariant AllUsable(usable, names)
      decreases rest
    {
      Assoc(names, [rest.head.arg], Names(rest.tail));
      if !usable(rest.head.arg) {
        assert Names(toks)[|names|] == rest.head.arg;
        return false, [], End;
      }
      names, rest := names + [rest.head.arg], rest.tail;
    }
    ok := true;
  }

  /** One turn of the loop in construct_spec: the new loop variables and the arguments left. */
  method ParseOne(usable: string -> bool, st: Loop, toks: Toks) returns (ok: bool, st': Loop, toks': Toks)
    requires toks.More?
    ensures ok ==> Parse(usable, st, toks) == Parse(usable, st', toks') && toks' < toks
    ensures !ok ==> Parse(usable, st, toks).None?
  {
    ok, st', toks' := false, st, toks.tail;
    match toks.head {
      case Name(arg) =>
        if usable(arg) {
          ok, st' := true, AddDisk(st, arg);
        }
      case Key(g) =>
        if g == Log {
          if !st.seenLogs {
            ok, st' := true, st.(isLog := true, seenLogs := true);
          }
        } else {
          var usables, names, rest := TakeDevices(usable, toks.tail);
          if usables {
            match AddGroup(st, g, names) {
              case None =>
              case Some(next) => ok, st', toks' := true, next, rest;
            }
          }
        }
    }
  }

  /** construct_spec, argument by argument. */
  method ConstructSpec(usable: string -> bool, argv: seq<string>) returns (r: Option<Spec>)
    ensures r == Construct(usable, argv)
  {
    var st, toks := START, Lex(argv);
    while toks.More?
      invariant Parse(usable, st, toks) == Parse(usable, START, Lex(argv))
      decreases toks
    {
      var ok;
      ok, st, toks := ParseOne(usable, st, toks);
      if !ok {
        return None;
      }
    }
    if st.spec == Spec([], [], []) || (st.seenLogs && st.nlogs == 0) {
      return None;
    }
    r := Some(st.spec);
  }
}

/** Reading a send stream: records of a fixed size with payloads between them, an incremental
    checksum, and a byte order found out from the first record (cmd/zstreamdump/zstreamdump.c). */
module SendStream {

  type Byte = b: nat | b < 256

  // ----- integers in either byte order -----

  function Reverse(s: seq<Byte>): seq<Byte> {
    seq(|s|, i requires 0 <= i < |s| => s[|s| - 1 - i])
  }

  function Little(s: seq<Byte>): nat {
    if s == [] then 0 else s[0] + 256 * Little(s[1..])
  }

  /** The value of a field; `swap` says that the stream is of the other byte order. */
  function Value(s: seq<Byte>, swap: bool): nat {
    Little(if swap then Reverse(s) else s)
  }

  function Field(h: seq<Byte>, off: nat, len: nat, swap: bool): nat
    requires off + len <= |h|
  {
    Value(h[off..off + len], swap)
  }

  // ----- the checksum -----

  const TWO_64: nat := 0x1_0000_0000_0000_0000

  /** zio_cksum_t. */
  datatype Cksum = Cksum(w0: nat, w1: nat, w2: nat, w3: nat)

  const ZERO := Cksum(0, 0, 0, 0)

  function AddWord(c: Cksum, w: nat): Cksum {
    var a := (c.w0 + w) % TWO_64;
    var b := (c.w1 + a) % TWO_64;
    var d := (c.w2 + b) % TWO_64;
    Cksum(a, b, d, (c.w3 + d) % TWO_64)
  }

  /** fletcher_4_incremental_native and _byteswap: whole 32-bit words only. */
  function Fletcher(c: Cksum, s: seq<Byte>, swap: bool): Cksum
    decreases |s|
  {
    if |s| < 4 then c else Fletcher(AddWord(c, Value(s[..4], swap)), s[4..], swap)
  }

  lemma {:induction false} FletcherConcat(c: Cksum, a: seq<Byte>, b: seq<Byte>, swap: bool)
    requires |a| % 4 == 0
    ensures Fletcher(c, a + b, swap) == Fletcher(Fletcher(c, a, swap), b, swap)
    decreases |a|
  {
    if a == [] {
      assert a + b == b;
    } else {
      assert (a + b)[..4] == a[..4] && (a + b)[4..] == a[4..] + b;
      FletcherConcat(AddWord(c, Value(a[..4], swap)), a[4..], b, swap);
    }
  }

  /** The whole words of a piece of the stream. */
  function Words(s: seq<Byte>, swap: bool): seq<nat>
    decreases |s|
  {
    if |s| < 4 then [] else [Value(s[..4], swap)] + Words(s[4..], swap)
  }

  /** The words added up, those sums added up, and so on, k times over. */
  function Nested(ws: seq<nat>, k: nat): nat
    decreases |ws|, k
  {
    if ws == [] then 0
    else Nested(ws[..|ws| - 1], k) + (if k == 0 then ws[|ws| - 1] else Nested(ws, k - 1))
  }

  function SumsOf(ws: seq<nat>): Cksum {
    Cksum(Nested(ws, 0) % TWO_64, Nested(ws, 1) % TWO_64, Nested(ws, 2) % TWO_64, Nested(ws, 3) % TWO_64)
  }

  function AddWords(c: Cksum, ws: seq<nat>): Cksum
    decreases |ws|
  {
    if ws == [] then c else AddWords(AddWord(c, ws[0]), ws[1..])
  }

  lemma {:induction false} FletcherWords(c: Cksum, s: seq<Byte>, swap: bool)
    ensures Fletcher(c, s, swap) == AddWords(c, Words(s, swap))
    decreases |s|
  {
    hide AddWord;
    if |s| < 4 {
    } else {
      FletcherWords(AddWord(c, Value(s[..4], swap)), s[4..], swap);
      assert Words(s, swap)[1..] == Words(s[4..], swap);
    }
  }

  lemma {:induction false} AddWordsLast(c: Cksum, ws: seq<nat>, w: nat)
    ensures AddWords(c, ws + [w]) == AddWord(AddWords(c, ws), w)
    decreases |ws|
  {
    hide AddWord;
    if ws == [] {
      assert ws + [w] == [w] && [w][1..] == [];
    } else {
      assert (ws + [w])[1..] == ws[1..] + [w];
      AddWordsLast(AddWord(c, ws[0]), ws[1..], w);
    }
  }

  lemma ModSum(a: nat, b: nat)
    ensures (a % TWO_64 + b % TWO_64) % TWO_64 == (a + b) % TWO_64
    ensures (a % TWO_64 + b) % TWO_64 == (a + b) % TWO_64
  {
  }

  lemma NestedLast(ws: seq<nat>, w: nat, k: nat)
    ensures Nested(ws + [w], k) == Nested(ws, k) + (if k == 0 then w else Nested(ws + [w], k - 1))
  {
    assert (ws + [w])[..|ws|] == ws;
  }

  lemma OneWordMore(ws: seq<nat>, w: nat)
    ensures AddWord(SumsOf(ws), w) == SumsOf(ws + [w])
  {
    hide Nested;
    NestedLast(ws, w, 0);
    NestedLast(ws, w, 1);
    NestedLast(ws, w, 2);
    NestedLast(ws, w, 3);
    ModSum(Nested(ws, 0), w);
    ModSum(Nested(ws, 1), Nested(ws + [w], 0));
    ModSum(Nested(ws, 2), Nested(ws + [w], 1));
    ModSum(Nested(ws, 3), Nested(ws + [w], 2));
  }

  lemma {:induction false} AddWordsSums(ws: seq<nat>)
    ensures AddWords(ZERO, ws) == SumsOf(ws)
    decreases |ws|
  {
    if ws == [] {
    } else {
      hide AddWords, AddWord, SumsOf;
      var init, w := ws[..|ws| - 1], ws[|ws| - 1];
      assert ws == init + [w];
      AddWordsSums(init);
      AddWordsLast(ZERO, init, w);
      OneWordMore(init, w);
    }
  }

  /** The four registers hold the sum of the words, the sum of those sums, and so on, in 64 bits. */
  lemma FletcherSums(s: seq<Byte>, swap: bool)
    ensures Fletcher(ZERO, s, swap) == SumsOf(Words(s, swap))
  {
    FletcherWords(ZERO, s, swap);
    AddWordsSums(Words(s, swap));
  }

  // ----- records -----

  const RECORD_SIZE: nat := 312
  const MAGIC: nat := 0x2_F5BA_CBAC
  const COMPOUND: nat := 2
  const NUMTYPES: nat := 8

  const BEGIN: nat := 0
  const OBJECT: nat := 1
  const WRITE: nat := 3
  const END: nat := 5
  const SPILL: nat := 7

  type Header = h: seq<Byte> | |h| == RECORD_SIZE witness seq(RECORD_SIZE, _ => 0)

  function TypeOf(h: Header, swap: bool): nat { Field(h, 0, 4, swap) }

  predicate HasMagic(h: Header, swap: bool) { Field(h, 8, 8, swap) == MAGIC }

  /** drr_length of a WRITE record. */
  function WriteLength(h: Header, swap: bool): nat { Field(h, 32, 8, swap) }

  /** How many bytes follow the record. */
  function PayloadLen(h: Header, swap: bool): nat {
    var t := TypeOf(h, swap);
    if t == BEGIN then
      if Field(h, 16, 8, swap) % 4 == COMPOUND then Field(h, 4, 4, swap) else 0
    else if t == OBJECT then (Field(h, 28, 4, swap) + 7) / 8 * 8
    else if t == WRITE then WriteLength(h, swap)
    else if t == SPILL then Field(h, 16, 8, swap)
    else 0
  }

  /** The checksum stored in an END record. */
  function Stored(h: Header, swap: bool): Cksum {
    Cksum(Field(h, 8, 8, swap), Field(h, 16, 8, swap), Field(h, 24, 8, swap), Field(h, 32, 8, swap))
  }

  /** What the reader takes from a record: its type, the bytes that follow it, and what an END
      record says the checksum should be. */
  datatype Info = Info(t: nat, payload: nat, stored: Cksum)

  function Decode(h: Header, swap: bool): Info {
    Info(TypeOf(h, swap), PayloadLen(h, swap), Stored(h, swap))
  }

  // ----- the reader -----

  /** One comparison at an END record. */
  datatype Check = Check(stored: Cksum, expected: Cksum)

  type Counts = c: seq<nat> | |c| == NUMTYPES witness [0, 0, 0, 0, 0, 0, 0, 0]

  const NONE: Counts := [0, 0, 0, 0, 0, 0, 0, 0]

  datatype Reader = Reader(
    rest: seq<Byte>,
    swap: bool,
    zc: Cksum,
    pcksum: Cksum,
    counts: Counts,
    writeSize: nat,
    streamLen: nat,
    checks: seq<Check>)

  /** How the program ends. */
  datatype Outcome = Summary(r: Reader) | BadMagic | BadType

  /** ssread: all of the bytes or none, though a short stream is used up in trying. */
  function Ssread(r: Reader, len: nat): (bool, Reader) {
    if len == 0 then (false, r)
    else if |r.rest| < len then (false, r.(rest := []))
    else (true, r.(rest := r.rest[len..], zc := Fletcher(r.zc, r.rest[..len], r.swap), streamLen := r.streamLen + len))
  }

  /** What one record does once its type is known to be valid. */
  function Handle(r: Reader, x: Info): Reader
    requires x.t < NUMTYPES
  {
    var r1 := r.(counts := r.counts[x.t := r.counts[x.t] + 1]);
    var r2 := if x.t == END then r1.(checks := r1.checks + [Check(x.stored, r1.pcksum)], zc := ZERO)
              else Ssread(r1, x.payload).1;
    var r3 := if x.t == WRITE then r2.(writeSize := r2.writeSize + x.payload) else r2;
    r3.(pcksum := r3.zc)
  }

  /** The loop, from its second record on. */
  function Loop(r: Reader): Outcome
    decreases |r.rest|
  {
    if |r.rest| < RECORD_SIZE then Summary(r.(rest := []))
    else
      var h: Header := r.rest[..RECORD_SIZE];
      var x := Decode(h, r.swap);
      if x.t >= NUMTYPES then BadType else Loop(Handle(Ssread(r, RECORD_SIZE).1, x))
  }

  const FRESH := Reader([], false, ZERO, ZERO, NONE, 0, 0, [])

  /** The first record decides the byte order; its own checksum is then worked out afresh. */
  function Run(stream: seq<Byte>): Outcome {
    var r := FRESH.(rest := stream);
    if |stream| < RECORD_SIZE then Summary(FRESH)
    else
      var h: Header := stream[..RECORD_SIZE];
      if HasMagic(h, true) then Loop(r.(swap := true))
      else if HasMagic(h, false) then Loop(r)
      else BadMagic
  }

  /** The program's globals and locals. */
  class Dumper {
    var rest: seq<Byte>
    var swap: bool
    var zc: Cksum
    var pcksum: Cksum
    var counts: Counts
    var writeSize: nat
    var streamLen: nat
    var checks: seq<Check>

    function View(): Reader
      reads this
    {
      Reader(rest, swap, zc, pcksum, counts, writeSize, streamLen, checks)
    }

    constructor (stream: seq<Byte>)
      ensures View() == FRESH.(rest := stream)
    {
      rest := stream;
      swap, zc, pcksum := false, ZERO, ZERO;
      counts := NONE;
      writeSize, streamLen := 0, 0;
      checks := [];
    }

    method Read(len: nat) returns (ok: bool)
      modifies this
      ensures (ok, View()) == Ssread(old(View()), len)
    {
      if len == 0 {
        return false;
      }
      if |rest| < len {
        rest := [];
        return false;
      }
      zc := Fletcher(zc, rest[..len], swap);
      rest := rest[len..];
      streamLen := streamLen + len;
      ok := true;
    }

    /** The switch on the record type and what follows it. */
    method HandleRecord(x: Info)
      requires x.t < NUMTYPES
      modifies this
      ensures View() == Handle(old(View()), x)
    {
      counts := counts[x.t := counts[x.t] + 1];
      if x.t == END {
        checks := checks + [Check(x.stored, pcksum)];
        zc := ZERO;
      } else {
        var _ := Read(x.payload);
        if x.t == WRITE {
          writeSize := writeSize + x.payload;
        }
      }
      pcksum := zc;
    }

    /** What is learnt from the first record, already read; false is a bad magic number. */
    method Sniff(h: Header) returns (ok: bool)
      modifies this`swap, this`zc
      ensures HasMagic(h, true) ==> ok && View() == old(View()).(swap := true, zc := Fletcher(ZERO, h, true))
      ensures !HasMagic(h, true) ==> ok == HasMagic(h, false) && View() == old(View())
    {
      if HasMagic(h, true) {
        swap, zc := true, Fletcher(ZERO, h, true);
        return true;
      }
      ok := HasMagic(h, false);
    }
  }

  /** main, without options. */
  method ZStreamDump(stream: seq<Byte>) returns (out: Outcome)
    ensures out == Run(stream)
  {
    hide Decode, Fletcher;
    var d := new Dumper(stream);
    var first := true;
    while |d.rest| >= RECORD_SIZE
      invariant first ==> d.View() == FRESH.(rest := stream)
      invariant !first ==> Loop(d.View()) == Run(stream)
      decreases |d.rest|
    {
      ghost var before := d.View();
      var h: Header := d.rest[..RECORD_SIZE];
      var _ := d.Read(RECORD_SIZE);
      if first {
        var known := d.Sniff(h);
        if !known {
          return BadMagic;
        }
        first := false;
        before := before.(swap := d.swap);
      }
      assert Loop(before) == Run(stream) && d.View() == Ssread(before, RECORD_SIZE).1;
      var x := Decode(h, d.swap);
      if x.t >= NUMTYPES {
        return BadType;
      }
      d.HandleRecord(x);
    }
    out := Summary(if first then FRESH else d.View().(rest := []));
  }
}

/** The records of a send stream as a sender lays them out, field by field in the order of
    dmu_replay_record_t, in either byte order (include/sys/zfs_ioctl.h). */
module SendRecords {
  import opened SendStream

  // ----- laying out fields -----

  function Weight(n: nat): (w: nat)
    ensures w > 0
  {
    if n == 0 then 1 else 256 * Weight(n - 1)
  }

  function LittleBytes(v: nat, n: nat): (s: seq<Byte>)
    ensures |s| == n
  {
    if n == 0 then [] else [v % 256] + LittleBytes(v / 256, n - 1)
  }

  /** A number of n bytes, as a host of our order or, with `swap`, of the other one writes it. */
  function PutNumber(v: nat, n: nat, swap: bool): (s: seq<Byte>)
    ensures |s| == n
  {
    if swap then Reverse(LittleBytes(v, n)) else LittleBytes(v, n)
  }

  lemma {:induction false} LittleReads(v: nat, n: nat)
    requires v < Weight(n)
    ensures Little(LittleBytes(v, n)) == v
  {
    if n == 0 {
    } else {
      LittleReads(v / 256, n - 1);
      assert LittleBytes(v, n)[1..] == LittleBytes(v / 256, n - 1);
    }
  }

  lemma PutReads(v: nat, n: nat, swap: bool)
    requires v < Weight(n)
    ensures Value(PutNumber(v, n, swap), swap) == v
  {
    LittleReads(v, n);
    var s := LittleBytes(v, n);
    assert Reverse(Reverse(s)) == s;
  }

  datatype Cell = Num(width: nat, value: nat) | Raw(bytes: seq<Byte>) {
    predicate Fits() { Num? ==> value < Weight(width) }

    function Width(): nat { if Num? then width else |bytes| }

    function Lay(swap: bool): (s: seq<Byte>)
      ensures |s| == Width()
    {
      if Num? then PutNumber(value, width, swap) else bytes
    }
  }

  function Size(fs: seq<Cell>): nat {
    if fs == [] then 0 else fs[0].Width() + Size(fs[1..])
  }

  function LayAll(fs: seq<Cell>, swap: bool): (s: seq<Byte>)
    ensures |s| == Size(fs)
  {
    if fs == [] then [] else fs[0].Lay(swap) + LayAll(fs[1..], swap)
  }

  lemma {:induction false} SizeJoin(a: seq<Cell>, b: seq<Cell>)
    ensures Size(a + b) == Size(a) + Size(b)
  {
    if a == [] {
      assert a + b == b;
    } else {
      assert (a + b)[1..] == a[1..] + b;
      SizeJoin(a[1..], b);
    }
  }

  lemma {:induction false} LayJoin(a: seq<Cell>, b: seq<Cell>, swap: bool)
    ensures LayAll(a + b, swap) == LayAll(a, swap) + LayAll(b, swap)
  {
    if a == [] {
      assert a + b == b;
    } else {
      assert (a + b)[1..] == a[1..] + b;
      LayJoin(a[1..], b, swap);
    }
  }

  /** A number is read back where the fields before it end. */
  lemma ReadBack(a: seq<Cell>, f: Cell, b: seq<Cell>, tail: seq<Byte>, swap: bool)
    requires f.Num? && f.Fits()
    ensures var h := LayAll(a + [f] + b, swap) + tail;
            Size(a) + f.width <= |h| && Field(h, Size(a), f.width, swap) == f.value
  {
    LayOne(f, swap);
    PutReads(f.value, f.width, swap);
    hide LayAll, PutNumber, Value;
    LayJoin(a + [f], b, swap);
    LayJoin(a, [f], swap);
    Between(LayAll(a, swap), f.Lay(swap), LayAll(b, swap), tail);
  }

  lemma LayOne(f: Cell, swap: bool)
    ensures LayAll([f], swap) == f.Lay(swap)
  {
    assert [f][1..] == [];
  }

  lemma Between(a: seq<Byte>, m: seq<Byte>, b: seq<Byte>, c: seq<Byte>)
    ensures (a + m + b + c)[|a|..|a| + |m|] == m
  {
  }

  // ----- the records -----

  /** ddt_key_t. */
  datatype DdtKey = DdtKey(cksum: Cksum, prop: nat)

  /** drr_u, one member for each value of drr_type. */
  datatype Record =
    | Begin(magic: nat, versionInfo: nat, creationTime: nat, osType: nat, flags: nat, toGuid: nat, fromGuid: nat,
            toName: seq<Byte>)
    | Object(obj: nat, objType: nat, bonusType: nat, blksz: nat, bonusLen: nat, checksumType: nat, compress: nat,
             toGuid: nat)
    | FreeObjects(firstObj: nat, numObjs: nat, toGuid: nat)
    | Write(obj: nat, objType: nat, offset: nat, length: nat, toGuid: nat, checksumType: nat, checksumFlags: nat,
            key: DdtKey)
    | Free(obj: nat, offset: nat, length: nat, toGuid: nat)
    | End(checksum: Cksum, toGuid: nat)
    | WriteByref(obj: nat, offset: nat, length: nat, toGuid: nat, refGuid: nat, refObj: nat, refOffset: nat,
                 checksumType: nat, checksumFlags: nat, key: DdtKey)
    | Spill(obj: nat, length: nat, toGuid: nat)

  /** The value of drr_type. */
  function TypeNumber(r: Record): nat {
    match r
    case Begin(_, _, _, _, _, _, _, _) => 0
    case Object(_, _, _, _, _, _, _, _) => 1
    case FreeObjects(_, _, _) => 2
    case Write(_, _, _, _, _, _, _, _) => 3
    case Free(_, _, _, _) => 4
    case End(_, _) => 5
    case WriteByref(_, _, _, _, _, _, _, _, _, _) => 6
    case Spill(_, _, _) => 7
  }

  const SIX_ZEROES: seq<Byte> := [0, 0, 0, 0, 0, 0]

  function CksumWords(c: Cksum): seq<Cell> { [Num(8, c.w0), Num(8, c.w1), Num(8, c.w2), Num(8, c.w3)] }

  function Union(r: Record): seq<Cell> {
    match r
    case Begin(magic, versionInfo, creationTime, osType, flags, toGuid, fromGuid, toName) =>
      [Num(8, magic), Num(8, versionInfo), Num(8, creationTime), Num(4, osType), Num(4, flags), Num(8, toGuid),
       Num(8, fromGuid), Raw(toName)]
    case Object(obj, objType, bonusType, blksz, bonusLen, checksumType, compress, toGuid) =>
      [Num(8, obj), Num(4, objType), Num(4, bonusType), Num(4, blksz), Num(4, bonusLen), Num(1, checksumType),
       Num(1, compress), Raw(SIX_ZEROES), Num(8, toGuid)]
    case FreeObjects(firstObj, numObjs, toGuid) => [Num(8, firstObj), Num(8, numObjs), Num(8, toGuid)]
    case Write(obj, objType, offset, length, toGuid, checksumType, checksumFlags, key) =>
      [Num(8, obj), Num(4, objType), Num(4, 0), Num(8, offset), Num(8, length), Num(8, toGuid),
       Num(1, checksumType), Num(1, checksumFlags), Raw(SIX_ZEROES)] + CksumWords(key.cksum) + [Num(8, key.prop)]
    case Free(obj, offset, length, toGuid) => [Num(8, obj), Num(8, offset), Num(8, length), Num(8, toGuid)]
    case End(checksum, toGuid) => CksumWords(checksum) + [Num(8, toGuid)]
    case WriteByref(obj, offset, length, toGuid, refGuid, refObj, refOffset, checksumType, checksumFlags, key) =>
      [Num(8, obj), Num(8, offset), Num(8, length), Num(8, toGuid), Num(8, refGuid), Num(8, refObj),
       Num(8, refOffset), Num(1, checksumType), Num(1, checksumFlags), Raw(SIX_ZEROES)] +
      CksumWords(key.cksum) + [Num(8, key.prop)]
    case Spill(obj, length, toGuid) =>
      [Num(8, obj), Num(8, length), Num(8, toGuid), Num(8, 0), Num(8, 0), Num(8, 0), Num(8, 0)]
  }

  /** A record, what it gives as drr_payloadlen, whatever is left of its union, and what follows it. */
  datatype Sent = Sent(rec: Record, payloadLen: nat, unused: seq<Byte>, payload: seq<Byte>) {
    function Fields(): seq<Cell> { [Num(4, TypeNumber(rec)), Num(4, payloadLen)] + Union(rec) }

    /** Every number has room in its field, and all of it is as large as a record. */
    predicate Proper() {
      && (forall i | 0 <= i < |Fields()| :: Fields()[i].Fits())
      && Size(Fields()) + |unused| == RECORD_SIZE
      && |payload| == Following(rec, payloadLen) && |payload| % 4 == 0
    }

    function HeaderBytes(swap: bool): Header
      requires Proper()
    {
      LayAll(Fields(), swap) + unused
    }
  }

  /** A record is as large as its largest union, with a name of MAXNAMELEN bytes. */
  lemma RecordSize(x: Sent)
    requires x.rec.Begin? && |x.rec.toName| == 256
    ensures Size(x.Fields()) == RECORD_SIZE
  {
    var fs := x.Fields();
    SizeNext(fs, 0);
    SizeNext(fs, 1);
    SizeNext(fs, 2);
    SizeNext(fs, 3);
    SizeNext(fs, 4);
    SizeNext(fs, 5);
    SizeNext(fs, 6);
    SizeNext(fs, 7);
    SizeNext(fs, 8);
    SizeNext(fs, 9);
    assert fs[..10] == fs;
  }

  /** How many bytes of payload follow a record. */
  function Following(r: Record, payloadLen: nat): nat {
    match r
    case Begin(_, versionInfo, _, _, _, _, _, _) => if versionInfo % 4 == 2 then payloadLen else 0
    case Object(_, _, _, _, bonusLen, _, _, _) => RoundUp8(bonusLen)
    case Write(_, _, _, length, _, _, _, _) => length
    case Spill(_, length, _) => length
    case _ => 0
  }

  /** The least multiple of 8 that is no less. */
  function RoundUp8(n: nat): (m: nat)
    ensures m % 8 == 0 && n <= m < n + 8
  {
    if n % 8 == 0 then n else n + (8 - n % 8)
  }

  lemma FieldReads(x: Sent, swap: bool, a: seq<Cell>, f: Cell, b: seq<Cell>)
    requires x.Proper() && x.Fields() == a + [f] + b && f.Num?
    ensures Size(a) + f.width <= RECORD_SIZE && Field(x.HeaderBytes(swap), Size(a), f.width, swap) == f.value
  {
    assert x.Fields()[|a|] == f;
    ReadBack(a, f, b, x.unused, swap);
  }

  lemma SizeSnoc(a: seq<Cell>, f: Cell)
    ensures Size(a + [f]) == Size(a) + f.Width()
  {
    SizeJoin(a, [f]);
    assert [f][1..] == [];
  }

  /** The number in the i-th field is read back where the fields before it end. */
  lemma Reads(x: Sent, swap: bool, i: nat, off: nat)
    requires x.Proper() && i < |x.Fields()| && x.Fields()[i].Num? && off == Size(x.Fields()[..i])
    ensures var f := x.Fields()[i];
            off + f.width <= RECORD_SIZE && Field(x.HeaderBytes(swap), off, f.width, swap) == f.value
  {
    var fs := x.Fields();
    assert fs == fs[..i] + [fs[i]] + fs[i + 1..];
    FieldReads(x, swap, fs[..i], fs[i], fs[i + 1..]);
  }

  lemma SizeNext(fs: seq<Cell>, i: nat)
    requires i < |fs|
    ensures Size(fs[..i + 1]) == Size(fs[..i]) + fs[i].Width() && Size(fs[..0]) == 0
  {
    assert fs[..i + 1] == fs[..i] + [fs[i]];
    SizeSnoc(fs[..i], fs[i]);
  }

  /** Where the second to fourth fields start, and those of a union that starts with two long ones. */
  lemma TypeReads(x: Sent, swap: bool)
    requires x.Proper()
    ensures TypeOf(x.HeaderBytes(swap), swap) == TypeNumber(x.rec)
    ensures Field(x.HeaderBytes(swap), 4, 4, swap) == x.payloadLen
    ensures Size(x.Fields()[..2]) == 8
  {
    var fs := x.Fields();
    SizeNext(fs, 0);
    SizeNext(fs, 1);
    Reads(x, swap, 0, 0);
    Reads(x, swap, 1, 4);
  }

  lemma BeginReads(x: Sent, swap: bool)
    requires x.Proper() && x.rec.Begin?
    ensures PayloadLen(x.HeaderBytes(swap), swap) == Following(x.rec, x.payloadLen)
    ensures HasMagic(x.HeaderBytes(swap), swap) <==> x.rec.magic == MAGIC
  {
    hide Field, LayAll, Size, Sent.HeaderBytes, Sent.Proper;
    TypeReads(x, swap);
    SizeNext(x.Fields(), 2);
    Reads(x, swap, 2, 8);
    Reads(x, swap, 3, 16);
  }

  lemma ObjectReads(x: Sent, swap: bool)
    requires x.Proper() && x.rec.Object?
    ensures PayloadLen(x.HeaderBytes(swap), swap) == Following(x.rec, x.payloadLen)
  {
    hide Field, LayAll, Size, Sent.HeaderBytes, Sent.Proper;
    TypeReads(x, swap);
    SizeNext(x.Fields(), 2);
    SizeNext(x.Fields(), 3);
    SizeNext(x.Fields(), 4);
    SizeNext(x.Fields(), 5);
    Reads(x, swap, 6, 28);
  }

  lemma WriteReads(x: Sent, swap: bool)
    requires x.Proper() && x.rec.Write?
    ensures PayloadLen(x.HeaderBytes(swap), swap) == Following(x.rec, x.payloadLen)
  {
    hide Field, LayAll, Size, Sent.HeaderBytes, Sent.Proper;
    TypeReads(x, swap);
    var fs := x.Fields();
    SizeNext(fs, 2);
    SizeNext(fs, 3);
    SizeNext(fs, 4);
    SizeNext(fs, 5);
    Reads(x, swap, 6, 32);
  }

  lemma SpillReads(x: Sent, swap: bool)
    requires x.Proper() && x.rec.Spill?
    ensures PayloadLen(x.HeaderBytes(swap), swap) == Following(x.rec, x.payloadLen)
  {
    hide Field, LayAll, Size, Sent.HeaderBytes, Sent.Proper;
    TypeReads(x, swap);
    SizeNext(x.Fields(), 2);
    Reads(x, swap, 3, 16);
  }

  lemma EndReads(x: Sent, swap: bool)
    requires x.Proper() && x.rec.End?
    ensures Stored(x.HeaderBytes(swap), swap) == x.rec.checksum
  {
    hide Field, LayAll, Size, Sent.HeaderBytes, Sent.Proper;
    TypeReads(x, swap);
    var fs := x.Fields();
    SizeNext(fs, 2);
    SizeNext(fs, 3);
    SizeNext(fs, 4);
    Reads(x, swap, 2, 8);
    Reads(x, swap, 3, 16);
    Reads(x, swap, 4, 24);
    Reads(x, swap, 5, 32);
  }

  /** What is read from a record in the order it was written in: its type, how much follows it, and the
      checksum of an END record. */
  lemma DecodeReads(x: Sent, swap: bool)
    requires x.Proper()
    ensures Decode(x.HeaderBytes(swap), swap).t == TypeNumber(x.rec)
    ensures Decode(x.HeaderBytes(swap), swap).payload == |x.payload|
    ensures x.rec.End? ==> Decode(x.HeaderBytes(swap), swap).stored == x.rec.checksum
  {
    TypeReads(x, swap);
    match x.rec {
      case Begin(_, _, _, _, _, _, _, _) => BeginReads(x, swap);
      case Object(_, _, _, _, _, _, _, _) => ObjectReads(x, swap);
      case Write(_, _, _, _, _, _, _, _) => WriteReads(x, swap);
      case Spill(_, _, _) => SpillReads(x, swap);
      case End(_, _) => EndReads(x, swap);
      case _ =>
    }
  }
}

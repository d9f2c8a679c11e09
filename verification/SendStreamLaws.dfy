/** What zstreamdump reports of a well-formed stream, in either byte order
    (cmd/zstreamdump/zstreamdump.c). */
module SendStreamLaws {
  import opened SendRecords
  import opened SendStream

  /** A record, what follows it, and what the reader should make of it. */
  datatype Rec = Rec(header: Header, payload: seq<Byte>, info: Info) {
    function Bytes(): seq<Byte> { header + payload }
  }

  function Bytes(recs: seq<Rec>): seq<Byte> {
    if recs == [] then [] else recs[0].Bytes() + Bytes(recs[1..])
  }

  predicate Labelled(x: Rec, swap: bool) {
    x.info == Decode(x.header, swap)
  }

  /** A record of a known type with a payload of the length it announces, in whole words. */
  predicate Fits(x: Rec) {
    x.info.t < NUMTYPES && |x.payload| == x.info.payload && |x.payload| % 4 == 0
  }

  predicate Good(x: Rec, swap: bool) {
    Labelled(x, swap) && Fits(x)
  }

  predicate AllGood(recs: seq<Rec>, swap: bool) {
    forall i | 0 <= i < |recs| :: Good(recs[i], swap)
  }

  /** A stream written on a host whose order differs from ours exactly when `swap` is set. */
  predicate WellFormed(recs: seq<Rec>, swap: bool) {
    AllGood(recs, swap) && recs != [] && HasMagic(recs[0].header, swap)
  }

  // ----- what should be reported -----

  function CountOf(recs: seq<Rec>, t: nat): nat {
    if recs == [] then 0 else (if recs[0].info.t == t then 1 else 0) + CountOf(recs[1..], t)
  }

  function WriteTotal(recs: seq<Rec>): nat {
    if recs == [] then 0 else (if recs[0].info.t == WRITE then |recs[0].payload| else 0) + WriteTotal(recs[1..])
  }

  /** At each END: its checksum, and the checksum of exactly the bytes since the last END. */
  function ChecksFrom(window: seq<Byte>, recs: seq<Rec>, swap: bool): seq<Check>
    decreases |recs|
  {
    if recs == [] then []
    else if recs[0].info.t == END then
      [Check(recs[0].info.stored, Fletcher(ZERO, window, swap))] + ChecksFrom([], recs[1..], swap)
    else ChecksFrom(window + recs[0].Bytes(), recs[1..], swap)
  }

  // ----- the reader meets it -----

  /** The checksum registers at the top of the loop, after the bytes of `window`. */
  ghost predicate Synced(r: Reader, window: seq<Byte>) {
    |window| % 4 == 0 && r.zc == r.pcksum == Fletcher(ZERO, window, r.swap)
  }

  /** The reader after an END record. */
  function AfterEnd(r: Reader, i: Info, rest: seq<Byte>): Reader {
    r.(rest := rest, zc := ZERO, pcksum := ZERO,
       counts := r.counts[END := r.counts[END] + 1],
       streamLen := r.streamLen + RECORD_SIZE,
       checks := r.checks + [Check(i.stored, r.pcksum)])
  }

  /** The reader after any other record. */
  function AfterData(r: Reader, x: Rec, rest: seq<Byte>): Reader
    requires x.info.t < NUMTYPES
  {
    var t := x.info.t;
    var c := Fletcher(Fletcher(r.zc, x.header, r.swap), x.payload, r.swap);
    r.(rest := rest, zc := c, pcksum := c,
       counts := r.counts[t := r.counts[t] + 1],
       writeSize := r.writeSize + (if t == WRITE then |x.payload| else 0),
       streamLen := r.streamLen + RECORD_SIZE + |x.payload|)
  }

  function HeaderRead(r: Reader, x: Rec, rest: seq<Byte>): Reader {
    r.(rest := x.payload + rest, zc := Fletcher(r.zc, x.header, r.swap), streamLen := r.streamLen + RECORD_SIZE)
  }

  lemma EndEmpty(x: Rec, swap: bool)
    requires Good(x, swap)
    ensures x.info.t == END ==> x.payload == []
  {
    hide Field;
  }

  lemma ReadHeader(r: Reader, x: Rec, rest: seq<Byte>)
    requires r.rest == x.Bytes() + rest
    requires Good(x, r.swap)
    ensures Fits(x) && Loop(r) == Loop(Handle(HeaderRead(r, x, rest), x.info))
  {
    hide Decode, Fletcher, Handle;
    assert r.rest[..RECORD_SIZE] == x.header;
    assert r.rest[RECORD_SIZE..] == x.payload + rest;
  }

  lemma ReadPayload(r: Reader, payload: seq<Byte>, rest: seq<Byte>)
    requires r.rest == payload + rest
    ensures Ssread(r, |payload|).1 ==
            r.(rest := rest, zc := Fletcher(r.zc, payload, r.swap), streamLen := r.streamLen + |payload|)
  {
    if payload == [] {
      assert payload + rest == rest;
    } else {
      assert r.rest[..|payload|] == payload && r.rest[|payload|..] == rest;
    }
  }

  lemma EndRecord(r: Reader, x: Rec, rest: seq<Byte>)
    requires x.info.t == END && x.payload == []
    ensures Handle(HeaderRead(r, x, rest), x.info) == AfterEnd(r, x.info, rest)
  {
    assert x.payload + rest == rest;
  }

  lemma DataRecord(r: Reader, x: Rec, rest: seq<Byte>)
    requires Fits(x) && x.info.t != END
    ensures Handle(HeaderRead(r, x, rest), x.info) == AfterData(r, x, rest)
  {
    var r1, t := HeaderRead(r, x, rest), x.info.t;
    ReadPayload(r1.(counts := r1.counts[t := r1.counts[t] + 1]), x.payload, rest);
  }

  lemma FletcherThrice(c: Cksum, a: seq<Byte>, b: seq<Byte>, d: seq<Byte>, swap: bool)
    requires |a| % 4 == 0 && |b| % 4 == 0
    ensures Fletcher(c, a + (b + d), swap) == Fletcher(Fletcher(Fletcher(c, a, swap), b, swap), d, swap)
  {
    FletcherConcat(c, a, b + d, swap);
    FletcherConcat(Fletcher(c, a, swap), b, d, swap);
  }

  lemma DataSynced(r: Reader, x: Rec, rest: seq<Byte>, window: seq<Byte>)
    requires Fits(x)
    requires Synced(r, window)
    ensures Synced(AfterData(r, x, rest), window + x.Bytes())
  {
    FletcherThrice(ZERO, window, x.header, x.payload, r.swap);
  }

  /** What the summary adds to the reader. */
  ghost predicate Reports(r: Reader, recs: seq<Rec>, window: seq<Byte>, out: Reader) {
    && (forall t | 0 <= t < NUMTYPES :: out.counts[t] == r.counts[t] + CountOf(recs, t))
    && out.writeSize == r.writeSize + WriteTotal(recs)
    && out.streamLen == r.streamLen + |Bytes(recs)|
    && out.checks == r.checks + ChecksFrom(window, recs, r.swap)
  }

  lemma {:induction false} LoopReports(r: Reader, recs: seq<Rec>, window: seq<Byte>)
    requires r.rest == Bytes(recs)
    requires AllGood(recs, r.swap)
    requires Synced(r, window)
    ensures Loop(r).Summary? && Reports(r, recs, window, Loop(r).r)
    decreases |recs|
  {
    if recs == [] {
      NothingLeft(r, window);
    } else {
      hide Loop, Reports, Synced, Fletcher, Good, Handle;
      var x, rest := recs[0], Bytes(recs[1..]);
      ReadHeader(r, x, rest);
      EndEmpty(x, r.swap);
      if x.info.t == END {
        EndRecord(r, x, rest);
        EndSynced(r, x, rest);
        LoopReports(AfterEnd(r, x.info, rest), recs[1..], []);
        EndReports(r, recs, window, rest, Loop(r).r);
      } else {
        DataRecord(r, x, rest);
        DataSynced(r, x, rest, window);
        LoopReports(AfterData(r, x, rest), recs[1..], window + x.Bytes());
        DataReports(r, recs, window, rest, Loop(r).r);
      }
    }
  }

  lemma NothingLeft(r: Reader, window: seq<Byte>)
    requires r.rest == []
    ensures Loop(r).Summary? && Reports(r, [], window, Loop(r).r)
  {
    assert r.checks + [] == r.checks;
  }

  lemma EndSynced(r: Reader, x: Rec, rest: seq<Byte>)
    ensures Synced(AfterEnd(r, x.info, rest), [])
  {
  }

  lemma EndReports(r: Reader, recs: seq<Rec>, window: seq<Byte>, rest: seq<Byte>, out: Reader)
    requires recs != [] && recs[0].info.t == END && recs[0].payload == []
    requires Synced(r, window)
    requires Reports(AfterEnd(r, recs[0].info, rest), recs[1..], [], out)
    ensures Reports(r, recs, window, out)
  {
  }

  lemma DataReports(r: Reader, recs: seq<Rec>, window: seq<Byte>, rest: seq<Byte>, out: Reader)
    requires recs != [] && Fits(recs[0]) && recs[0].info.t != END
    requires Reports(AfterData(r, recs[0], rest), recs[1..], window + recs[0].Bytes(), out)
    ensures Reports(r, recs, window, out)
  {
  }

  // ----- the byte order is found -----

  lemma {:induction false} TopByte(s: seq<Byte>)
    requires s != [] && s[|s| - 1] != 0
    ensures Little(s) >= Weight(|s| - 1)
  {
    if |s| <= 1 {
    } else {
      TopByte(s[1..]);
    }
  }

  /** No record carries the magic number in both orders. */
  lemma OneOrder(h: Header)
    ensures !(HasMagic(h, true) && HasMagic(h, false))
  {
    var m := h[8..16];
    if HasMagic(h, false) {
      assert m[0] == Little(m) % 256 == MAGIC % 256;
      TopByte(Reverse(m));
      assert Weight(7) > Weight(5) > MAGIC;
    }
  }

  lemma GoodStream(recs: seq<Rec>, swap: bool)
    requires WellFormed(recs, swap)
    ensures Run(Bytes(recs)).Summary?
    ensures Reports(FRESH.(swap := swap), recs, [], Run(Bytes(recs)).r)
  {
    var stream := Bytes(recs);
    assert stream[..RECORD_SIZE] == recs[0].header;
    OneOrder(recs[0].header);
    LoopReports(FRESH.(rest := stream, swap := swap), recs, []);
  }

  // ----- streams as they are sent -----

  /** Proper records, the first of them a BEGIN with the magic number. */
  predicate Sendable(xs: seq<Sent>) {
    (forall x | x in xs :: x.Proper()) && xs != [] && xs[0].rec.Begin? && xs[0].rec.magic == 0x2_F5BA_CBAC
  }

  /** The stream that a host of our order or, with `swap`, of the other one sends. */
  function Stream(xs: seq<Sent>, swap: bool): seq<Byte>
    requires forall x | x in xs :: x.Proper()
  {
    if xs == [] then [] else xs[0].HeaderBytes(swap) + xs[0].payload + Stream(xs[1..], swap)
  }

  /** How many of the records are of a type. */
  function Tally(xs: seq<Sent>, t: nat): nat {
    if xs == [] then 0 else (if TypeNumber(xs[0].rec) == t then 1 else 0) + Tally(xs[1..], t)
  }

  /** The lengths that the WRITE records give. */
  function WriteLengths(xs: seq<Sent>): nat {
    if xs == [] then 0 else (if xs[0].rec.Write? then xs[0].rec.length else 0) + WriteLengths(xs[1..])
  }

  /** At each END: the checksum it carries, and that of exactly the bytes sent since the last END. */
  function Comparisons(window: seq<Byte>, xs: seq<Sent>, swap: bool): seq<Check>
    requires forall x | x in xs :: x.Proper()
    decreases |xs|
  {
    if xs == [] then []
    else if xs[0].rec.End? then
      [Check(xs[0].rec.checksum, Fletcher(ZERO, window, swap))] + Comparisons([], xs[1..], swap)
    else Comparisons(window + (xs[0].HeaderBytes(swap) + xs[0].payload), xs[1..], swap)
  }

  /** The bytes that follow the records. */
  function Payloads(xs: seq<Sent>): nat {
    if xs == [] then 0 else |xs[0].payload| + Payloads(xs[1..])
  }

  lemma {:induction false} StreamLength(xs: seq<Sent>, swap: bool)
    requires forall x | x in xs :: x.Proper()
    ensures |Stream(xs, swap)| == 312 * |xs| + Payloads(xs)
    decreases |xs|
  {
    if xs == [] {
    } else {
      hide Sent.Proper, Sent.HeaderBytes;
      StreamLength(xs[1..], swap);
    }
  }

  function Written(x: Sent, swap: bool): Rec
    requires x.Proper()
  {
    Rec(x.HeaderBytes(swap), x.payload, Decode(x.HeaderBytes(swap), swap))
  }

  function WrittenAll(xs: seq<Sent>, swap: bool): (recs: seq<Rec>)
    requires forall x | x in xs :: x.Proper()
    ensures |recs| == |xs|
  {
    if xs == [] then [] else [Written(xs[0], swap)] + WrittenAll(xs[1..], swap)
  }

  lemma WrittenIs(x: Sent, swap: bool)
    requires x.Proper()
    ensures Good(Written(x, swap), swap) && Written(x, swap).info.t == TypeNumber(x.rec)
    ensures x.rec.End? <==> Written(x, swap).info.t == END
    ensures x.rec.Write? <==> Written(x, swap).info.t == WRITE
    ensures x.rec.Write? ==> |x.payload| == x.rec.length
    ensures x.rec.End? ==> Written(x, swap).info.stored == x.rec.checksum
  {
    hide Decode;
    DecodeReads(x, swap);
  }

  lemma {:induction false} WrittenTotals(xs: seq<Sent>, swap: bool, t: nat)
    requires forall x | x in xs :: x.Proper()
    ensures AllGood(WrittenAll(xs, swap), swap)
    ensures Bytes(WrittenAll(xs, swap)) == Stream(xs, swap)
    ensures CountOf(WrittenAll(xs, swap), t) == Tally(xs, t)
    ensures WriteTotal(WrittenAll(xs, swap)) == WriteLengths(xs)
    decreases |xs|
  {
    hide Good, TypeNumber;
    if xs == [] {
    } else {
      WrittenTotals(xs[1..], swap, t);
      WrittenIs(xs[0], swap);
      hide Written, Sent.Proper;
      var recs, rest := WrittenAll(xs, swap), WrittenAll(xs[1..], swap);
      assert recs[1..] == rest;
      forall i | 0 <= i < |recs| ensures Good(recs[i], swap) {
        assert i > 0 ==> recs[i] == rest[i - 1];
      }
      WrittenBytes(xs[0], swap);
    }
  }

  lemma WrittenBytes(x: Sent, swap: bool)
    requires x.Proper()
    ensures Written(x, swap).Bytes() == x.HeaderBytes(swap) + x.payload && Written(x, swap).payload == x.payload
  {
  }

  lemma {:induction false} WrittenChecks(window: seq<Byte>, xs: seq<Sent>, swap: bool)
    requires forall x | x in xs :: x.Proper()
    ensures ChecksFrom(window, WrittenAll(xs, swap), swap) == Comparisons(window, xs, swap)
    decreases |xs|
  {
    hide Good, TypeNumber, Fletcher;
    if xs == [] {
    } else {
      var window' := if xs[0].rec.End? then [] else window + (xs[0].HeaderBytes(swap) + xs[0].payload);
      WrittenChecks(window', xs[1..], swap);
      WrittenIs(xs[0], swap);
      WrittenBytes(xs[0], swap);
      hide Written, Sent.Proper;
      assert WrittenAll(xs, swap)[1..] == WrittenAll(xs[1..], swap);
    }
  }

  /** Every stream that can be sent, by a host of either byte order, is read to its end; the counts, the
      write total and the length are those of what was sent, and the checksum compared at each END is
      that of exactly the bytes since the END before it. */
  lemma StreamReport(xs: seq<Sent>, swap: bool)
    requires Sendable(xs)
    ensures Run(Stream(xs, swap)).Summary?
    ensures var r := Run(Stream(xs, swap)).r;
            && (forall t | 0 <= t < NUMTYPES :: r.counts[t] == Tally(xs, t))
            && r.writeSize == WriteLengths(xs) && r.streamLen == 312 * |xs| + Payloads(xs)
            && r.checks == Comparisons([], xs, swap)
  {
    hide Run, Good, CountOf, WriteTotal, Tally, WriteLengths, ChecksFrom, Comparisons, Stream, Payloads, WrittenAll;
    hide Sent.Proper;
    var recs := WrittenAll(xs, swap);
    WrittenTotals(xs, swap, 0);
    FirstWritten(xs, swap);
    GoodStream(recs, swap);
    WrittenChecks([], xs, swap);
    StreamLength(xs, swap);
    var r := Run(Stream(xs, swap)).r;
    forall t | 0 <= t < NUMTYPES ensures r.counts[t] == Tally(xs, t) {
      WrittenTotals(xs, swap, t);
    }
  }

  lemma FirstWritten(xs: seq<Sent>, swap: bool)
    requires Sendable(xs)
    ensures WrittenAll(xs, swap) != [] && HasMagic(WrittenAll(xs, swap)[0].header, swap)
  {
    hide HasMagic, Sent.Proper;
    assert xs[0] in xs;
    BeginReads(xs[0], swap);
  }

  /** A stream whose END records carry the checksums of what was sent before them is not complained of. */
  lemma {:induction false} SoundStream(window: seq<Byte>, xs: seq<Sent>, swap: bool)
    requires forall x | x in xs :: x.Proper()
    requires Summed(window, xs, swap)
    ensures forall c | c in Comparisons(window, xs, swap) :: c.stored == c.expected
    decreases |xs|
  {
    if xs == [] {
    } else if xs[0].rec.End? {
      SoundStream([], xs[1..], swap);
    } else {
      SoundStream(window + (xs[0].HeaderBytes(swap) + xs[0].payload), xs[1..], swap);
    }
  }

  predicate Summed(window: seq<Byte>, xs: seq<Sent>, swap: bool)
    requires forall x | x in xs :: x.Proper()
    decreases |xs|
  {
    if xs == [] then true
    else if xs[0].rec.End? then
      xs[0].rec.checksum == Fletcher(ZERO, window, swap) && Summed([], xs[1..], swap)
    else Summed(window + (xs[0].HeaderBytes(swap) + xs[0].payload), xs[1..], swap)
  }

  // ----- a stream and its twin -----

  /** The same record, but for the checksum of an END and the bytes of the payload. */
  predicate Alike(x: Sent, y: Sent) {
    (x.rec == y.rec || (x.rec.End? && y.rec.End?)) && |x.payload| == |y.payload|
  }

  lemma {:induction false} AlikeTotals(a: seq<Sent>, b: seq<Sent>, t: nat)
    requires |a| == |b| && forall i | 0 <= i < |a| :: Alike(a[i], b[i])
    ensures Tally(b, t) == Tally(a, t) && WriteLengths(b) == WriteLengths(a) && Payloads(b) == Payloads(a)
    decreases |a|
  {
    if a == [] {
    } else {
      assert Alike(a[0], b[0]);
      AlikeTotals(a[1..], b[1..], t);
    }
  }

  /** The same records sent by hosts of the two byte orders give the same counts, write total and
      length. */
  lemma TwinStreams(a: seq<Sent>, b: seq<Sent>, swap: bool)
    requires Sendable(a) && Sendable(b)
    requires |a| == |b| && forall i | 0 <= i < |a| :: Alike(a[i], b[i])
    ensures Run(Stream(a, swap)).Summary? && Run(Stream(b, !swap)).Summary?
    ensures var x, y := Run(Stream(a, swap)).r, Run(Stream(b, !swap)).r;
            x.counts == y.counts && x.writeSize == y.writeSize && x.streamLen == y.streamLen
  {
    hide Run, Tally, WriteLengths, Payloads, Stream, Comparisons, Sent.Proper;
    StreamReport(a, swap);
    StreamReport(b, !swap);
    var x, y := Run(Stream(a, swap)).r, Run(Stream(b, !swap)).r;
    forall t | 0 <= t < NUMTYPES ensures x.counts[t] == y.counts[t] {
      AlikeTotals(a, b, t);
    }
    AlikeTotals(a, b, 0);
  }
}

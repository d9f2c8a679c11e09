/** The zpios parameter sweep: five value generators run as nested loops
    (cmd/zpios/zpios_main.c). */
module Zpios {
  import opened ZpiosRange

  // ----- the product -----

  /** One run: thread count, chunk size, region size, region count and offset. */
  datatype Params = Params(t: nat, c: nat, s: nat, n: nat, o: nat)

  /** What each value leads to, one after the other. */
  ghost function Cross(vals: seq<nat>, each: nat -> seq<Params>): seq<Params> {
    if vals == [] then [] else Cross(vals[..|vals| - 1], each) + each(vals[|vals| - 1])
  }

  ghost function ByOffset(t: nat, c: nat, s: nat, n: nat): nat -> seq<Params> {
    (o: nat) => [Params(t, c, s, n, o)]
  }

  ghost function ByCount(t: nat, c: nat, s: nat, os: seq<nat>): nat -> seq<Params> {
    (n: nat) => Cross(os, ByOffset(t, c, s, n))
  }

  ghost function BySize(t: nat, c: nat, ns: seq<nat>, os: seq<nat>): nat -> seq<Params> {
    (s: nat) => Cross(ns, ByCount(t, c, s, os))
  }

  ghost function ByChunk(t: nat, ss: seq<nat>, ns: seq<nat>, os: seq<nat>): nat -> seq<Params> {
    (c: nat) => Cross(ss, BySize(t, c, ns, os))
  }

  ghost function ByThread(cs: seq<nat>, ss: seq<nat>, ns: seq<nat>, os: seq<nat>): nat -> seq<Params> {
    (t: nat) => Cross(cs, ByChunk(t, ss, ns, os))
  }

  predicate All(vals: seq<nat>, fits: nat -> bool) { forall v | v in vals :: fits(v) }

  function Always(): nat -> bool { (v: nat) => true }

  /** No region is smaller than the chunk. */
  function AtLeast(c: nat): nat -> bool { (s: nat) => s >= c }

  function HoldsChunk(ss: seq<nat>): nat -> bool { (c: nat) => All(ss, AtLeast(c)) }

  function HoldsChunks(cs: seq<nat>, ss: seq<nat>): nat -> bool { (t: nat) => All(cs, HoldsChunk(ss)) }

  lemma CrossSnoc(vals: seq<nat>, each: nat -> seq<Params>, i: nat)
    requires i < |vals|
    ensures Cross(vals[..i + 1], each) == Cross(vals[..i], each) + each(vals[i])
  {
    assert vals[..i + 1][..i] == vals[..i];
  }

  lemma {:induction false} CrossPrefix(vals: seq<nat>, each: nat -> seq<Params>, i: nat)
    requires i <= |vals|
    ensures Cross(vals[..i], each) <= Cross(vals, each)
    decreases |vals|
  {
    if i < |vals| {
      assert vals[..|vals| - 1][..i] == vals[..i];
      CrossPrefix(vals[..|vals| - 1], each, i);
    } else {
      assert vals[..i] == vals;
    }
  }

  // ----- what a sweep has done -----

  datatype Run = Run(id: nat, p: Params)

  /** Runs that follow `before`: the first so many of the list, numbered on. */
  ghost predicate Issued(before: seq<Run>, now: seq<Run>, list: seq<Params>) {
    && before <= now && |now| <= |before| + |list|
    && forall i | |before| <= i < |now| :: now[i] == Run(i, list[i - |before|])
  }

  ghost predicate Whole(before: seq<Run>, now: seq<Run>, list: seq<Params>) {
    Issued(before, now, list) && |now| == |before| + |list|
  }

  lemma IssuedThen(before: seq<Run>, mid: seq<Run>, now: seq<Run>, a: seq<Params>, b: seq<Params>)
    requires Whole(before, mid, a) && Issued(mid, now, b)
    ensures Issued(before, now, a + b)
    ensures Whole(mid, now, b) ==> Whole(before, now, a + b)
  {
    forall i | |before| <= i < |now| ensures now[i] == Run(i, (a + b)[i - |before|]) {
      if i < |mid| {
        assert mid[i] == now[i];
      }
    }
  }

  lemma IssuedLonger(before: seq<Run>, now: seq<Run>, a: seq<Params>, b: seq<Params>)
    requires Issued(before, now, a) && a <= b
    ensures Issued(before, now, b)
  {
  }

  /** Every run of the list succeeds when they are numbered from here. */
  predicate Succeeds(ok: Run -> bool, from: nat, list: seq<Params>) {
    forall i | 0 <= i < |list| :: ok(Run(from + i, list[i]))
  }

  lemma SucceedsBoth(ok: Run -> bool, from: nat, a: seq<Params>, b: seq<Params>)
    ensures Succeeds(ok, from, a + b) <==> Succeeds(ok, from, a) && Succeeds(ok, from + |a|, b)
  {
    if Succeeds(ok, from, a + b) {
      forall i | 0 <= i < |a| ensures ok(Run(from + i, a[i])) {
        assert (a + b)[i] == a[i];
      }
      forall i | 0 <= i < |b| ensures ok(Run(from + |a| + i, b[i])) {
        assert (a + b)[|a| + i] == b[i] && ok(Run(from + (|a| + i), (a + b)[|a| + i]));
      }
    }
  }

  lemma SucceedsOne(ok: Run -> bool, from: nat, p: Params)
    ensures Succeeds(ok, from, [p]) <==> ok(Run(from, p))
  {
    assert [p][0] == p;
    assert Succeeds(ok, from, [p]) ==> ok(Run(from + 0, [p][0]));
  }

  lemma SucceedsPrefix(ok: Run -> bool, from: nat, a: seq<Params>, b: seq<Params>)
    requires a <= b && Succeeds(ok, from, b)
    ensures Succeeds(ok, from, a)
  {
    assert forall i | 0 <= i < |a| :: a[i] == b[i];
  }

  /** A loop over values has failed or not, and has done so much. */
  ghost predicate Outcome(ok: Run -> bool, before: seq<Run>, now: seq<Run>, list: seq<Params>, fits: bool,
                          failed: bool) {
    && Issued(before, now, list)
    && (failed <==> !(fits && Succeeds(ok, |before|, list)))
    && (!failed ==> Whole(before, now, list))
  }

  /** The loop so far: `i` values done without failure. */
  ghost predicate SoFar(ok: Run -> bool, before: seq<Run>, now: seq<Run>, vals: seq<nat>,
                        each: nat -> seq<Params>, fits: nat -> bool, i: nat)
  {
    && i <= |vals| && Whole(before, now, Cross(vals[..i], each))
    && Succeeds(ok, |before|, Cross(vals[..i], each)) && All(vals[..i], fits)
  }

  lemma NoneSoFar(ok: Run -> bool, before: seq<Run>, vals: seq<nat>, each: nat -> seq<Params>, fits: nat -> bool)
    ensures SoFar(ok, before, before, vals, each, fits, 0)
  {
    assert vals[..0] == [];
  }

  lemma OneMore(ok: Run -> bool, before: seq<Run>, mid: seq<Run>, now: seq<Run>, vals: seq<nat>,
                each: nat -> seq<Params>, fits: nat -> bool, i: nat, failed: bool)
    requires i < |vals| && SoFar(ok, before, mid, vals, each, fits, i)
    requires Outcome(ok, mid, now, each(vals[i]), fits(vals[i]), failed)
    ensures !failed ==> SoFar(ok, before, now, vals, each, fits, i + 1)
    ensures failed ==> Outcome(ok, before, now, Cross(vals, each), All(vals, fits), true)
  {
    hide Whole, Issued, Cross, Succeeds;
    var a, b := Cross(vals[..i], each), each(vals[i]);
    CrossSnoc(vals, each, i);
    OutcomeIssued(ok, mid, now, b, fits(vals[i]), failed);
    IssuedThen(before, mid, now, a, b);
    WholeSize(before, mid, a);
    SucceedsBoth(ok, |before|, a, b);
    if failed {
      CrossPrefix(vals, each, i + 1);
      IssuedLonger(before, now, a + b, Cross(vals, each));
      if Succeeds(ok, |before|, Cross(vals, each)) {
        SucceedsPrefix(ok, |before|, a + b, Cross(vals, each));
      }
    } else {
      assert vals[..i + 1] == vals[..i] + [vals[i]];
    }
  }

  lemma OutcomeIssued(ok: Run -> bool, before: seq<Run>, now: seq<Run>, list: seq<Params>, fits: bool, failed: bool)
    requires Outcome(ok, before, now, list, fits, failed)
    ensures Issued(before, now, list)
  {
  }

  lemma WholeSize(before: seq<Run>, now: seq<Run>, list: seq<Params>)
    requires Whole(before, now, list)
    ensures |now| == |before| + |list|
  {
  }

  lemma AllAlways(vals: seq<nat>)
    ensures All(vals, Always())
  {
  }

  lemma TooSmall(ok: Run -> bool, before: seq<Run>, now: seq<Run>, vals: seq<nat>, each: nat -> seq<Params>,
                 c: nat, i: nat)
    requires i < |vals| && SoFar(ok, before, now, vals, each, AtLeast(c), i) && vals[i] < c
    ensures Outcome(ok, before, now, Cross(vals, each), All(vals, AtLeast(c)), true)
  {
    CrossPrefix(vals, each, i);
    IssuedLonger(before, now, Cross(vals[..i], each), Cross(vals, each));
    assert vals[i] in vals && !AtLeast(c)(vals[i]);
  }

  lemma AllDone(ok: Run -> bool, before: seq<Run>, now: seq<Run>, vals: seq<nat>, each: nat -> seq<Params>,
                fits: nat -> bool)
    requires SoFar(ok, before, now, vals, each, fits, |vals|)
    ensures Outcome(ok, before, now, Cross(vals, each), All(vals, fits), false)
  {
    assert vals[..|vals|] == vals;
  }

  lemma ValueIs(s: Spec, i: nat)
    requires Ends(s) && i < |Values(s)|
    ensures More(s, i) && Values(s)[i] == Item(s, i)
  {
  }

  /** cmd_args_t. */
  class Sweep {
    const T: Range
    const N: Range
    const O: Range
    const C: Range
    const S: Range
    /** What the kernel makes of a run. */
    const ok: Run -> bool
    var cur: Params
    var currentId: nat
    var runs: seq<Run>

    ghost predicate AllEnd() {
      Ends(T.spec) && Ends(N.spec) && Ends(O.spec) && Ends(C.spec) && Ends(S.spec)
    }

    ghost predicate Valid()
      reads this, T, N, O, C, S
    {
      && T != N && T != O && T != C && T != S && N != O && N != C && N != S && O != C && O != S && C != S
      && AllEnd()
      && T.Valid() && N.Valid() && O.Valid() && C.Valid() && S.Valid()
      && currentId == |runs|
    }

    ghost function Ts(): seq<nat>
      requires AllEnd()
    {
      Values(T.spec)
    }

    ghost function Ns(): seq<nat>
      requires AllEnd()
    {
      Values(N.spec)
    }

    ghost function Os(): seq<nat>
      requires AllEnd()
    {
      Values(O.spec)
    }

    ghost function Cs(): seq<nat>
      requires AllEnd()
    {
      Values(C.spec)
    }

    ghost function Ss(): seq<nat>
      requires AllEnd()
    {
      Values(S.spec)
    }

    constructor (t: Spec, n: Spec, o: Spec, c: Spec, s: Spec, ok: Run -> bool)
      requires Ends(t) && Ends(n) && Ends(o) && Ends(c) && Ends(s)
      ensures Valid() && fresh(T) && fresh(N) && fresh(O) && fresh(C) && fresh(S)
      ensures T.spec == t && N.spec == n && O.spec == o && C.spec == c && S.spec == s && this.ok == ok
      ensures T.taken == N.taken == O.taken == C.taken == S.taken == 0 && runs == []
    {
      T := new Range(t);
      N := new Range(n);
      O := new Range(o);
      C := new Range(c);
      S := new Range(s);
      this.ok, currentId, runs := ok, 0, [];
    }

    /** run_one, and the id moved on. */
    method RunOne() returns (failed: bool)
      requires currentId == |runs|
      modifies this
      ensures cur == old(cur) && currentId == |runs|
      ensures Outcome(ok, old(runs), runs, [cur], true, failed)
    {
      var r := Run(currentId, cur);
      SucceedsOne(ok, |runs|, cur);
      runs := runs + [r];
      failed := !ok(r);
      currentId := currentId + 1;
    }

    /** run_offsets. */
    method RunOffsets() returns (failed: bool)
      requires Valid() && O.taken == 0
      modifies this, O
      ensures Valid()
      ensures O.taken == 0
      ensures cur.t == old(cur.t) && cur.c == old(cur.c) && cur.s == old(cur.s) && cur.n == old(cur.n)
      ensures Outcome(ok, old(runs), runs, Cross(Os(), ByOffset(cur.t, cur.c, cur.s, cur.n)),
                      true, failed)
    {
      hide Outcome, SoFar, Values, Range.Valid, Cross, All, Ends;
      failed := false;
      ghost var vals, each := Os(), ByOffset(cur.t, cur.c, cur.s, cur.n);
      ghost var fits := Always();
      NoneSoFar(ok, runs, vals, each, fits);
      while !failed
        invariant Valid()
        invariant cur.t == old(cur.t) && cur.c == old(cur.c) && cur.s == old(cur.s) && cur.n == old(cur.n)
        invariant failed ==> Outcome(ok, old(runs), runs, Cross(vals, each), All(vals, fits), true)
        invariant !failed ==> O.taken <= |vals| && SoFar(ok, old(runs), runs, vals, each, fits, O.taken)
        decreases |vals| - O.taken, !failed
      {
        ghost var mid, i := runs, O.taken;
        var more, v := O.GetNext();
        if !more {
          break;
        }
        ValueIs(O.spec, i);
        cur := cur.(o := v);
        failed := RunOne();
        OneMore(ok, old(runs), mid, runs, vals, each, fits, i, failed);
      }
      if !failed {
        AllDone(ok, old(runs), runs, vals, each, fits);
      }
      AllAlways(vals);
      O.Reset();
    }

    /** run_region_counts. */
    method RunRegionCounts() returns (failed: bool)
      requires Valid() && N.taken == 0 && O.taken == 0
      modifies this, N, O
      ensures Valid()
      ensures !failed ==> N.taken == 0 && O.taken == 0
      ensures cur.t == old(cur.t) && cur.c == old(cur.c) && cur.s == old(cur.s)
      ensures Outcome(ok, old(runs), runs, Cross(Ns(), ByCount(cur.t, cur.c, cur.s, Os())),
                      true, failed)
    {
      hide Outcome, SoFar, Values, Range.Valid, Cross, All, Ends;
      failed := false;
      ghost var vals, each := Ns(), ByCount(cur.t, cur.c, cur.s, Os());
      ghost var fits := Always();
      NoneSoFar(ok, runs, vals, each, fits);
      while !failed
        invariant Valid()
        invariant cur.t == old(cur.t) && cur.c == old(cur.c) && cur.s == old(cur.s)
        invariant !failed ==> O.taken == 0
        invariant failed ==> Outcome(ok, old(runs), runs, Cross(vals, each), All(vals, fits), true)
        invariant !failed ==> N.taken <= |vals| && SoFar(ok, old(runs), runs, vals, each, fits, N.taken)
        decreases |vals| - N.taken, !failed
      {
        ghost var mid, i := runs, N.taken;
        var more, v := N.GetNext();
        if !more {
          break;
        }
        ValueIs(N.spec, i);
        cur := cur.(n := v);
        failed := RunOffsets();
        OneMore(ok, old(runs), mid, runs, vals, each, fits, i, failed);
      }
      if !failed {
        AllDone(ok, old(runs), runs, vals, each, fits);
      }
      AllAlways(vals);
      N.Reset();
    }

    /** run_region_sizes; a region smaller than the chunk ends the sweep, and leaves the generator where
        it is. */
    method RunRegionSizes() returns (failed: bool)
      requires Valid() && S.taken == 0 && N.taken == 0 && O.taken == 0
      modifies this, S, N, O
      ensures Valid()
      ensures !failed ==> S.taken == 0 && N.taken == 0 && O.taken == 0
      ensures cur.t == old(cur.t) && cur.c == old(cur.c)
      ensures Outcome(ok, old(runs), runs, Cross(Ss(), BySize(cur.t, cur.c, Ns(), Os())),
                      All(Ss(), AtLeast(cur.c)), failed)
    {
      hide Outcome, SoFar, Values, Range.Valid, Cross, All, Ends;
      failed := false;
      ghost var vals, each := Ss(), BySize(cur.t, cur.c, Ns(), Os());
      ghost var fits := AtLeast(cur.c);
      NoneSoFar(ok, runs, vals, each, fits);
      while !failed
        invariant Valid()
        invariant cur.t == old(cur.t) && cur.c == old(cur.c)
        invariant !failed ==> N.taken == 0 && O.taken == 0
        invariant failed ==> Outcome(ok, old(runs), runs, Cross(vals, each), All(vals, fits), true)
        invariant !failed ==> S.taken <= |vals| && SoFar(ok, old(runs), runs, vals, each, fits, S.taken)
        decreases |vals| - S.taken, !failed
      {
        ghost var mid, i := runs, S.taken;
        var more, v := S.GetNext();
        if !more {
          break;
        }
        ValueIs(S.spec, i);
        cur := cur.(s := v);
        if cur.s < cur.c {
          TooSmall(ok, old(runs), runs, vals, each, cur.c, i);
          return true;
        }
        failed := RunRegionCounts();
        OneMore(ok, old(runs), mid, runs, vals, each, fits, i, failed);
      }
      if !failed {
        AllDone(ok, old(runs), runs, vals, each, fits);
      }
      S.Reset();
    }

    /** run_chunk_sizes. */
    method RunChunkSizes() returns (failed: bool)
      requires Valid() && C.taken == 0 && S.taken == 0 && N.taken == 0 && O.taken == 0
      modifies this, C, S, N, O
      ensures Valid()
      ensures !failed ==> C.taken == 0 && S.taken == 0 && N.taken == 0 && O.taken == 0
      ensures cur.t == old(cur.t)
      ensures Outcome(ok, old(runs), runs, Cross(Cs(), ByChunk(cur.t, Ss(), Ns(), Os())),
                      All(Cs(), HoldsChunk(Ss())), failed)
    {
      hide Outcome, SoFar, Values, Range.Valid, Cross, All, Ends;
      failed := false;
      ghost var vals, each := Cs(), ByChunk(cur.t, Ss(), Ns(), Os());
      ghost var fits := HoldsChunk(Ss());
      NoneSoFar(ok, runs, vals, each, fits);
      while !failed
        invariant Valid()
        invariant cur.t == old(cur.t)
        invariant !failed ==> S.taken == 0 && N.taken == 0 && O.taken == 0
        invariant failed ==> Outcome(ok, old(runs), runs, Cross(vals, each), All(vals, fits), true)
        invariant !failed ==> C.taken <= |vals| && SoFar(ok, old(runs), runs, vals, each, fits, C.taken)
        decreases |vals| - C.taken, !failed
      {
        ghost var mid, i := runs, C.taken;
        var more, v := C.GetNext();
        if !more {
          break;
        }
        ValueIs(C.spec, i);
        cur := cur.(c := v);
        failed := RunRegionSizes();
        OneMore(ok, old(runs), mid, runs, vals, each, fits, i, failed);
      }
      if !failed {
        AllDone(ok, old(runs), runs, vals, each, fits);
      }
      C.Reset();
    }

    /** run_thread_counts. */
    method RunThreadCounts() returns (failed: bool)
      requires Valid() && T.taken == 0 && C.taken == 0 && S.taken == 0 && N.taken == 0 && O.taken == 0
      modifies this, T, C, S, N, O
      ensures Valid()
      ensures !failed ==> C.taken == 0 && S.taken == 0 && N.taken == 0 && O.taken == 0
      ensures Outcome(ok, old(runs), runs, Cross(Ts(), ByThread(Cs(), Ss(), Ns(), Os())),
                      All(Ts(), HoldsChunks(Cs(), Ss())), failed)
    {
      hide Outcome, SoFar, Values, Range.Valid, Cross, All, Ends;
      failed := false;
      ghost var vals, each := Ts(), ByThread(Cs(), Ss(), Ns(), Os());
      ghost var fits := HoldsChunks(Cs(), Ss());
      NoneSoFar(ok, runs, vals, each, fits);
      while !failed
        invariant Valid()
        invariant !failed ==> C.taken == 0 && S.taken == 0 && N.taken == 0 && O.taken == 0
        invariant failed ==> Outcome(ok, old(runs), runs, Cross(vals, each), All(vals, fits), true)
        invariant !failed ==> T.taken <= |vals| && SoFar(ok, old(runs), runs, vals, each, fits, T.taken)
        decreases |vals| - T.taken, !failed
      {
        ghost var mid, i := runs, T.taken;
        var more, v := T.GetNext();
        if !more {
          break;
        }
        ValueIs(T.spec, i);
        cur := cur.(t := v);
        failed := RunChunkSizes();
        OneMore(ok, old(runs), mid, runs, vals, each, fits, i, failed);
      }
      if !failed {
        AllDone(ok, old(runs), runs, vals, each, fits);
      }
    }
  }

  /** The whole sweep: the runs are the first of the product, numbered from 0, and all of it exactly
      when every run succeeds and no region is smaller than a chunk. */
  method RunAll(t: Spec, n: Spec, o: Spec, c: Spec, s: Spec, ok: Run -> bool) returns (failed: bool, runs: seq<Run>)
    requires Ends(t) && Ends(n) && Ends(o) && Ends(c) && Ends(s)
    ensures var list := Cross(Values(t), ByThread(Values(c), Values(s), Values(n), Values(o)));
            && |runs| <= |list|
            && (forall i | 0 <= i < |runs| :: runs[i] == Run(i, list[i]))
            && (!failed <==> Succeeds(ok, 0, list) && All(Values(t), HoldsChunks(Values(c), Values(s))))
            && (!failed ==> |runs| == |list|)
  {
    hide Cross, Values, All, Succeeds, Ends, HoldsChunks, ByThread, Outcome;
    var sweep := new Sweep(t, n, o, c, s, ok);
    failed := sweep.RunThreadCounts();
    runs := sweep.runs;
    FromNothing(ok, runs, Cross(sweep.Ts(), ByThread(sweep.Cs(), sweep.Ss(), sweep.Ns(), sweep.Os())),
                All(sweep.Ts(), HoldsChunks(sweep.Cs(), sweep.Ss())), failed);
  }

  lemma FromNothing(ok: Run -> bool, runs: seq<Run>, list: seq<Params>, fits: bool, failed: bool)
    requires Outcome(ok, [], runs, list, fits, failed)
    ensures |runs| <= |list| && forall i | 0 <= i < |runs| :: runs[i] == Run(i, list[i])
    ensures !failed <==> fits && Succeeds(ok, 0, list)
    ensures !failed ==> |runs| == |list|
  {
  }
}

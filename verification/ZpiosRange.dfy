/** A zpios parameter range: the values its generator yields in 64-bit arithmetic, and whether it
    ever stops (cmd/zpios/zpios_main.c). */
module ZpiosRange {
  import opened Arith

  const TWO_64: nat := 0x1_0000_0000_0000_0000

  type Word = w: nat | w < TWO_64

  /** uint64 arithmetic. */
  function Wrap(x: nat): Word { x % TWO_64 }

  function Mul(a: nat, b: nat): Word { Wrap(a * b) }

  /** How a parameter was given: a list of values, or a lowest and a highest value and a step in
      per cent of the lowest. */
  datatype Spec = List(vals: seq<nat>) | Steps(low: Word, high: Word, perc: Word)

  // ----- the values -----

  /** The product get_next works out at its k-th call. */
  function Product(s: Spec, k: nat): Word
    requires s.Steps?
  {
    Mul(s.low, Mul(k, s.perc))
  }

  /** The value it then offers. */
  function Offer(s: Spec, k: nat): Word
    requires s.Steps?
  {
    Wrap(s.low + Product(s, k) / 100)
  }

  predicate More(s: Spec, k: nat) {
    match s case List(vals) => k < |vals| case Steps(_, high, _) => Offer(s, k) <= high
  }

  function Item(s: Spec, k: nat): nat
    requires More(s, k)
  {
    match s case List(vals) => vals[k] case Steps(_, _, _) => Offer(s, k)
  }

  /** The generator comes to an end. */
  ghost predicate Ends(s: Spec) {
    exists k: nat :: !More(s, k)
  }

  ghost function FirstStop(s: Spec, k: nat, bound: nat): (n: nat)
    requires k <= bound && !More(s, bound)
    ensures k <= n <= bound && !More(s, n) && forall i | k <= i < n :: More(s, i)
    decreases bound - k
  {
    if !More(s, k) then k else FirstStop(s, k + 1, bound)
  }

  ghost function Length(s: Spec): (n: nat)
    requires Ends(s)
    ensures !More(s, n) && forall i | 0 <= i < n :: More(s, i)
  {
    var bound: nat :| !More(s, bound);
    FirstStop(s, 0, bound)
  }

  /** The values a generator that ends yields. */
  ghost function Values(s: Spec): (vs: seq<nat>)
    requires Ends(s)
    ensures |vs| == Length(s)
    ensures forall i | 0 <= i < |vs| :: More(s, i) && vs[i] == Item(s, i)
  {
    seq(Length(s), i requires 0 <= i < Length(s) => Item(s, i))
  }

  lemma LengthIs(s: Spec, n: nat)
    requires !More(s, n) && forall i | 0 <= i < n :: More(s, i)
    ensures Ends(s) && Length(s) == n
  {
    assert Length(s) <= n;
    assert n <= Length(s);
  }

  lemma ListEnds(s: Spec)
    requires s.List?
    ensures Ends(s) && Values(s) == s.vals
  {
    LengthIs(s, |s.vals|);
  }

  /** range_repeat_t. */
  class Range {
    const spec: Spec
    var nextVal: nat
    /** How many values were taken since the last reset. */
    ghost var taken: nat

    constructor (spec: Spec)
      ensures this.spec == spec && Valid() && taken == 0
    {
      this.spec, nextVal, taken := spec, 0, 0;
    }

    ghost predicate Valid()
      reads this
    {
      && (forall k | 0 <= k < taken :: More(spec, k))
      && nextVal == if spec.Steps? then Mul(taken, spec.perc) else taken
    }

    method Reset()
      modifies this
      ensures Valid() && taken == 0
    {
      nextVal, taken := 0, 0;
    }

    /** get_next: the next value, whether or not there is an end to them. */
    method GetNext() returns (more: bool, val: nat)
      requires Valid()
      modifies this
      ensures Valid()
      ensures more <==> More(spec, old(taken))
      ensures more ==> val == Item(spec, old(taken)) && taken == old(taken) + 1
      ensures !more ==> taken == old(taken)
      ensures Ends(spec) ==> (more <==> old(taken) < |Values(spec)|) && taken <= |Values(spec)|
    {
      hide Wrap, Mul, Values, Length, Offer, More, Item;
      if Ends(spec) {
        TakenInTime();
      }
      match spec {
        case Steps(low, high, perc) =>
          val := Wrap(low + Mul(low, nextVal) / 100);
          OfferIs(spec, taken, nextVal);
          NextProduct(taken, perc);
          if val > high {
            return false, val;
          }
          nextVal := if nextVal == 0 then perc else Wrap(nextVal + perc);
        case List(vals) =>
          ItemIs(spec, taken);
          if nextVal >= |vals| {
            return false, 0;
          }
          val := vals[nextVal];
          nextVal := nextVal + 1;
      }
      taken := taken + 1;
      more := true;
    }

    lemma TakenInTime()
      requires Valid() && Ends(spec)
      ensures taken <= |Values(spec)|
      ensures More(spec, taken) <==> taken < |Values(spec)|
    {
    }
  }

  lemma OfferIs(s: Spec, k: nat, next: nat)
    requires s.Steps? && next == Mul(k, s.perc)
    ensures Offer(s, k) == Wrap(s.low + Mul(s.low, next) / 100)
    ensures More(s, k) <==> Offer(s, k) <= s.high
    ensures More(s, k) ==> Item(s, k) == Offer(s, k)
  {
  }

  lemma ItemIs(s: Spec, k: nat)
    requires s.List?
    ensures More(s, k) <==> k < |s.vals|
    ensures More(s, k) ==> Item(s, k) == s.vals[k]
  {
  }

  lemma NextProduct(taken: nat, perc: Word)
    ensures Mul(taken + 1, perc) == Wrap(Mul(taken, perc) + perc)
    ensures Mul(taken, perc) == 0 ==> Mul(taken + 1, perc) == perc
  {
    hide Wrap;
    Distribute(taken, 1, perc);
    WrapSum(taken * perc, perc);
    WrapSmall(perc);
  }

  lemma WrapSmall(x: nat)
    requires x < TWO_64
    ensures Wrap(x) == x
  {
  }

  /** Adding before or after wrapping comes to the same. */
  lemma WrapSum(x: nat, y: nat)
    ensures Wrap(x + y) == Wrap(Wrap(x) + y)
  {
    var q, z := x / TWO_64, x % TWO_64 + y;
    var q2, r2 := z / TWO_64, z % TWO_64;
    assert x + y == (q + q2) * TWO_64 + r2;
    DivModUnique(q + q2, TWO_64, r2);
  }

  // ----- when it ends -----

  /** The largest power of two, up to the v-th, that divides c. */
  function Grain(c: nat, v: nat): nat {
    if v == 0 || c % 2 == 1 then 1 else 2 * Grain(c / 2, v - 1)
  }

  lemma Twice(a: int, g: int)
    ensures a * (2 * g) == 2 * (a * g) == (2 * a) * g
  {
  }

  /** c and 2^v in units of the grain: the first is odd, unless the second is 1. */
  lemma {:induction false} GrainSplits(c: nat, v: nat) returns (a: nat, n: nat)
    ensures n <= v && c == a * Grain(c, v) && P2(v) == P2(n) * Grain(c, v) && Grain(c, v) > 0
    ensures n == 0 || a % 2 == 1
  {
    if v == 0 || c % 2 == 1 {
      a, n := c, v;
    } else {
      a, n := GrainSplits(c / 2, v - 1);
      Twice(a, Grain(c / 2, v - 1));
      Twice(P2(n), Grain(c / 2, v - 1));
    }
  }

  /** An odd number reaches every residue of a power of two. */
  lemma {:induction false} OddReaches(a: nat, n: nat, m: nat) returns (k: nat, t: int)
    requires a % 2 == 1 || n == 0
    ensures k * a == m + t * P2(n)
  {
    if n == 0 {
      k, t := 0, 0 - m;
    } else {
      k, t := OddReaches(a, n - 1, m);
      if t % 2 == 0 {
        Twice(t / 2, P2(n - 1));
        t := t / 2;
      } else {
        OddStep(a, P2(n - 1), m, k, t);
        k, t := k + P2(n - 1), (t + a) / 2;
      }
    }
  }

  lemma OddStep(a: nat, h: nat, m: nat, k: nat, t: int)
    requires a % 2 == 1 && t % 2 == 1 && k * a == m + t * h
    ensures (k + h) * a == m + (t + a) / 2 * (2 * h)
  {
    Distribute(k, h, a);
    Distribute(t, a, h);
    Twice((t + a) / 2, h);
  }

  /** Multiplying before or after wrapping comes to the same. */
  lemma WrapTimes(a: nat, b: nat)
    ensures Wrap(a * Wrap(b)) == Wrap(a * b)
  {
    var q, r := b / TWO_64, b % TWO_64;
    var q2, r2 := a * r / TWO_64, a * r % TWO_64;
    assert b == q * TWO_64 + r;
    assert a * b == a * (q * TWO_64) + a * r == (a * q) * TWO_64 + a * r;
    assert a * b == (a * q + q2) * TWO_64 + r2;
    DivModUnique(a * q + q2, TWO_64, r2);
  }

  lemma ProductIs(s: Spec, k: nat)
    requires s.Steps?
    ensures Product(s, k) == Wrap(k * (s.low * s.perc))
  {
    WrapTimes(s.low, k * s.perc);
    assert s.low * (k * s.perc) == k * (s.low * s.perc);
  }

  /** The grain of the steps: what every product is a multiple of. */
  function Unit(s: Spec): nat
    requires s.Steps?
  {
    Grain(s.low * s.perc, 64)
  }

  /** Every product is a multiple of the grain. */
  lemma ProductMultiple(s: Spec, k: nat)
    requires s.Steps?
    ensures Unit(s) > 0 && Product(s, k) % Unit(s) == 0
  {
    hide Wrap, Grain, Product;
    ProductIs(s, k);
    MultipleOfGrain(k, s.low * s.perc);
  }

  lemma MultipleOfGrain(k: nat, c: nat)
    ensures Grain(c, 64) > 0 && Wrap(k * c) % Grain(c, 64) == 0
  {
    hide Wrap, Grain, P2;
    var a, n := GrainSplits(c, 64);
    SmallPowers();
    WrapLeaves(k * c);
    Remains(k, a, Grain(c, 64), P2(n), k * c / TWO_64, Wrap(k * c));
  }

  lemma WrapLeaves(x: nat)
    ensures x == x / TWO_64 * TWO_64 + Wrap(x)
  {
  }

  lemma Remains(k: nat, a: nat, g: nat, h: nat, q: nat, x: nat)
    requires g > 0 && k * (a * g) == q * (h * g) + x
    ensures x % g == 0
  {
    assert x == (k * a - q * h) * g;
    DivModUnique(k * a - q * h, g, 0);
  }

  /** Every multiple of the grain below 2^64 is a product. */
  lemma MultipleReached(s: Spec, x: Word) returns (k: nat)
    requires s.Steps? && Unit(s) > 0 && x % Unit(s) == 0
    ensures Product(s, k) == x
  {
    hide Wrap, Grain, Product;
    Whole(x, Unit(s));
    k := GrainReaches(s.low * s.perc, x / Unit(s), x);
    ProductIs(s, k);
  }

  lemma Whole(x: nat, g: nat)
    requires g > 0 && x % g == 0
    ensures x == x / g * g
  {
  }

  lemma GrainReaches(c: nat, m: nat, x: Word) returns (k: nat)
    requires x == m * Grain(c, 64)
    ensures Wrap(k * c) == x
  {
    hide Wrap, Grain, P2;
    var a, n := GrainSplits(c, 64);
    SmallPowers();
    var t;
    k, t := OddReaches(a, n, m);
    Lands(k, a, Grain(c, 64), P2(n), t, m, x);
    WrapOf(k * c, t, x);
  }

  lemma Lands(k: nat, a: nat, g: nat, h: nat, t: int, m: nat, x: nat)
    requires k * a == m + t * h && x == m * g
    ensures k * (a * g) == x + t * (h * g)
  {
    assert k * (a * g) == (k * a) * g == (m + t * h) * g == m * g + t * h * g;
    assert t * h * g == t * (h * g);
  }

  lemma WrapOf(y: nat, t: int, x: Word)
    requires y == x + t * TWO_64
    ensures Wrap(y) == x
  {
    DivModUnique(t, TWO_64, x);
  }

  /** The first multiple of the grain that is high enough. */
  function Needed(s: Spec): nat
    requires s.Steps? && s.low <= s.high && Unit(s) > 0
  {
    var d, g := 100 * (s.high - s.low + 1), Unit(s);
    (d + g - 1) / g * g
  }

  /** What decides, before the first call, whether there is an end. */
  predicate Stops(s: Spec) {
    s.Steps? ==> s.low > s.high ||
                 (Unit(s) > 0 && Needed(s) < TWO_64 && s.low + Needed(s) / 100 < TWO_64)
  }

  lemma NeededIsFirst(s: Spec, x: nat)
    requires s.Steps? && s.low <= s.high && Unit(s) > 0
    ensures Needed(s) % Unit(s) == 0 && Needed(s) / 100 >= s.high - s.low + 1
    ensures x % Unit(s) == 0 && x / 100 >= s.high - s.low + 1 ==> Needed(s) <= x
  {
    hide Grain;
    RoundUp(100 * (s.high - s.low + 1), Unit(s), x);
  }

  lemma RoundUp(d: nat, g: nat, x: nat)
    requires g > 0
    ensures var r := (d + g - 1) / g * g; r % g == 0 && r >= d && (x % g == 0 && x >= d ==> r <= x)
  {
    var q := (d + g - 1) / g;
    assert d + g - 1 == q * g + (d + g - 1) % g;
    DivModUnique(q, g, 0);
    if x % g == 0 && x >= d && x < q * g {
      var m := x / g;
      assert x == m * g;
      if m >= q {
        MulMonotone(q, m, g);
      } else {
        MulMonotone(m, q - 1, g);
        Distribute(q - 1, 1, g);
      }
    }
  }

  /** For every range, there is an end exactly when some multiple of the grain of its steps, taken
      in 64 bits, carries the value past the highest one. */
  lemma EndsExactly(s: Spec)
    ensures Ends(s) <==> Stops(s)
  {
    match s {
      case List(_) => ListEnds(s);
      case Steps(low, high, _) =>
        ProductMultiple(s, 0);
        if low > high {
          assert Product(s, 0) == 0;
          assert !More(s, 0);
        } else if Stops(s) {
          StopReached(s);
        } else {
          forall k: nat ensures More(s, k) {
            NotStopped(s, k);
          }
        }
    }
  }

  lemma StopReached(s: Spec)
    requires s.Steps? && s.low <= s.high && Stops(s)
    ensures Ends(s)
  {
    hide Needed, Unit, Product, Wrap;
    NeededIsFirst(s, 0);
    var k := MultipleReached(s, Needed(s));
    WrapSmall(s.low + Needed(s) / 100);
    assert !More(s, k);
  }

  lemma NotStopped(s: Spec, k: nat)
    requires s.Steps? && s.low <= s.high && !Stops(s)
    ensures More(s, k)
  {
    hide Product, Needed, Unit, Wrap;
    ProductMultiple(s, k);
    NeededIsFirst(s, Product(s, k));
    NotPast(s.low, s.high, Product(s, k), Needed(s));
  }

  lemma NotPast(low: Word, high: Word, p: Word, needed: nat)
    requires low <= high && (p / 100 >= high - low + 1 ==> needed <= p)
    requires needed >= TWO_64 || low + needed / 100 >= TWO_64
    ensures Wrap(low + p / 100) <= high
  {
  }

  // ----- when nothing wraps -----

  /** The k-th value in unbounded arithmetic. */
  function Plain(s: Spec, k: nat): nat
    requires s.Steps?
  {
    s.low + s.low * (k * s.perc) / 100
  }

  /** `n` is how many values there are in unbounded arithmetic. */
  ghost predicate PlainLength(s: Spec, n: nat)
    requires s.Steps?
  {
    Plain(s, n) > s.high && forall k | 0 <= k < n :: Plain(s, k) <= s.high
  }

  /** 64 bits hold whatever is worked out. */
  predicate Roomy(s: Spec) {
    s.Steps? ==> 100 * (s.high + 1) + s.low * s.perc < TWO_64
  }

  lemma PlainOffer(s: Spec, k: nat)
    requires s.Steps? && s.low * (k * s.perc) < TWO_64 && s.low + s.low * (k * s.perc) / 100 < TWO_64
    ensures Offer(s, k) == Plain(s, k)
  {
    hide Wrap;
    var x := s.low * (k * s.perc);
    WrapTimes(s.low, k * s.perc);
    WrapSmall(x);
    WrapSmall(s.low + x / 100);
  }

  lemma OneStepOn(low: nat, high: nat, perc: nat, x: nat)
    requires low + low * x / 100 <= high
    ensures low * (x + perc) <= 100 * (high + 1) + low * perc
  {
    assert low * (x + perc) == low * x + low * perc;
  }

  /** In a roomy range nothing wraps up to the first value past the highest. */
  lemma RoomyOffer(s: Spec, k: nat)
    requires s.Steps? && Roomy(s) && s.low <= s.high && (k > 0 ==> Plain(s, k - 1) <= s.high)
    ensures Offer(s, k) == Plain(s, k)
  {
    if k > 0 {
      Distribute(k - 1, 1, s.perc);
      OneStepOn(s.low, s.high, s.perc, (k - 1) * s.perc);
    }
    PlainOffer(s, k);
  }

  /** There the generator yields exactly the values of unbounded arithmetic. */
  lemma RoomyValues(s: Spec, n: nat)
    requires s.Steps? && Roomy(s) && PlainLength(s, n)
    ensures Ends(s) && Values(s) == seq(n, (k: nat) => Plain(s, k))
  {
    hide Offer, Plain;
    if s.low > s.high {
      CrossedEnds(s, n);
    } else {
      forall k | 0 <= k <= n ensures Offer(s, k) == Plain(s, k) {
        RoomyOffer(s, k);
      }
    }
    LengthIs(s, n);
  }

  lemma CrossedEnds(s: Spec, n: nat)
    requires s.Steps? && s.low > s.high && PlainLength(s, n)
    ensures n == 0 && Offer(s, 0) == s.low
  {
    assert Plain(s, 0) == s.low;
  }

  lemma PlainGrows(s: Spec, k: nat)
    requires s.Steps? && s.low > 0 && s.perc > 0
    ensures Plain(s, k) >= s.low + k / 100
  {
    MulMonotone(1, s.perc, k);
    MulMonotone(1, s.low, k * s.perc);
    assert k * s.perc == s.perc * k && s.low * (k * s.perc) >= k;
  }

  /** A roomy range ends exactly when its bounds are crossed or its steps are steps at all. */
  lemma RoomyEnds(s: Spec)
    requires s.Steps? && Roomy(s)
    ensures Ends(s) <==> s.low > s.high || (s.low > 0 && s.perc > 0)
  {
    if s.low > s.high {
      assert Product(s, 0) == 0 && !More(s, 0);
    } else if s.low > 0 && s.perc > 0 {
      PlainGrows(s, 100 * (s.high + 1));
      var n := FirstPast(s, 0, 100 * (s.high + 1));
      RoomyValues(s, n);
    } else {
      forall k: nat ensures More(s, k) {
        assert s.low * Mul(k, s.perc) == 0;
      }
    }
  }

  lemma {:induction false} FirstPast(s: Spec, k: nat, bound: nat) returns (n: nat)
    requires s.Steps? && k <= bound && Plain(s, bound) > s.high && forall i | 0 <= i < k :: Plain(s, i) <= s.high
    ensures PlainLength(s, n)
    decreases bound - k
  {
    hide Plain;
    if Plain(s, k) > s.high {
      n := k;
    } else {
      n := FirstPast(s, k + 1, bound);
    }
  }

  /** One to two hundred thousand terabytes in steps of one per cent: the product wraps before the
      highest value is passed, so there is no end. */
  lemma NoEndDespiteSteps()
    ensures var s := Steps(0x100_0000_0000, 200_000 * 0x100_0000_0000, 1); s.low > 0 && s.perc > 0 && !Ends(s)
  {
    var s := Steps(0x100_0000_0000, 200_000 * 0x100_0000_0000, 1);
    forall k: nat ensures More(s, k) {
      hide Product;
      assert Product(s, k) / 100 <= 184467440737095516;
    }
  }
}

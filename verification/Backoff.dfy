/** Capped exponential backoff with jitter (crates/mqtt/v3/src/backoff.rs).
    Seconds are reals; the generator state is a 64-bit vector. */
module Backoff {
  import opened Bits

  /** A floating-point argument; NaN and the infinities are not finite. */
  datatype Float = Finite(value: real) | NotFinite

  /** The delay sequence; the uniform draw of each delay is an argument. */
  datatype Schedule = Schedule(initial: real, max: real, factor: real, jitter: real, next: real) {

    ghost predicate Valid() {
      && 0.0 <= initial <= next <= max
      && 1.0 <= factor
      && 0.0 <= jitter <= 0.5
    }

    function Reset(): Schedule {
      this.(next := initial)
    }

    function NextDelay(unit: real): (real, Schedule) {
      (if jitter == 0.0 then next else Scaled(next, jitter, unit), this.(next := Grow(next, factor, max)))
    }
  }

  function RealMin(a: real, b: real): real {
    if a <= b then a else b
  }

  function Grow(base: real, factor: real, max: real): real {
    RealMin(base * factor, max)
  }

  /** `base` times a factor uniform in 1 - jitter to 1 + jitter. */
  function Scaled(base: real, jitter: real, unit: real): real {
    base * (1.0 + jitter * (2.0 * unit - 1.0))
  }

  function EffectiveFactor(factor: Float): real {
    if factor.Finite? && factor.value >= 1.0 then factor.value else 1.0
  }

  function EffectiveJitter(fraction: Float): real {
    if fraction.NotFinite? then 0.0
    else if fraction.value < 0.0 then 0.0
    else if fraction.value > 0.5 then 0.5
    else fraction.value
  }

  function Create(initial: real, max: real, factor: Float): Schedule {
    Schedule(initial, if max < initial then initial else max, EffectiveFactor(factor), 0.0, initial)
  }

  const DEFAULT: Schedule := Schedule(1.0, 60.0, 2.0, 0.2, 1.0)

  // ---------------------------------------------------------------- generator

  function Seed(hash: bv64): bv64 {
    if hash == 0 then 0x9E37_79B9_7F4A_7C15 else hash
  }

  function XorShift(x: bv64): bv64 {
    var x := x ^ (x >> 12);
    var x := x ^ (x << 25);
    x ^ (x >> 27)
  }

  /** Undoes `XorShift` step by step, last step first. */
  function UnXorShift(y: bv64): bv64 {
    var y := y ^ (y >> 27) ^ (y >> 54);
    var y := y ^ (y << 25) ^ (y << 50);
    y ^ (y >> 12) ^ (y >> 24) ^ (y >> 36) ^ (y >> 48) ^ (y >> 60)
  }

  /** Bits of the draw that survive the conversion to a double. */
  const MANTISSA_BITS: nat := 53

  function Unit(x: bv64): real {
    Fraction(x * 0x2545_F491_4F6C_DD1D, MANTISSA_BITS)
  }

  /** The generator step is a permutation of the 64-bit states that fixes zero. */
  lemma XorShiftInvertible(x: bv64)
    ensures UnXorShift(XorShift(x)) == x
    ensures XorShift(UnXorShift(x)) == x
    ensures XorShift(x) == 0 <==> x == 0
  {
  }

  /** The draw is the scrambled state without its lowest eleven bits, over 2^53. */
  lemma UnitIsQuotient(x: bv64)
    ensures Unit(x) == (((x * 0x2545_F491_4F6C_DD1D) as nat) / 2048) as real / 9_007_199_254_740_992.0
  {
    var v := x * 0x2545_F491_4F6C_DD1D;
    hide Fraction, TwoTo;
    FractionIsLeading(v, 53);
    Powers();
  }

  /** Two states, the second one the seed that replaces zero, and their draws. */
  lemma GeneratorExamples()
    ensures XorShift(1) == 0x200_0001
    ensures XorShift(Seed(0)) == 0x3F7_21DF_FE39_B342
    ensures Unit(0x200_0001) == 2_529_537_253_518_747.0 / 9_007_199_254_740_992.0
    ensures Unit(0x3F7_21DF_FE39_B342) == 475_497_915_171_881.0 / 9_007_199_254_740_992.0
  {
    UnitIsQuotient(0x200_0001);
    UnitIsQuotient(0x3F7_21DF_FE39_B342);
  }

  function Iterate(x: bv64, n: nat): bv64 {
    if n == 0 then x else XorShift(Iterate(x, n - 1))
  }

  /** A non-zero state never dies out, and different seeds give different states
      after any number of draws. */
  lemma {:induction false} GeneratorNeverDegenerates(x: bv64, y: bv64, n: nat)
    requires x != 0
    ensures Iterate(x, n) != 0
    ensures x != y ==> Iterate(x, n) != Iterate(y, n)
  {
    if n > 0 {
      GeneratorNeverDegenerates(x, y, n - 1);
      XorShiftInvertible(Iterate(x, n - 1));
      XorShiftInvertible(Iterate(y, n - 1));
    }
  }

  // ---------------------------------------------------------------- delays

  lemma ScaleUp(a: real, x: real, y: real)
    requires 0.0 <= a && x <= y
    ensures a * x <= a * y
    ensures 0.0 < a && x < y ==> a * x < a * y
  {
  }

  /** Out-of-range arguments are repaired: any factor, maximum and fraction give
      a well-formed schedule that starts at the initial delay. */
  lemma CreateValid(initial: real, max: real, factor: Float, fraction: Float)
    requires 0.0 <= initial
    ensures var s := Create(initial, max, factor).(jitter := EffectiveJitter(fraction));
            && s.Valid() && s.next == s.initial == initial
            && s.max == (if initial <= max then max else initial)
            && (factor.Finite? && 1.0 <= factor.value ==> s.factor == factor.value)
            && (factor.NotFinite? || factor.value < 1.0 ==> s.factor == 1.0)
            && (fraction.Finite? && 0.0 <= fraction.value <= 0.5 ==> s.jitter == fraction.value)
            && (fraction.NotFinite? || fraction.value < 0.0 ==> s.jitter == 0.0)
            && (fraction.Finite? && fraction.value > 0.5 ==> s.jitter == 0.5)
  {
  }

  lemma DefaultSchedule()
    ensures DEFAULT == Create(1.0, 60.0, Finite(2.0)).(jitter := EffectiveJitter(Finite(0.2)))
    ensures DEFAULT.Valid() && DEFAULT.next == Base(1.0, 60.0, 2.0, 0)
  {
    BaseZero(1.0, 60.0, 2.0);
  }

  /** Every draw keeps the schedule well-formed, and the delay is the current
      base within the jitter band; the band is applied after the cap. */
  lemma NextDelayBounds(s: Schedule, unit: real)
    requires s.Valid() && 0.0 <= unit < 1.0
    ensures var (d, s') := s.NextDelay(unit);
            && s'.Valid() && s' == s.(next := Grow(s.next, s.factor, s.max))
            && s.next * (1.0 - s.jitter) <= d <= s.next * (1.0 + s.jitter)
            && (0.0 < s.jitter && 0.0 < s.next ==> d < s.next * (1.0 + s.jitter))
  {
    CapStep(s.next, s.factor, s.max);
    JitterBand(s.next, s.jitter, unit);
  }

  lemma JitterBand(base: real, jitter: real, unit: real)
    requires 0.0 <= base && 0.0 <= jitter && 0.0 <= unit < 1.0
    ensures base * (1.0 - jitter) <= Scaled(base, jitter, unit) <= base * (1.0 + jitter)
    ensures 0.0 < jitter && 0.0 < base ==> Scaled(base, jitter, unit) < base * (1.0 + jitter)
    ensures base * (1.0 - jitter) <= base <= base * (1.0 + jitter)
  {
    var scale := 1.0 + jitter * (2.0 * unit - 1.0);
    ScaleUp(jitter, -1.0, 2.0 * unit - 1.0);
    ScaleUp(jitter, 2.0 * unit - 1.0, 1.0);
    ScaleUp(base, 1.0 - jitter, scale);
    ScaleUp(base, scale, 1.0 + jitter);
    ScaleUp(base, 1.0 - jitter, 1.0);
    ScaleUp(base, 1.0, 1.0 + jitter);
  }

  /** The delay is an affine function of the draw. */
  lemma ScaledIsAffine(base: real, jitter: real, unit: real)
    ensures Scaled(base, jitter, unit) == base * (1.0 - jitter) + unit * (2.0 * base * jitter)
  {
    assert jitter * (2.0 * unit - 1.0) == 2.0 * unit * jitter - jitter;
    assert base * (1.0 + (2.0 * unit * jitter - jitter)) == base * (1.0 - jitter) + base * (2.0 * unit * jitter);
    Regroup(base, jitter, unit);
  }

  lemma Regroup(base: real, jitter: real, unit: real)
    ensures base * (2.0 * unit * jitter) == unit * (2.0 * base * jitter)
  {
  }

  lemma Positive(a: real, b: real)
    requires 0.0 < a && 0.0 < b
    ensures 0.0 < 2.0 * a * b
  {
  }

  lemma WidthOfBand(base: real, jitter: real)
    ensures base * (1.0 + jitter) == base * (1.0 - jitter) + 2.0 * base * jitter
  {
  }

  lemma Divides(a: real, b: real)
    requires b != 0.0
    ensures b * (a / b) == a && a / b * b == a
  {
  }

  lemma BelowOne(u: real, width: real)
    requires 0.0 <= width * u < width
    ensures 0.0 <= u < 1.0
  {
  }

  lemma Steeper(lo: real, w: real, u: real, v: real)
    requires 0.0 < w && u < v
    ensures lo + u * w < lo + v * w
  {
  }

  lemma Midpoint(lo: real, u: real, v: real, w: real)
    ensures lo + (u + v) / 2.0 * w == ((lo + u * w) + (lo + v * w)) / 2.0
  {
  }

  /** With jitter a larger draw gives a longer delay, and halfway between two draws
      lies the delay halfway between theirs: a uniform draw gives a uniform delay. */
  lemma DelayFollowsDraw(s: Schedule, u: real, v: real)
    requires s.Valid() && 0.0 < s.jitter && 0.0 < s.next
    ensures u < v ==> s.NextDelay(u).0 < s.NextDelay(v).0
    ensures s.NextDelay((u + v) / 2.0).0 == (s.NextDelay(u).0 + s.NextDelay(v).0) / 2.0
    ensures s.NextDelay(0.0).0 == s.next * (1.0 - s.jitter)
    ensures s.NextDelay(1.0).0 == s.next * (1.0 + s.jitter)
  {
    var width := 2.0 * s.next * s.jitter;
    ScaledIsAffine(s.next, s.jitter, u);
    ScaledIsAffine(s.next, s.jitter, v);
    ScaledIsAffine(s.next, s.jitter, (u + v) / 2.0);
    ScaledIsAffine(s.next, s.jitter, 0.0);
    ScaledIsAffine(s.next, s.jitter, 1.0);
    Positive(s.next, s.jitter);
    WidthOfBand(s.next, s.jitter);
    Midpoint(s.next * (1.0 - s.jitter), u, v, width);
    hide Scaled;
    if u < v {
      Steeper(s.next * (1.0 - s.jitter), width, u, v);
    }
  }

  /** And every delay of the band comes from exactly one draw. Without jitter the
      delay is the base. */
  lemma EveryDelayHasItsDraw(s: Schedule, delay: real)
    requires s.Valid()
    ensures s.jitter == 0.0 ==> forall u :: s.NextDelay(u).0 == s.next
    ensures 0.0 < s.jitter && 0.0 < s.next && s.next * (1.0 - s.jitter) <= delay < s.next * (1.0 + s.jitter) ==>
              exists u :: 0.0 <= u < 1.0 && s.NextDelay(u).0 == delay
                          && forall v :: s.NextDelay(v).0 == delay ==> v == u
  {
    if 0.0 < s.jitter && 0.0 < s.next && s.next * (1.0 - s.jitter) <= delay < s.next * (1.0 + s.jitter) {
      var u := DrawOf(s, delay);
      forall v | s.NextDelay(v).0 == delay
        ensures v == u
      {
        DelayFollowsDraw(s, u, v);
        DelayFollowsDraw(s, v, u);
      }
    }
  }

  lemma DrawOf(s: Schedule, delay: real) returns (u: real)
    requires s.Valid() && 0.0 < s.jitter && 0.0 < s.next
    requires s.next * (1.0 - s.jitter) <= delay < s.next * (1.0 + s.jitter)
    ensures 0.0 <= u < 1.0 && s.NextDelay(u).0 == delay
  {
    var lo := s.next * (1.0 - s.jitter);
    var width := 2.0 * s.next * s.jitter;
    Positive(s.next, s.jitter);
    WidthOfBand(s.next, s.jitter);
    u := (delay - lo) / width;
    Divides(delay - lo, width);
    BelowOne(u, width);
    ScaledIsAffine(s.next, s.jitter, u);
  }

  /** Capping before and after a step equals capping after it. */
  lemma CapStep(a: real, factor: real, max: real)
    requires 0.0 <= a && 0.0 <= max && 1.0 <= factor
    ensures Grow(RealMin(a, max), factor, max) == Grow(a, factor, max)
    ensures RealMin(a, max) <= Grow(a, factor, max)
  {
    ScaleUp(a, 1.0, factor);
    ScaleUp(max, 1.0, factor);
  }

  // ---------------------------------------------------------------- closed form

  function Pow(f: real, k: nat): real {
    if k == 0 then 1.0 else Pow(f, k - 1) * f
  }

  /** The k-th term of the uncapped geometric sequence, capped once at the end. */
  function Base(initial: real, max: real, factor: real, k: nat): real {
    RealMin(Geometric(initial, factor, k), max)
  }

  function Geometric(initial: real, factor: real, k: nat): real {
    initial * Pow(factor, k)
  }

  lemma BaseZero(initial: real, max: real, factor: real)
    requires initial <= max
    ensures Base(initial, max, factor, 0) == initial
  {
  }

  lemma Associate(a: real, b: real, c: real)
    ensures a * (b * c) == a * b * c
  {
  }

  lemma GeometricStep(initial: real, factor: real, k: nat)
    requires 0.0 <= initial && 1.0 <= factor
    ensures Geometric(initial, factor, k + 1) == Geometric(initial, factor, k) * factor
    ensures initial <= Geometric(initial, factor, k)
  {
    PowAtLeastOne(factor, k);
    ScaleUp(initial, 1.0, Pow(factor, k));
    Associate(initial, Pow(factor, k), factor);
  }

  /** Capping at every step equals capping the closed form. */
  lemma IteratedCap(initial: real, max: real, factor: real, k: nat)
    requires 0.0 <= initial <= max && 1.0 <= factor
    ensures Grow(Base(initial, max, factor, k), factor, max) == Base(initial, max, factor, k + 1)
    ensures initial <= Base(initial, max, factor, k) <= max
  {
    hide Geometric;
    GeometricStep(initial, factor, k);
    CapStep(Geometric(initial, factor, k), factor, max);
  }

  lemma {:induction false} PowAtLeastOne(f: real, k: nat)
    requires 1.0 <= f
    ensures 1.0 <= Pow(f, k)
  {
    if k > 0 {
      PowAtLeastOne(f, k - 1);
      ScaleUp(Pow(f, k - 1), 1.0, f);
    }
  }

  datatype Call = Next(unit: real) | ResetCall

  /** Any mix of calls, oldest first. */
  function After(s: Schedule, calls: seq<Call>): Schedule {
    if calls == [] then s
    else
      var t := After(s, calls[..|calls| - 1]);
      match calls[|calls| - 1]
      case Next(unit) => t.NextDelay(unit).1
      case ResetCall => t.Reset()
  }

  /** Draws since the last reset. */
  function Draws(calls: seq<Call>): nat {
    if calls == [] || calls[|calls| - 1].ResetCall? then 0 else 1 + Draws(calls[..|calls| - 1])
  }

  /** After any mix of calls the base depends only on the number of draws since
      the last reset: the k-th draw waits on min(initial * factor^(k-1), max). */
  lemma {:induction false} AfterAnyCalls(s: Schedule, calls: seq<Call>)
    requires s.Valid() && s.next == s.initial
    requires forall c | c in calls && c.Next? :: 0.0 <= c.unit < 1.0
    ensures After(s, calls) == s.(next := Base(s.initial, s.max, s.factor, Draws(calls)))
    ensures After(s, calls).Valid()
  {
    BaseZero(s.initial, s.max, s.factor);
    if calls != [] {
      var before := calls[..|calls| - 1];
      var last := calls[|calls| - 1];
      AfterAnyCalls(s, before);
      IteratedCap(s.initial, s.max, s.factor, Draws(before));
      if last.Next? {
        assert last in calls;
        NextDelayBounds(After(s, before), last.unit);
      }
    }
  }

  /** With the defaults the base stays in 1 to 60 seconds and reaches the cap
      exactly after six draws in a row. */
  lemma DefaultBase(k: nat)
    ensures 1.0 <= Base(1.0, 60.0, 2.0, k) <= 60.0
    ensures Base(1.0, 60.0, 2.0, k) == 60.0 <==> k >= 6
  {
    IteratedCap(1.0, 60.0, 2.0, k);
    PowersOfTwo(k);
  }

  lemma DefaultBand(base: real, delay: real)
    requires 1.0 <= base <= 60.0
    requires base * (1.0 - 0.2) <= delay < base * (1.0 + 0.2)
    ensures 0.8 <= delay < 72.0
  {
  }

  lemma {:induction false} PowersOfTwo(k: nat)
    ensures k >= 6 ==> Pow(2.0, k) >= 64.0
    ensures k < 6 ==> Pow(2.0, k) <= 32.0
  {
    if k > 6 {
      PowersOfTwo(k - 1);
    } else {
      assert Pow(2.0, 1) == 2.0;
      assert Pow(2.0, 2) == 4.0;
      assert Pow(2.0, 3) == 8.0;
      assert Pow(2.0, 4) == 16.0;
      assert Pow(2.0, 5) == 32.0;
      assert Pow(2.0, 6) == 64.0;
    }
  }

  // ---------------------------------------------------------------- the object

  /** The mutable backoff held by the connection driver. */
  class Timer {
    const initial: real
    const max: real
    const factor: real
    var jitter: real
    var next: real
    var rng: bv64

    ghost function View(): Schedule
      reads this
    {
      Schedule(initial, max, factor, jitter, next)
    }

    /** The draw that the next call to `RandomUnit` returns. */
    ghost function Draw(): (unit: real)
      reads this
      ensures 0.0 <= unit < 1.0
    {
      Unit(XorShift(rng))
    }

    constructor (initial: real, max: real, factor: Float, hash: bv64)
      ensures View() == Create(initial, max, factor)
      ensures rng == Seed(hash) && rng != 0
    {
      this.initial := initial;
      this.max := if max < initial then initial else max;
      this.factor := EffectiveFactor(factor);
      this.jitter := 0.0;
      this.next := initial;
      this.rng := Seed(hash);
    }

    method WithJitter(fraction: Float)
      modifies this`jitter
      ensures View() == old(View()).(jitter := EffectiveJitter(fraction))
    {
      jitter := EffectiveJitter(fraction);
    }

    method Reset()
      modifies this`next
      ensures View() == old(View()).Reset()
    {
      next := initial;
    }

    method NextDelay() returns (delay: real)
      modifies this`next, this`rng
      ensures (delay, View()) == old(View()).NextDelay(old(Draw()))
      ensures rng == if jitter == 0.0 then old(rng) else XorShift(old(rng))
    {
      hide Grow, Scaled, Unit, XorShift;
      var base := next;
      next := Grow(base, factor, max);
      if jitter == 0.0 {
        return base;
      }
      var unit := RandomUnit();
      delay := Scaled(base, jitter, unit);
    }

    method RandomUnit() returns (unit: real)
      modifies this`rng
      ensures unit == old(Draw())
      ensures rng == XorShift(old(rng))
    {
      var x := XorShift(rng);
      rng := x;
      unit := Unit(x);
    }
  }
}

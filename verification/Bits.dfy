/** Numbers behind 64-bit vectors: the leading bits as a binary fraction and as
    a quotient. */
module Bits {

  /** The leading n bits of v read as a binary fraction: (v >> (64 - n)) / 2^n. */
  function Fraction(v: bv64, n: nat): (r: real)
    ensures 0.0 <= r < 1.0
    decreases n
  {
    if n == 0 then 0.0
    else ((if v & 0x8000_0000_0000_0000 != 0 then 1.0 else 0.0) + Fraction(v << 1, n - 1)) / 2.0
  }

  function TwoTo(n: nat): (r: nat)
    ensures r > 0
  {
    if n == 0 then 1 else 2 * TwoTo(n - 1)
  }

  lemma TopBitIsLarge(v: bv64)
    ensures v & 0x8000_0000_0000_0000 != 0 <==> v >= 0x8000_0000_0000_0000
  {
  }

  lemma LargeAsNumber(v: bv64)
    requires v >= 0x8000_0000_0000_0000
    ensures v as nat >= 0x8000_0000_0000_0000
  {
  }

  lemma WordAsNumber(v: bv64)
    ensures v as nat < 0x1_0000_0000_0000_0000
  {
  }

  lemma ShiftSmall(v: bv64)
    requires v < 0x8000_0000_0000_0000
    ensures (v << 1) as nat == 2 * (v as nat)
  {
  }

  lemma ShiftLarge(v: bv64)
    requires v >= 0x8000_0000_0000_0000
    ensures (v << 1) as nat == 2 * (v as nat) - 0x1_0000_0000_0000_0000
  {
  }

  /** A shift to the left doubles the number and drops its top bit. */
  lemma ShiftOut(v: bv64)
    ensures v >= 0x8000_0000_0000_0000 <==> v as nat >= 0x8000_0000_0000_0000
    ensures (v << 1) as nat ==
            2 * (v as nat) - if v as nat >= 0x8000_0000_0000_0000 then 0x1_0000_0000_0000_0000 else 0
  {
    if v >= 0x8000_0000_0000_0000 {
      LargeAsNumber(v);
      ShiftLarge(v);
    } else {
      ShiftSmall(v);
      WordAsNumber(v << 1);
    }
  }

  lemma Doubled(v: nat, d: nat)
    requires d > 0
    ensures 2 * v / (2 * d) == v / d
  {
    var q := v / d;
    assert d * q <= v < d * q + d;
    QuotientIs(2 * v, 2 * d, q);
  }

  lemma QuotientIs(n: nat, d: nat, q: nat)
    requires 0 < d && d * q <= n < d * q + d
    ensures n / d == q
  {
    var r := n / d;
    assert d * r <= n < d * r + d;
    Ordered(d, r + 1, q);
    Ordered(d, q + 1, r);
  }

  lemma Ordered(d: nat, a: nat, b: nat)
    ensures a <= b ==> d * a <= d * b
  {
  }

  lemma DropMultiple(v: nat, d: nat, k: nat)
    requires d > 0 && d * k <= v
    ensures (v - d * k) / d == v / d - k
  {
    var q := v / d;
    assert d * q <= v < d * q + d;
    assert d * (q - k) == d * q - d * k;
    Ordered(d, q + 1, k);
    QuotientIs(v - d * k, d, q - k);
  }

  lemma {:induction false} TwoToAdds(m: nat, n: nat)
    ensures TwoTo(m + n) == TwoTo(m) * TwoTo(n)
  {
    if m > 0 {
      TwoToAdds(m - 1, n);
    }
  }

  function Quotient(v: nat, d: nat): nat
    requires d > 0
  {
    v / d
  }

  /** The leading n bits of v as a number: what is left of v after the other
      64 - n bits are shifted out on the right. */
  function Leading(v: nat, n: nat): nat
    requires n <= 64
  {
    Quotient(v, TwoTo(64 - n))
  }

  lemma LeadingStep(v: nat, n: nat, top: bool)
    requires 0 < n <= 64 && (top ==> v >= TwoTo(63))
    ensures var w := 2 * v - if top then TwoTo(64) else 0;
            w >= 0 && Leading(w, n - 1) == Leading(v, n) - if top then TwoTo(n - 1) else 0
  {
    var d := TwoTo(64 - n);
    assert TwoTo(65 - n) == 2 * d;
    Doubled(v, d);
    if top {
      assert TwoTo(64) == 2 * TwoTo(63);
      TwoToAdds(65 - n, n - 1);
      DropMultiple(2 * v, 2 * d, TwoTo(n - 1));
    }
  }

  function Number(v: bv64): nat {
    v as nat
  }

  function Shifted(v: bv64): bv64 {
    v << 1
  }

  predicate TopSet(v: bv64) {
    v >= 0x8000_0000_0000_0000
  }

  lemma FractionStep(v: bv64, n: nat)
    requires n > 0
    ensures Fraction(v, n) == ((if TopSet(v) then 1.0 else 0.0) + Fraction(Shifted(v), n - 1)) / 2.0
  {
    TopBitIsLarge(v);
  }

  lemma NothingLeads(v: bv64)
    ensures Leading(Number(v), 0) == 0
  {
    Powers();
    WordAsNumber(v);
    QuotientIs(Number(v), TwoTo(64), 0);
  }

  lemma TwoToStep(n: nat)
    requires n > 0
    ensures TwoTo(n) == 2 * TwoTo(n - 1)
  {
  }

  function Scale(f: real, t: nat): real {
    f * t as real
  }

  /** One bit more on the left. */
  lemma OneBitMore(f: real, g: real, top: bool, t: nat, lead: nat, rest: nat)
    requires f == ((if top then 1.0 else 0.0) + g) / 2.0
    requires Scale(g, t) == rest as real && rest == lead - if top then t else 0
    ensures Scale(f, 2 * t) == lead as real
  {
    var b := if top then 1.0 else 0.0;
    assert (2 * t) as real == 2.0 * t as real;
    Halves(b, g, t as real);
  }

  lemma Halves(b: real, f: real, t: real)
    ensures (b + f) / 2.0 * (2.0 * t) == b * t + f * t
  {
  }

  lemma NumberOfShift(v: bv64)
    ensures TopSet(v) <==> Number(v) >= 0x8000_0000_0000_0000
    ensures Number(Shifted(v)) == 2 * Number(v) - if TopSet(v) then 0x1_0000_0000_0000_0000 else 0
  {
    ShiftOut(v);
  }

  lemma LeadingOfShift(v: bv64, n: nat)
    requires 0 < n <= 64
    ensures Leading(Number(Shifted(v)), n - 1) == Leading(Number(v), n) - if TopSet(v) then TwoTo(n - 1) else 0
  {
    hide Leading, Number, Shifted, TopSet, TwoTo;
    NumberOfShift(v);
    Powers();
    LeadingStep(Number(v), n, TopSet(v));
  }

  lemma NothingScales(v: bv64)
    ensures Scale(Fraction(v, 0), TwoTo(0)) == 0.0
  {
  }

  /** The first n bits of the word, read as a fraction and as a number. */
  lemma {:induction false} FractionIsLeading(v: bv64, n: nat)
    requires n <= 64
    ensures Scale(Fraction(v, n), TwoTo(n)) == Leading(Number(v), n) as real
    decreases n
  {
    hide *;
    if n > 0 {
      FractionStep(v, n);
      TwoToStep(n);
      LeadingOfShift(v, n);
      FractionIsLeading(Shifted(v), n - 1);
      OneBitMore(Fraction(v, n), Fraction(Shifted(v), n - 1), TopSet(v),
                 TwoTo(n - 1), Leading(Number(v), n), Leading(Number(Shifted(v)), n - 1));
    } else {
      NothingLeads(v);
      NothingScales(v);
    }
  }

  lemma Powers()
    ensures TwoTo(11) == 2048 && TwoTo(53) == 9_007_199_254_740_992
    ensures TwoTo(63) == 0x8000_0000_0000_0000 && TwoTo(64) == 0x1_0000_0000_0000_0000
  {
    assert TwoTo(11) == 2048;
    TwoToAdds(11, 11);
    TwoToAdds(22, 22);
    TwoToAdds(44, 9);
    assert TwoTo(9) == 512;
    TwoToAdds(53, 10);
    assert TwoTo(10) == 1024;
  }
}

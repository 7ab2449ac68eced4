/** The two long loops of the unit on whole integers: shift-and-add multiplication and
    restoring division, each as the states its passes go through. */
module FpfLoops {
  import opened Limbs
  import opened Arithmetic
  import opened FpfSpec

  /** What is left of the dividend, the partial remainder, the quotient so far. */
  datatype Division = Division(l: nat, r: nat, q: nat)

  ghost function DividePass(d: Division, b: nat): Division {
    var bit := if 2 * d.l >= TWO64 then 1 else 0;
    var wide := 2 * d.r + bit;
    if wide >= b then Division(2 * d.l - TWO64 * bit, wide - b, 2 * d.q + 1)
    else Division(2 * d.l - TWO64 * bit, wide, 2 * d.q)
  }

  ghost function DividePasses(n: nat, a: nat, b: nat): Division {
    if n == 0 then Division(a, 0, 0) else DividePass(DividePasses(n - 1, a, b), b)
  }

  /** Every pass keeps the partial remainder below the divisor and the division equation exact. */
  lemma {:induction false} DivisionInvariant(n: nat, a: nat, b: nat)
    requires a < TWO64 && 0 < b
    ensures var d := DividePasses(n, a, b);
            d.l < TWO64 && d.r < b && a * Pow2(n) == (d.q * b + d.r) * TWO64 + d.l
  {
    if n == 0 {
      assert Pow2(0) == 1;
    } else {
      DivisionInvariant(n - 1, a, b);
      ShiftOnce(a, n - 1);
      DivisionStep(a * Pow2(n - 1), DividePasses(n - 1, a, b), b);
    }
  }

  lemma DivisionStep(m: nat, d: Division, b: nat)
    requires m == (d.q * b + d.r) * TWO64 + d.l && d.r < b && d.l < TWO64
    ensures var d' := DividePass(d, b);
            d'.l < TWO64 && d'.r < b && 2 * m == (d'.q * b + d'.r) * TWO64 + d'.l
  {
    var q := d.q;
    assert (2 * q + 1) * b == 2 * (q * b) + b && (2 * q) * b == 2 * (q * b);
  }

  /** Fewer than 64 passes cannot fill the quotient; from 64 on it is a * 2^(n-64) / b exactly. */
  lemma QuotientAfter(n: nat, a: nat, b: nat)
    requires a < TWO64 && 0 < b
    ensures n < 64 ==> DividePasses(n, a, b).q < TWO63
    ensures n >= 64 ==> DividePasses(n, a, b) == Division(0, a * Pow2(n - 64) % b, a * Pow2(n - 64) / b)
  {
    DivisionInvariant(n, a, b);
    var d := DividePasses(n, a, b);
    if n < 64 {
      Pow2Sixty4();
      Pow2Monotone(n, 63);
      QuotientBelow(a, Pow2(n), d.q, b, d.r, d.l);
    } else {
      SplitOffWord(a, n);
      NoSmallMultiple(a * Pow2(n - 64) - (d.q * b + d.r), TWO64);
      DivModUnique(a * Pow2(n - 64), b, d.q, d.r);
    }
  }

  lemma SplitOffWord(a: nat, n: nat)
    requires n >= 64
    ensures a * Pow2(n) == a * Pow2(n - 64) * TWO64
  {
    Pow2Sixty4();
    Pow2Add(n - 64, 64);
    var p := Pow2(n - 64);
    assert a * (p * TWO64) == a * p * TWO64;
  }

  lemma QuotientBelow(a: nat, p: nat, q: nat, b: nat, r: nat, l: nat)
    requires a * p == (q * b + r) * TWO64 + l && a < TWO64 && 0 < b && 0 < p <= TWO63
    ensures q < TWO63
  {
    assert a * p < TWO64 * p by { assert (TWO64 - a) * p > 0; }
    assert q * b < p;
    assert q * (b - 1) >= 0;
  }

  /** While the quotient's top bit is clear, the least sufficient scaling lies further
      on; so the loop makes 64 + LeadingZeros(a, 2^63 * b) passes, at most 191. */
  lemma DivisionGoesOn(n: nat, a: nat, b: nat)
    requires 0 < a < TWO64 && 0 < b < TWO64 && DividePasses(n, a, b).q < TWO63
    requires n <= 64 + LeadingZeros(a, TWO63 * b)
    ensures DividePasses(n, a, b).r < b && n < 64 + LeadingZeros(a, TWO63 * b)
  {
    DivisionInvariant(n, a, b);
    QuotientAfter(n, a, b);
    if n >= 64 {
      QuotientAtLeast(a * Pow2(n - 64), b, TWO63);
      LeadingZerosLeast(a, TWO63 * b, n - 64);
    }
  }

  lemma DivisionEnds(n: nat, a: nat, b: nat)
    requires 0 < a < TWO64 && 0 < b < TWO64 && DividePasses(n, a, b).q >= TWO63
    requires n <= 64 + LeadingZeros(a, TWO63 * b)
    ensures n == 64 + LeadingZeros(a, TWO63 * b) && DividePasses(n, a, b).q == Lifted(a, TWO63 * b) / b
  {
    QuotientAfter(n, a, b);
    QuotientAtLeast(a * Pow2(n - 64), b, TWO63);
    LeadingZerosLeast(a, TWO63 * b, n - 64);
    LiftedIsShift(a, TWO63 * b);
  }

  /** The number of passes: never more than 191, and 127 or 128 on normalised operands,
      127 exactly when the dividend is not the smaller. */
  lemma PassCount(a: nat, b: nat)
    requires 0 < a < TWO64 && 0 < b < TWO64
    ensures 64 + LeadingZeros(a, TWO63 * b) <= 191
    ensures a >= TWO63 && b >= TWO63 ==>
              64 + LeadingZeros(a, TWO63 * b) == if a >= b then 127 else 128
  {
    Pow2Sixty4();
    Pow2Add(64, 63);
    assert a * (TWO64 * TWO63) >= TWO63 * b;
    LeadingZerosLeast(a, TWO63 * b, 127);
    LeadingZerosLeast(a, TWO63 * b, 62);
    LeadingZerosLeast(a, TWO63 * b, 63);
    LeadingZerosLeast(a, TWO63 * b, 64);
    assert Pow2(63) == 2 * Pow2(62);
  }

  /** What is left of the multiplier, and the 128-bit product register. */
  datatype ProductRegister = ProductRegister(rest: int, pair: int)

  /** One pass: the multiplier loses its low bit, the multiplicand is added if it was one,
      and the product moves one place right. */
  ghost function MultiplyPass(s: ProductRegister, mx: nat): ProductRegister {
    ProductRegister(s.rest / 2, (s.pair + (if s.rest % 2 == 1 then mx * TWO64 else 0)) / 2)
  }

  ghost function MultiplyPasses(i: nat, mx: nat, my: nat): ProductRegister {
    if i == 0 then ProductRegister(my, 0) else MultiplyPass(MultiplyPasses(i - 1, mx, my), mx)
  }

  /** The multiplier without its low i bits; mx times those bits, 64 - i places up. */
  ghost function Used(i: nat, mx: nat, my: nat): ProductRegister
    requires i <= 64
  {
    ProductRegister(my / Pow2(i), mx * (my % Pow2(i)) * Pow2(64 - i))
  }

  /** After i passes the multiplier has lost its low i bits and the register holds mx
      times those bits. */
  lemma {:induction false} MultiplyInvariant(i: nat, mx: nat, my: nat)
    requires i <= 64
    ensures MultiplyPasses(i, mx, my) == Used(i, mx, my)
  {
    if i == 0 {
      assert Pow2(0) == 1 && my % 1 == 0;
    } else {
      MultiplyInvariant(i - 1, mx, my);
      MultiplyStep(i - 1, mx, my);
    }
  }

  lemma MultiplyStep(i: nat, mx: nat, my: nat)
    requires i < 64
    ensures MultiplyPass(Used(i, mx, my), mx) == Used(i + 1, mx, my)
  {
    DivideByDouble(my, Pow2(i));
    Pow2Add(i, 64 - i);
    Pow2Sixty4();
    HalvePair(mx, my % Pow2(i), Pow2(i), Pow2(63 - i), my / Pow2(i) % 2 == 1);
  }

  lemma HalvePair(mx: nat, low: nat, p: nat, q: nat, b: bool)
    requires p * (2 * q) == TWO64
    ensures (mx * low * (2 * q) + (if b then mx * TWO64 else 0)) / 2 == mx * (if b then p + low else low) * q
  {
    assert mx * low * (2 * q) == 2 * (mx * low * q);
    if b {
      assert mx * (p * (2 * q)) == 2 * (mx * p * q);
      assert mx * (p + low) * q == mx * p * q + mx * low * q;
    }
  }

  /** Sixty-four passes leave exactly the product. */
  lemma MultiplyEnds(mx: nat, my: nat)
    requires my < TWO64
    ensures MultiplyPasses(64, mx, my) == ProductRegister(0, mx * my)
  {
    MultiplyInvariant(64, mx, my);
    Pow2Sixty4();
  }

  // ---------- the multiply's normalising loop ----------

  const TOP128: nat := TWO63 * TWO64

  /** The pair after at most n passes: doubled while its top bit is clear. */
  ghost function PairAfter(n: nat, p: nat): nat {
    if n == 0 || p >= TOP128 then p else PairAfter(n - 1, 2 * p)
  }

  lemma {:induction false} LiftedAfter(p: nat)
    requires p > 0
    ensures PairAfter(LeadingZeros(p, TOP128), p) == Lifted(p, TOP128)
    decreases TOP128 - p
  {
    if p < TOP128 { LiftedAfter(2 * p); }
  }

  lemma {:induction false} ZeroStays(n: nat)
    ensures PairAfter(n, 0) == 0
  {
    if n > 0 { ZeroStays(n - 1); }
  }

  /** Some number of passes sets the pair's top bit exactly when both mantissas have a bit to
      bring there. */
  lemma LoopEndsExactlyOnNonzero(mx: nat, my: nat)
    ensures (exists n :: PairAfter(n, mx * my) >= TOP128) <==> mx != 0 && my != 0
  {
    if mx != 0 && my != 0 {
      Ordered(0, mx, my);
      LiftedAfter(mx * my);
      assert PairAfter(LeadingZeros(mx * my, TOP128), mx * my) >= TOP128;
    } else {
      assert mx * my == 0;
      forall n: nat ensures PairAfter(n, mx * my) < TOP128 { ZeroStays(n); }
    }
  }
}

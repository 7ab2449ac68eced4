/** Addition and subtraction of operands with different exponents, measured against
    exact arithmetic; and what happens when the exponents are equal. */
module FpfAddSub {
  import opened Limbs
  import opened Arithmetic
  import opened FpfSpec
  import opened FpfValue

  // ---------- shifts ----------

  /** The sticky shift in closed form: the quotient by 2^n, with bit 0 forced on exactly
      when a nonzero bit was lost. */
  lemma {:induction false} StickyIsFloorPlusLostBit(m: nat, n: nat)
    ensures var q := m / Pow2(n);
            Sticky(m, n) == if m % Pow2(n) != 0 && q % 2 == 0 then q + 1 else q
  {
    if n == 0 {
      assert Pow2(0) == 1;
    } else {
      StickyIsFloorPlusLostBit(m, n - 1);
      DivideByDouble(m, Pow2(n - 1));
    }
  }

  /** The shortcut for 64 places or more agrees with shifting place by place exactly on
      nonzero mantissas: it would set the sticky bit of a zero one. */
  lemma ShortcutAgrees(m: nat, n: nat)
    requires m < TWO64 && n >= 64
    ensures StickyShift(m, n) == 1 && (StickyShift(m, n) == Sticky(m, n) <==> m != 0)
  {
    StickyIsFloorPlusLostBit(m, n);
    Pow2Sixty4();
    Pow2Monotone(64, n);
    DivModUnique(m, Pow2(n), 0, m);
  }

  // ---------- add and subtract ----------

  /** r stands for n / p: either it is n / p, or it is odd and n / p lies strictly within
      one of it.  Either way r and n / p fall on the same side of every even number. */
  ghost predicate Shadows(r: int, n: int, p: nat) {
    n == r * p || (r % 2 == 1 && (r - 1) * p < n < (r + 1) * p)
  }

  lemma ShadowSide(r: int, n: int, p: nat, b: int)
    requires Shadows(r, n, p) && b % 2 == 0 && p > 0
    ensures b <= r <==> b * p <= n
  {
    if b <= r {
      if r % 2 == 1 { Ordered(b, r - 1, p); }
      Ordered(b, r, p);
    } else {
      Ordered(r, b - 1, p);
      Ordered(r + 1, b, p);
    }
  }

  /** A sticky-shifted mantissa stands for the exact quotient, and so does its sum with,
      or difference from, an unshifted even one. */
  lemma StickyShadows(y: nat, d: nat)
    requires 0 < y < TWO64
    ensures Shadows(StickyShift(y, d), y, Pow2(d))
  {
    if d >= 64 { ShortcutAgrees(y, d); }
    StickyIsFloorPlusLostBit(y, d);
    ForcedOddShadows(y, Pow2(d));
  }

  lemma ForcedOddShadows(y: nat, p: nat)
    requires p > 0
    ensures var q := y / p; Shadows(if y % p != 0 && q % 2 == 0 then q + 1 else q, y, p)
  {
    var q := y / p;
    assert y == q * p + y % p;
    assert (q + 1) * p == q * p + p && (q - 1) * p == q * p - p && (q + 2) * p == q * p + 2 * p;
  }

  lemma ShadowsOfSum(x: int, y': int, y: int, p: nat)
    requires Shadows(y', y, p) && x % 2 == 0
    ensures Shadows(x + y', x * p + y, p)
    ensures Shadows(x - y', x * p - y, p)
  {
    assert (x + y') * p == x * p + y' * p && (x + y' - 1) * p == x * p + (y' - 1) * p
        && (x + y' + 1) * p == x * p + (y' + 1) * p;
    assert (x - y') * p == x * p - y' * p && (x - y' - 1) * p == x * p - (y' + 1) * p
        && (x - y' + 1) * p == x * p - (y' - 1) * p;
  }

  lemma ShadowCell(s: int, n: int, p: nat, m: int, w: int)
    requires Shadows(s, n, p) && p > 0 && m % 2 == 0 && w % 2 == 0 && m <= s < m + w
    ensures m * p <= n < (m + w) * p
  {
    ShadowSide(s, n, p, m);
    ShadowSide(s, n, p, m + w);
  }

  /** Cutting the stand-in down to 61 bits cuts the exact value down to the same bits. */
  lemma ShadowChops(s: nat, n: nat, d: nat)
    requires Shadows(s, n, Pow2(d)) && TWO63 <= s < TWO64
    ensures Chops(n, d, Chop(s))
  {
    ShadowCell(s, n, Pow2(d), Chop(s), 8);
  }

  lemma HalvedShadowChops(s: nat, n: nat, d: nat)
    requires Shadows(s, n, Pow2(d)) && TWO64 <= s < 2 * TWO64
    ensures Chops(n, d + 1, Chop(s / 2))
  {
    var m := Chop(s / 2);
    HalvedCell(s);
    ShadowCell(s, n, Pow2(d), 2 * m, 16);
    DoubledGrid(m, d);
    DoubledGrid(m + 8, d);
  }

  lemma HalvedCell(s: nat)
    ensures var m := Chop(s / 2); m % 8 == 0 && 2 * m <= s < 2 * m + 16
  {
  }

  lemma DoubledGrid(m: int, d: nat)
    ensures m * Pow2(d + 1) == (2 * m) * Pow2(d)
  {
  }

  /** Like signs: the exact sum is x * 2^d + y in units of the smaller operand. */
  lemma SumChops(x: nat, y: nat, d: nat, s: nat, n: nat)
    requires TWO63 <= x < TWO64 && x % 2 == 0 && 0 < y < TWO64
    requires s == x + StickyShift(y, d) && n == x * Pow2(d) + y
    ensures if s >= TWO64 then Chops(n, d + 1, Chop(s / 2)) else Chops(n, d, Chop(s))
  {
    StickyShadows(y, d);
    ShadowsOfSum(x, StickyShift(y, d), y, Pow2(d));
    StickyBelow(y, d);
    if s >= TWO64 { HalvedShadowChops(s, n, d); } else { ShadowChops(s, n, d); }
  }

  lemma StickyBelow(y: nat, d: nat)
    requires 0 < y < TWO64
    ensures StickyShift(y, d) < TWO64
  {
    if d < 64 && d > 0 { StickyHalves(y, d); }
  }

  lemma {:induction false} StickyHalves(y: nat, d: nat)
    requires d > 0
    ensures Sticky(y, d) <= y / 2 + 1
    ensures d == 1 ==> Sticky(8 * y, d) == 4 * y
    ensures d > 1 ==> Sticky(8 * y, d) <= 2 * y + 1
  {
    if d > 1 { StickyHalves(y, d - 1); }
    assert Sticky(y, 0) == y && Sticky(8 * y, 0) == 8 * y;
    assert Sticky(y, 1) == StickyOnce(y) && Sticky(8 * y, 1) == StickyOnce(8 * y) == 4 * y;
    assert StickyOnce(4 * y) == 2 * y;
  }

  /** Unlike signs: the difference stays positive. */
  lemma DifferenceBounds(x: nat, y: nat, d: nat)
    requires TWO63 <= x < TWO64 && 0 < y < TWO64 && y % 8 == 0 && d > 0
    ensures var r := x - StickyShift(y, d); 4 <= r <= x && (d > 1 ==> r >= TWO63 / 2)
    ensures d == 1 ==> 2 * StickyShift(y, d) == y
  {
    var w := y / 8;
    assert y == 8 * w;
    StickyHalves(w, d);
  }

  /** The exact difference is x * 2^d - y in units of the smaller operand.  When the
      shift lost bits one place of normalising is enough, and otherwise nothing is lost. */
  lemma DifferenceChops(x: nat, y: nat, d: nat, r: nat, n: nat, m: nat)
    requires TWO63 <= x < TWO64 && x % 2 == 0 && 0 < y < TWO64 && y % 8 == 0 && d > 0
    requires r == x - StickyShift(y, d) && n == x * Pow2(d) - y && r > 0
    requires m % 8 == 0 && m <= Lifted(r, TWO63) < m + 8
    ensures LeadingZeros(r, TWO63) <= 61
    ensures Chops(n * Pow2(LeadingZeros(r, TWO63)), d, m)
  {
    DifferenceBounds(x, y, d);
    AtMost61(r);
    if d == 1 {
      HalvedExactly(x, y, StickyShift(y, d));
      NothingLost(r, n, d, m);
    } else {
      StickyShadows(y, d);
      ShadowsOfSum(x, StickyShift(y, d), y, Pow2(d));
      LittleLost(r, n, d, m);
    }
  }

  lemma NothingLost(r: nat, n: nat, d: nat, m: nat)
    requires 0 < r < TWO64 && n == r * Pow2(d) && m % 8 == 0 && m <= Lifted(r, TWO63) < m + 8
    ensures Chops(n * Pow2(LeadingZeros(r, TWO63)), d, m)
  {
    LiftedIsShift(r, TWO63);
    TopMultiple(Lifted(r, TWO63), m);
    ExactCell(r, n, Pow2(d), Pow2(LeadingZeros(r, TWO63)), Lifted(r, TWO63), m);
  }

  lemma LittleLost(r: nat, n: nat, d: nat, m: nat)
    requires TWO63 / 2 <= r < TWO64 && Shadows(r, n, Pow2(d)) && m % 8 == 0 && m <= Lifted(r, TWO63) < m + 8
    ensures Chops(n * Pow2(LeadingZeros(r, TWO63)), d, m)
  {
    OncePerhaps(r);
    TopMultiple(Lifted(r, TWO63), m);
    if r >= TWO63 { ShadowCell(r, n, Pow2(d), m, 8); } else { DoubledCell(r, n, Pow2(d), m); }
  }

  lemma TopMultiple(h: nat, m: nat)
    requires TWO63 <= h < TWO64 && m % 8 == 0 && m <= h < m + 8
    ensures TWO63 <= m && m % 2 == 0
  {
  }

  lemma AtMost61(r: nat)
    requires r >= 4
    ensures LeadingZeros(r, TWO63) <= 61
  {
    Pow2Sixty4();
    assert Pow2(63) == 2 * Pow2(62) == 4 * Pow2(61);
    Ordered(4, r, Pow2(61));
    LeadingZerosLeast(r, TWO63, 61);
  }

  lemma OncePerhaps(r: nat)
    requires TWO63 / 2 <= r < TWO64
    ensures LeadingZeros(r, TWO63) == (if r >= TWO63 then 0 else 1)
    ensures Lifted(r, TWO63) == (if r >= TWO63 then r else 2 * r)
    ensures Pow2(0) == 1 && Pow2(1) == 2
  {
  }

  lemma HalvedExactly(x: nat, y: nat, half: nat)
    requires 2 * half == y
    ensures x * Pow2(1) - y == (x - half) * Pow2(1)
  {
    assert Pow2(1) == 2;
  }

  lemma ExactCell(r: nat, n: nat, p: nat, q: nat, h: nat, m: nat)
    requires h == r * q && n == r * p && m <= h < m + 8 && p > 0
    ensures m * p <= n * q < (m + 8) * p
  {
    assert (r * p) * q == (r * q) * p;
    Ordered(m, h, p);
    Ordered(h, m + 8, p);
  }

  lemma DoubledCell(r: nat, n: nat, p: nat, m: nat)
    requires Shadows(r, n, p) && p > 0 && m % 8 == 0 && m <= 2 * r < m + 8
    ensures m * p <= n * 2 < (m + 8) * p
  {
    var b := m / 2;
    ShadowCell(r, n, p, b, 4);
    Twice(b, p);
    Twice(b + 4, p);
  }

  lemma Twice(b: int, p: int)
    ensures (2 * b) * p == 2 * (b * p)
  {
  }

  /** The operands in order of exponent, the second one's sign already turned for a subtraction. */
  ghost function Turned(subtract: bool, y: Num): Num { y.(negative := y.negative != subtract) }

  ghost function Larger(subtract: bool, x: Num, y: Num): Num { if x.exp > y.exp then x else Turned(subtract, y) }

  ghost function Smaller(subtract: bool, x: Num, y: Num): Num { if x.exp > y.exp then Turned(subtract, y) else x }

  ghost function ExactSum(subtract: bool, x: Num, y: Num): real { RealValue(x) + RealValue(Turned(subtract, y)) }

  lemma TurnedValue(subtract: bool, y: Num)
    ensures RealValue(Turned(subtract, y)) == if subtract then -RealValue(y) else RealValue(y)
  {
  }

  /** The larger operand's mantissa combined with the smaller one's sticky stand-in. */
  ghost function Combination(a: Num, b: Num): int
    requires a.exp > b.exp
  {
    var shifted := StickyShift(b.m, a.exp - b.exp);
    if a.negative == b.negative then a.m + shifted else a.m - shifted
  }

  /** Renormalising a combined mantissa: one place right when it carried and otherwise
      left until its top bit is set; how far that moves the exponent, and what is left. */
  ghost function Place(s: nat): int
    requires s > 0
  {
    if s >= TWO64 then 1 else 0 - LeadingZeros(s, TWO63)
  }

  ghost function Field(s: nat): nat
    requires s > 0
  {
    if s >= TWO64 then s / 2 else Lifted(s, TWO63)
  }

  /** The exponent the exact sum has. */
  ghost function SumExponent(a: Num, b: Num): int
    requires a.exp > b.exp && Combination(a, b) > 0
  {
    a.exp + Place(Combination(a, b))
  }

  ghost predicate Alignable(a: Num, b: Num) { Canonical(a) && Canonical(b) && a.exp > b.exp }

  lemma CombinationBounds(a: Num, b: Num)
    requires Alignable(a, b)
    ensures 4 <= Combination(a, b) < 2 * TWO64
    ensures a.negative == b.negative ==> Combination(a, b) >= TWO63
    ensures a.exp - 61 <= SumExponent(a, b) <= a.exp + 1
  {
    var d := a.exp - b.exp;
    StickyBelow(b.m, d);
    DifferenceBounds(a.m, b.m, d);
    AtMost61(Combination(a, b));
  }

  lemma AlignedSize(a: Num, b: Num, n: int)
    requires a.exp > b.exp && n == a.m * Pow2(a.exp - b.exp)
    ensures Product(Size(a) + Size(b), (n + b.m) as real, Scale(b.exp - 64))
    ensures Product(Size(a) - Size(b), (n - b.m) as real, Scale(b.exp - 64))
  {
    var d, u := a.exp - b.exp, Scale(b.exp - 64);
    ScaleUp(b.exp - 64, d);
    Regroup(Size(a), a.m, n, Pow2(d), u, Scale(a.exp - 64));
    SumOfProducts(Size(a), Size(b), n, b.m, u);
  }

  lemma SumOfProducts(v: real, w: real, n: int, m: int, u: real)
    requires Product(v, n as real, u) && Product(w, m as real, u)
    ensures Product(v + w, (n + m) as real, u) && Product(v - w, (n - m) as real, u)
  {
  }

  /** Sticky shift, addition or subtraction, carry or renormalisation, chop: the result is
      the exact magnitude truncated to 61 bits. */
  lemma CombinationChops(a: Num, b: Num, v: real, n: int)
    requires Alignable(a, b) && Combination(a, b) > 0
    requires n == ExactUnits(a, b) && Product(v, n as real, Scale(b.exp - 64))
    ensures IsChop(v, SumExponent(a, b), Chop(Field(Combination(a, b))))
  {
    CombinationBounds(a, b);
    if a.negative == b.negative {
      LikeChops(a, b, v, n, Combination(a, b));
    } else {
      UnlikeChops(a, b, v, n, Combination(a, b));
    }
  }

  lemma LikeChops(a: Num, b: Num, v: real, n: int, s: nat)
    requires Alignable(a, b) && a.negative == b.negative && s == Combination(a, b) > 0
    requires n == ExactUnits(a, b) && Product(v, n as real, Scale(b.exp - 64))
    ensures IsChop(v, a.exp + Place(s), Chop(Field(s)))
  {
    LikeSigns(v, n, a.m, b.m, a.exp - b.exp, b.exp - 64, s, a.exp);
  }

  lemma UnlikeChops(a: Num, b: Num, v: real, n: int, s: nat)
    requires Alignable(a, b) && a.negative != b.negative && s == Combination(a, b) > 0
    requires n == ExactUnits(a, b) && Product(v, n as real, Scale(b.exp - 64))
    ensures IsChop(v, a.exp + Place(s), Chop(Field(s)))
  {
    UnlikeSigns(v, n, a.m, b.m, a.exp - b.exp, b.exp - 64, s, a.exp);
  }

  /** The exact magnitude in units of the smaller operand. */
  ghost function ExactUnits(a: Num, b: Num): int
    requires a.exp > b.exp
  {
    var n := a.m * Pow2(a.exp - b.exp);
    if a.negative == b.negative then n + b.m else n - b.m
  }

  lemma LikeSigns(v: real, n: int, x: nat, y: nat, d: nat, c: int, s: int, e: int)
    requires TWO63 <= x < TWO64 && x % 2 == 0 && 0 < y < TWO64
    requires n == x * Pow2(d) + y && Product(v, n as real, Scale(c))
    requires s == x + StickyShift(y, d) && e == c + d + 64
    ensures s >= TWO63 && IsChop(v, e + Place(s), Chop(Field(s)))
  {
    SumChops(x, y, d, s, n);
    if s >= TWO64 { ChopScaled(v, n, c, d + 1, Chop(s / 2)); } else { ChopScaled(v, n, c, d, Chop(s)); }
  }

  lemma UnlikeSigns(v: real, n: int, x: nat, y: nat, d: nat, c: int, s: int, e: int)
    requires TWO63 <= x < TWO64 && x % 2 == 0 && 0 < y < TWO64 && y % 8 == 0 && d > 0
    requires n == x * Pow2(d) - y && Product(v, n as real, Scale(c))
    requires s == x - StickyShift(y, d) && e == c + d + 64
    ensures 0 < s < TWO64 && IsChop(v, e + Place(s), Chop(Field(s)))
  {
    LargerMantissa(x, y, Pow2(d));
    DifferenceBounds(x, y, d);
    DifferenceChops(x, y, d, s, n, Chop(Lifted(s, TWO63)));
    ShiftedChop(v, n, c, LeadingZeros(s, TWO63), d, Chop(Lifted(s, TWO63)));
  }

  lemma ShiftedChop(v: real, n: nat, c: int, k: nat, d: nat, m: nat)
    requires Product(v, n as real, Scale(c)) && Chops(n * Pow2(k), d, m)
    ensures IsChop(v, c + d + 64 - k, m)
  {
    ShiftedUnits(v, n, c, k);
    ChopScaled(v, n * Pow2(k), c - k, d, m);
  }

  lemma LargerMantissa(x: nat, y: nat, p: nat)
    requires x >= TWO63 && y < TWO64 && p >= 2
    ensures x * p > y
  {
    Ordered(2, p, x);
  }

  /** The limb-level steps, read on the ordered operands. */
  lemma AlignedIs(subtract: bool, x: Num, y: Num)
    requires Canonical(x) && Canonical(y) && x.exp != y.exp
    ensures var a, b := Larger(subtract, x, y), Smaller(subtract, x, y);
            && Alignable(a, b) && Combination(a, b) > 0
            && Aligned(subtract, x, y) == Num(Normal, a.negative, Short(SumExponent(a, b)), Field(Combination(a, b)))
  {
    var a, b := Larger(subtract, x, y), Smaller(subtract, x, y);
    CombinationBounds(a, b);
    if a.negative == b.negative { AlignedSum(subtract, x, y); } else { AlignedDifference(subtract, x, y); }
  }

  lemma AlignedSum(subtract: bool, x: Num, y: Num)
    requires Canonical(x) && Canonical(y) && x.exp != y.exp && x.negative == Turned(subtract, y).negative
    requires Combination(Larger(subtract, x, y), Smaller(subtract, x, y)) >= TWO63
    ensures var a, s := Larger(subtract, x, y), Combination(Larger(subtract, x, y), Smaller(subtract, x, y));
            Aligned(subtract, x, y) == Num(Normal, a.negative, Short(a.exp + Place(s)), Field(s))
  {
  }

  lemma AlignedDifference(subtract: bool, x: Num, y: Num)
    requires Canonical(x) && Canonical(y) && x.exp != y.exp && x.negative != Turned(subtract, y).negative
    requires Combination(Larger(subtract, x, y), Smaller(subtract, x, y)) > 0
    ensures var a, r := Larger(subtract, x, y), Combination(Larger(subtract, x, y), Smaller(subtract, x, y));
            Aligned(subtract, x, y) == Num(Normal, a.negative, Short(a.exp - LeadingZeros(r, TWO63)), Lifted(r, TWO63))
  {
    var a := Larger(subtract, x, y);
    DifferenceFields(a, AlignedMantissa(x, y), AlignedMantissa(y, x), y.negative != subtract,
                     Combination(a, Smaller(subtract, x, y)));
  }

  lemma DifferenceFields(a: Num, mx: nat, my: nat, yNegative: bool, r: nat)
    requires a.kind == Normal && r > 0
    requires if a.negative == yNegative then my - mx == r else mx - my == r
    ensures Difference(a.(m := 0), mx, my, yNegative, true)
            == Num(Normal, a.negative, Short(a.exp - LeadingZeros(r, TWO63)), Lifted(r, TWO63))
  {
  }

  /** The exact sum has the sign of the operand with the larger exponent. */
  lemma ExactSumSize(a: Num, b: Num, v: real)
    requires Alignable(a, b) && v == (if a.negative == b.negative then Size(a) + Size(b) else Size(a) - Size(b)) > 0.0
    ensures var t := RealValue(a) + RealValue(b); Abs(t) == v && (t < 0.0 <==> a.negative) && t != 0.0
  {
  }

  /** For canonical operands with different exponents the result is the exact x + y (or
      x - y) truncated toward zero to 61 bits, with its sign, exactly when its exponent
      fits; whatever the destination held before, and although the smaller operand was
      shifted first and the result renormalised by up to 61 places. */
  lemma AddSubTruncates(subtract: bool, x: Num, y: Num, stale: Num, t: real)
    requires Canonical(x) && Canonical(y) && x.exp != y.exp && t == ExactSum(subtract, x, y)
    ensures var a, b := Larger(subtract, x, y), Smaller(subtract, x, y);
            a.exp > b.exp && Combination(a, b) > 0
    ensures var z, e := AddSub(subtract, x, y, stale), SumExponent(Larger(subtract, x, y), Smaller(subtract, x, y));
            && HasExponent(Abs(t), e)
            && (if x.exp > y.exp then x.exp else y.exp) - 61 <= e <= (if x.exp > y.exp then x.exp else y.exp) + 1
            && (IsChop(Abs(t), z.exp, z.m) <==> MIN_EXP <= e <= MAX_EXP)
            && (MIN_EXP <= e <= MAX_EXP ==> Canonical(z) && z.exp == e && (z.negative <==> t < 0.0) && t != 0.0)
  {
    var a, b := Larger(subtract, x, y), Smaller(subtract, x, y);
    AlignedIs(subtract, x, y);
    CombinationBounds(a, b);
    OrderedSum(a, b);
    RoundedTruncates(Aligned(subtract, x, y), SumExponent(a, b), Abs(t));
  }

  lemma OrderedSum(a: Num, b: Num)
    requires Alignable(a, b) && Combination(a, b) > 0
    ensures var t := RealValue(a) + RealValue(b);
            IsChop(Abs(t), SumExponent(a, b), Chop(Field(Combination(a, b)))) && (t < 0.0 <==> a.negative) && t != 0.0
  {
    var v := if a.negative == b.negative then Size(a) + Size(b) else Size(a) - Size(b);
    AlignedSize(a, b, a.m * Pow2(a.exp - b.exp));
    CombinationChops(a, b, v, ExactUnits(a, b));
    ChopPositive(v, SumExponent(a, b), Chop(Field(Combination(a, b))));
    ExactSumSize(a, b, v);
  }

  /** The right answer: a zero for a zero sum, and otherwise the truncated sum with its sign. */
  ghost predicate Delivers(subtract: bool, x: Num, y: Num, stale: Num)
    requires Canonical(x) && Canonical(y)
  {
    var z, t := AddSub(subtract, x, y, stale), ExactSum(subtract, x, y);
    if t == 0.0 then z.kind == Zero
    else z.kind == Normal && IsChop(Abs(t), z.exp, z.m) && (z.negative <==> t < 0.0)
  }

  /** With equal exponents the C code never computes a mantissa: on in-range operands the
      answer is right whatever the destination held before exactly when the exponents differ. */
  lemma RightExactlyWhenExponentsDiffer(subtract: bool, x: Num, y: Num)
    requires Canonical(x) && Canonical(y)
    requires MIN_EXP + 61 <= x.exp < MAX_EXP && MIN_EXP + 61 <= y.exp < MAX_EXP
    ensures (forall stale: Num :: Delivers(subtract, x, y, stale)) <==> x.exp != y.exp
  {
    if x.exp == y.exp {
      assert !Delivers(subtract, x, y, SetZero(false));
    } else {
      forall stale: Num ensures Delivers(subtract, x, y, stale) {
        AddSubTruncates(subtract, x, y, stale, ExactSum(subtract, x, y));
      }
    }
  }

  /** What equal exponents give instead: the destination's old mantissa, chopped, with x's
      sign and exponent.  Into a destination that was a zero this is a number typed normal
      whose mantissa is all zero. */
  lemma EqualExponentsKeepMantissa(subtract: bool, x: Num, y: Num, stale: Num)
    requires Canonical(x) && Canonical(y) && x.exp == y.exp
    ensures x.exp >= MIN_EXP ==> AddSub(subtract, x, y, stale) == Num(Normal, x.negative, x.exp, Chop(stale.m))
    ensures var z := AddSub(subtract, x, y, SetZero(false)); z.kind == Normal && z.m == 0
  {
  }
}

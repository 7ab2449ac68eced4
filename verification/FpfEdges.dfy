/** What the operations give off the canonical path: unnormalised operands, zero mantissas,
    exponents at the bottom of the range. */
module FpfEdges {
  import opened Limbs
  import opened Arithmetic
  import opened FpfSpec
  import opened FpfValue
  import opened FpfMulDiv
  import opened FpfAddSub

  // ---------- add and subtract of unnormalised operands ----------

  ghost function Signed(negative: bool, m: int): int { if negative then -m else m }

  /** x + y, or x - y, after the operand with the smaller exponent has been shifted. */
  ghost function AlignedTotal(subtract: bool, x: Num, y: Num): int {
    Signed(x.negative, AlignedMantissa(x, y)) + Signed(y.negative != subtract, AlignedMantissa(y, x))
  }

  ghost function AbsInt(n: int): nat { if n < 0 then -n else n }

  ghost function Top(x: Num, y: Num): int { if x.exp > y.exp then x.exp else y.exp }

  lemma AlignedBounds(x: Num, y: Num)
    requires Finite(x) && Finite(y)
    ensures AlignedMantissa(x, y) < TWO64 && AlignedMantissa(y, x) < TWO64
  {
    ShiftedBelow(x.m, y.exp - x.exp);
    ShiftedBelow(y.m, x.exp - y.exp);
  }

  lemma ShiftedBelow(m: nat, d: int)
    requires m < TWO64
    ensures d > 0 ==> StickyShift(m, d) < TWO64
  {
    if d > 0 && m > 0 { StickyBelow(m, d); }
    if d > 0 && m == 0 { ZeroSticky(d); }
  }

  lemma {:induction false} ZeroSticky(n: nat)
    ensures Sticky(0, n) == 0
  {
    if n > 0 { ZeroSticky(n - 1); }
  }

  /** The shifted operand exceeds the other although its exponent is smaller, and the C code
      keeps the other's sign: it looks for a borrow only. */
  ghost predicate SignMissed(subtract: bool, x: Num, y: Num) {
    x.negative != (y.negative != subtract) && x.exp < y.exp && AlignedMantissa(x, y) > AlignedMantissa(y, x)
  }

  /** For all operands typed normal or subnormal, however their mantissas are normalised, with
      different exponents not near the ends of the range, v being the aligned total's size:
      the result truncates v to the grid of its low three bits, and its sign is right exactly
      unless the code misses it.  A difference of zero is a positive zero.  A sum is normal
      when it carried or filled the top bit; otherwise the result has the kind of the operand
      with the larger exponent, and a difference has its top bit set if either operand was
      normal. */
  lemma AddSubTruncatesTotal(subtract: bool, x: Num, y: Num, stale: Num, v: real)
    requires Finite(x) && Finite(y) && x.exp != y.exp && MIN_EXP + 64 <= Top(x, y) < MAX_EXP
    requires Product(v, AbsInt(AlignedTotal(subtract, x, y)) as real, Scale(Top(x, y) - 64))
    ensures
      var z, total := AddSub(subtract, x, y, stale), AlignedTotal(subtract, x, y);
      var unlike := x.negative != (y.negative != subtract);
      var kind := if x.exp > y.exp then x.kind else y.kind;
      && (total != 0 ==> InCell(v, Scale(z.exp - 64), z.m))
      && (total != 0 ==> ((z.negative <==> total < 0) <==> !SignMissed(subtract, x, y)))
      && (unlike && total == 0 ==> z == Num(Zero, false, Top(x, y), 0))
      && (unlike && total != 0 ==> z.kind == kind && (x.kind == Normal || y.kind == Normal ==> z.m >= TWO63))
      && (!unlike ==> z.kind == if AbsInt(total) >= TWO63 then Normal else kind)
  {
    if x.negative != (y.negative != subtract) {
      UnlikeTotal(subtract, x, y, stale, v);
    } else {
      LikeTotal(subtract, x, y, stale, v);
    }
  }

  lemma UnlikeTotal(subtract: bool, x: Num, y: Num, stale: Num, v: real)
    requires Finite(x) && Finite(y) && x.exp != y.exp && MIN_EXP + 64 <= Top(x, y) < MAX_EXP
    requires x.negative != (y.negative != subtract)
    requires Product(v, AbsInt(AlignedTotal(subtract, x, y)) as real, Scale(Top(x, y) - 64))
    ensures
      var z, mx, my := AddSub(subtract, x, y, stale), AlignedMantissa(x, y), AlignedMantissa(y, x);
      var start := Start(subtract, x, y);
      && (mx == my ==> z == Num(Zero, false, Top(x, y), 0))
      && (mx != my ==>
            && InCell(v, Scale(z.exp - 64), z.m) && z.kind == start.kind
            && (x.kind == Normal || y.kind == Normal ==> z.m >= TWO63)
            && z.negative == if mx < my then y.negative != subtract else start.negative)
  {
    AlignedBounds(x, y);
    DifferenceTruncates(Start(subtract, x, y), AlignedMantissa(x, y), AlignedMantissa(y, x), y.negative != subtract,
                        x.kind == Normal || y.kind == Normal, AbsInt(AlignedTotal(subtract, x, y)), Top(x, y), v);
  }

  lemma LikeTotal(subtract: bool, x: Num, y: Num, stale: Num, v: real)
    requires Finite(x) && Finite(y) && x.exp != y.exp && MIN_EXP + 64 <= Top(x, y) < MAX_EXP
    requires x.negative == (y.negative != subtract)
    requires Product(v, AbsInt(AlignedTotal(subtract, x, y)) as real, Scale(Top(x, y) - 64))
    ensures
      var z, s := AddSub(subtract, x, y, stale), AlignedMantissa(x, y) + AlignedMantissa(y, x);
      && InCell(v, Scale(z.exp - 64), z.m) && z.negative == x.negative
      && z.kind == if s >= TWO63 then Normal else Start(subtract, x, y).kind
  {
    AlignedBounds(x, y);
    SumTruncates(Start(subtract, x, y), AlignedMantissa(x, y) + AlignedMantissa(y, x), Top(x, y), v);
  }

  lemma SumTruncates(z: Num, s: nat, top: int, v: real)
    requires z.m == 0 && (z.kind == Normal || z.kind == Subnormal)
    requires z.exp == top && MIN_EXP <= top < MAX_EXP && s < 2 * TWO64
    requires Product(v, s as real, Scale(top - 64))
    ensures var r := Rounded(Sum(z, s));
            && InCell(v, Scale(r.exp - 64), r.m) && r.negative == z.negative
            && r.kind == if s >= TWO63 then Normal else z.kind
  {
    if s >= TWO64 {
      UnitDoubles(top - 64);
      HalvedInCell(v, s, Chop(s / 2), Scale(top - 64), Scale(top - 63));
    } else {
      WholeInCell(v, s, Chop(s), Scale(top - 64));
    }
  }

  lemma UnitDoubles(e: int)
    ensures Scale(e + 1) == 2.0 * Scale(e)
  {
    ScaleUp(e, 1);
    assert Pow2(1) == 2;
  }

  lemma HalvedInCell(v: real, s: nat, m: nat, u: real, w: real)
    requires u > 0.0 && w == 2.0 * u && 2 * m <= s < 2 * (m + 8) && Product(v, s as real, u)
    ensures InCell(v, w, m)
  {
    Between(v, s, 2 * m, 2 * (m + 8), u);
    Halve(m, u, w);
    Halve(m + 8, u, w);
  }

  lemma Halve(m: nat, u: real, w: real)
    requires w == 2.0 * u
    ensures (2 * m) as real * u == m as real * w
  {
  }

  lemma Between(v: real, s: nat, low: nat, high: nat, u: real)
    requires u > 0.0 && low <= s < high && Product(v, s as real, u)
    ensures low as real * u <= v < high as real * u
  {
    assert (s - low) as real * u >= 0.0 && (high - s) as real * u > 0.0;
  }

  lemma WholeInCell(v: real, s: nat, m: nat, u: real)
    requires u > 0.0 && m <= s < m + 8 && Product(v, s as real, u)
    ensures InCell(v, u, m)
  {
    Between(v, s, m, m + 8, u);
  }

  lemma DifferenceTruncates(z: Num, mx: nat, my: nat, yNegative: bool, normalise: bool, n: nat, top: int, v: real)
    requires z.m == 0 && (z.kind == Normal || z.kind == Subnormal)
    requires z.exp == top && MIN_EXP + 64 <= top < MAX_EXP && mx < TWO64 && my < TWO64
    requires n == (if mx < my then my - mx else mx - my) && Product(v, n as real, Scale(top - 64))
    ensures var r := Rounded(Difference(z, mx, my, yNegative, normalise));
            && (n == 0 ==> r == Num(Zero, false, top, 0))
            && (n != 0 ==>
                  && InCell(v, Scale(r.exp - 64), r.m) && r.kind == z.kind && (normalise ==> r.m >= TWO63)
                  && r.negative == if mx < my then yNegative else z.negative)
  {
    if n != 0 {
      if normalise { NormalisedTruncates(n, top, v); } else { WholeInCell(v, n, Chop(n), Scale(top - 64)); }
    }
  }

  lemma NormalisedTruncates(n: nat, top: int, v: real)
    requires 0 < n < TWO64 && Product(v, n as real, Scale(top - 64))
    ensures LeadingZeros(n, TWO63) <= 63 && TWO63 <= Chop(Lifted(n, TWO63))
    ensures InCell(v, Scale(top - LeadingZeros(n, TWO63) - 64), Chop(Lifted(n, TWO63)))
  {
    FewZeros(n);
    LiftedValue(v, n, TWO63, top - 64);
    assert top - 64 - LeadingZeros(n, TWO63) == top - LeadingZeros(n, TWO63) - 64;
    WholeInCell(v, Lifted(n, TWO63), Chop(Lifted(n, TWO63)), Scale(top - LeadingZeros(n, TWO63) - 64));
  }

  lemma FewZeros(n: nat)
    requires n > 0
    ensures LeadingZeros(n, TWO63) <= 63
  {
    Pow2Sixty4();
    Ordered(1, n, Pow2(63));
    LeadingZerosLeast(n, TWO63, 63);
  }

  /** Such a case: 2^-1 on a mantissa of 2^63 with exponent 0, and 8 units with exponent 1,
      of opposite sign. */
  lemma SignMissedSomewhere()
    ensures
      var x, y := Num(Subnormal, false, 0, TWO63), Num(Subnormal, true, 1, 8);
      && SignMissed(false, x, y) && AlignedTotal(false, x, y) > 0
      && forall stale: Num :: AddSub(false, x, y, stale).negative
  {
    assert Sticky(TWO63, 0) == TWO63 && Sticky(TWO63, 1) == StickyOnce(TWO63);
  }

  /** Equal exponents never touch the mantissa, whatever the operands: the destination's old
      one is chopped, and the number is subnormal if an operand is. */
  lemma EqualExponentsKeepAny(subtract: bool, x: Num, y: Num, stale: Num)
    requires Finite(x) && Finite(y) && x.exp == y.exp >= MIN_EXP
    ensures AddSub(subtract, x, y, stale)
         == Num(if x.kind == Normal == y.kind then Normal else Subnormal, x.negative, x.exp, stale.m - stale.m % 8)
  {
  }

  // ---------- zero mantissas in a division ----------

  /** Nothing by nothing is not a number, nothing by something a positive zero, something by
      nothing a positive infinity; every other quotient keeps the dividend's kind. */
  lemma DivideOnZeroMantissas(x: Num, y: Num)
    requires Finite(x) && Finite(y)
    ensures x.m == 0 && y.m == 0 <==> Divide(x, y).kind == NaN
    ensures x.m != 0 && y.m == 0 <==> Divide(x, y).kind == Infinity
    ensures x.m == 0 && y.m != 0 <==> Divide(x, y).kind == Zero
    ensures x.m != 0 && y.m != 0 <==> Divide(x, y).kind == x.kind
    ensures x.m == 0 && y.m == 0 ==> Divide(x, y) == Num(NaN, true, 32767, 0x4000 * 0x1_0000_0000_0000)
    ensures x.m != 0 && y.m == 0 ==> Divide(x, y) == Num(Infinity, false, -32767, 0)
    ensures x.m == 0 && y.m != 0 ==> Divide(x, y) == Num(Zero, false, -32767, 0)
  {
  }

  // ---------- the multiply's sticky bit ----------

  /** Before rounding, the product's bit 0 is forced on when nothing was lost below it, and
      only then: the reverse of a sticky bit. */
  lemma StickyBackwards(x: Num, y: Num)
    requires Finite(x) && Finite(y) && x.m > 0 && y.m > 0
    ensures
      var pair := Lifted(MantissaProduct(x, y), TWO63 * TWO64);
      var high, m := pair / TWO64, UnroundedProduct(x, y).m;
      if pair % TWO64 != 0 then m == high else m % 2 == 1 && high <= m <= high + 1
  {
  }

  // ---------- denormalising ----------

  ghost function FloorForced(m: nat, p: nat): nat
    requires p > 0
  {
    if m % p != 0 && m / p % 2 == 0 then m / p + 1 else m / p
  }

  /** Below the minimum exponent by fewer than 64 places: the floor with the lost bits forced
      into bit 0, at the minimum exponent.  By 64 or more: a zero of the same sign. */
  lemma DenormalizedIsFloor(x: Num, minimum: short)
    ensures x.exp >= minimum ==> Denormalized(x, minimum) == x
    ensures x.exp <= minimum - 64 ==> Denormalized(x, minimum) == Num(Zero, x.negative, -32767, 0)
    ensures minimum - 64 < x.exp < minimum && x.kind != Zero ==>
      Denormalized(x, minimum) == Num(x.kind, x.negative, minimum, FloorForced(x.m, Pow2(minimum - x.exp)))
  {
    if minimum - 64 < x.exp < minimum { StickyIsFloorPlusLostBit(x.m, minimum - x.exp); }
  }
}

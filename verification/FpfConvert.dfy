/** Conversion of integers, and the exactness it gives to arithmetic on converted integers. */
module FpfConvert {
  import opened Limbs
  import opened Arithmetic
  import opened FpfSpec
  import opened FpfValue
  import opened FpfMulDiv
  import opened FpfAddSub

  ghost predicate InInt32(n: int) { n != 0 && -0x8000_0000 < n < 0x8000_0000 }

  ghost function AbsInt(n: int): nat { if n < 0 then -n else n }

  /** Conversion is exact: the canonical number whose value is n. */
  lemma ConversionExact(n: int)
    requires InInt32(n)
    ensures var x := FromInt32(n);
            Canonical(x) && Size(x) == AbsInt(n) as real && x.negative == (n < 0) && 1 <= x.exp <= 32
  {
    var m := AbsInt(n) * 0x1_0000_0000;
    LiftedWord(AbsInt(n), m);
    LiftedUnits(AbsInt(n), m);
  }

  lemma ConversionValue(n: int)
    requires InInt32(n)
    ensures var x := FromInt32(n); Canonical(x) && RealValue(x) == n as real && 1 <= x.exp
  {
    ConversionExact(n);
  }

  /** Every int32 but the most negative, zero included: its value and sign exactly, and a zero
      of its own for zero. */
  lemma ConversionOfAll(n: int)
    requires -0x8000_0000 < n < 0x8000_0000
    ensures
      var x := FromInt32(n);
      && RealValue(x) == n as real && (x.negative <==> n < 0)
      && (x.kind == Zero <==> n == 0) && (n != 0 <==> Canonical(x))
      && (n == 0 ==> x.exp == 0 && x.m == 0)
  {
    if n != 0 { ConversionExact(n); }
  }

  /** The low word stays clear, so no bit is there to chop. */
  lemma LiftedWord(n: nat, m: nat)
    requires 0 < n < 0x8000_0000 && m == n * 0x1_0000_0000
    ensures LeadingZeros(m, TWO63) <= 31 && TWO63 <= Lifted(m, TWO63) < TWO64 && Lifted(m, TWO63) % 8 == 0
  {
    ConversionShift(n, m);
    LiftedIsShift(m, TWO63);
    LowWordStaysClear(n, Pow2(LeadingZeros(m, TWO63)), Lifted(m, TWO63));
  }

  lemma ConversionShift(n: nat, m: nat)
    requires 0 < n < 0x8000_0000 && m == n * 0x1_0000_0000
    ensures LeadingZeros(m, TWO63) <= 31
  {
    Pow2Sixty4();
    assert Pow2(32) == 2 * Pow2(31);
    LeadingZerosLeast(m, TWO63, 31);
  }

  lemma LowWordStaysClear(n: nat, p: nat, l: nat)
    requires l == (n * 0x1_0000_0000) * p
    ensures l % 8 == 0
  {
    assert l == 8 * (n * 0x2000_0000 * p);
  }

  lemma LiftedUnits(n: nat, m: nat)
    requires n > 0 && m == n * 0x1_0000_0000
    ensures Product(n as real, Lifted(m, TWO63) as real, Scale(-32 - LeadingZeros(m, TWO63)))
  {
    Units(n, m);
    LiftedValue(n as real, m, TWO63, -32);
  }

  lemma Units(n: nat, m: nat)
    requires m == n * 0x1_0000_0000
    ensures Product(n as real, m as real, Scale(-32))
  {
    ScaleUp(-32, 32);
    Pow2Sixty4();
  }

  /** A truncation of a representable value is that value. */
  lemma Representable(c: Num, v: real, e: int, m: nat)
    requires Canonical(c) && Size(c) == v
    requires HasExponent(v, e)
    ensures e == c.exp
    ensures IsChop(v, e, m) ==> m == c.m
  {
    CanonicalIsChop(c);
    ChopHasExponent(v, c.exp, c.m);
    ExponentUnique(v, e, c.exp);
    if IsChop(v, e, m) { ChopUnique(v, e, m, c.exp, c.m); }
  }

  /** When the exact product, quotient or sum is itself a number of the unit, the
      operation returns that number, field for field. */
  lemma ExactProduct(x: Num, y: Num, c: Num)
    requires Canonical(x) && Canonical(y) && Canonical(c) && c.exp >= MIN_EXP
    requires Product(Size(c), Size(x), Size(y)) && c.negative == (x.negative != y.negative)
    ensures Multiply(x, y) == c
  {
    MultiplyTruncates(x, y, Size(c));
    Representable(c, Size(c), ProductExponent(x, y), Multiply(x, y).m);
  }

  lemma ExactQuotient(x: Num, y: Num, c: Num)
    requires Canonical(x) && Canonical(y) && Canonical(c) && c.exp >= MIN_EXP
    requires Product(Size(x), Size(c), Size(y)) && x.negative == (c.negative != y.negative)
    ensures Divide(x, y) == c
  {
    DivideTruncates(x, y, Size(c));
    Representable(c, Size(c), QuotientExponent(x, y), Divide(x, y).m);
  }

  lemma ExactSumIs(subtract: bool, x: Num, y: Num, stale: Num, c: Num)
    requires Canonical(x) && Canonical(y) && Canonical(c) && c.exp >= MIN_EXP && x.exp != y.exp
    requires RealValue(c) == ExactSum(subtract, x, y)
    ensures AddSub(subtract, x, y, stale) == c
  {
    AddSubTruncates(subtract, x, y, stale, RealValue(c));
    var e := SumExponent(Larger(subtract, x, y), Smaller(subtract, x, y));
    SizePositive(c);
    Representable(c, Size(c), e, AddSub(subtract, x, y, stale).m);
  }

  lemma AbsProduct(a: int, b: int)
    requires InInt32(a * b)
    ensures InInt32(a) && InInt32(b) && (a * b < 0) == ((a < 0) != (b < 0))
    ensures Product(AbsInt(a * b) as real, AbsInt(a) as real, AbsInt(b) as real)
  {
    var p: int, q: int := AbsInt(a), AbsInt(b);
    assert a * b == if (a < 0) == (b < 0) then p * q else -(p * q);
    assert p > 0 && q > 0;
    Ordered(1, p, q);
    Ordered(1, q, p);
    RealProduct(p, q);
  }

  lemma RealProduct(a: int, b: int)
    ensures (a * b) as real == a as real * b as real
  {
  }

  /** Multiplying converted integers gives the converted product. */
  lemma ProductOfIntegers(a: int, b: int)
    requires InInt32(a * b)
    ensures InInt32(a) && InInt32(b) && Multiply(FromInt32(a), FromInt32(b)) == FromInt32(a * b)
  {
    AbsProduct(a, b);
    ConversionExact(a);
    ConversionExact(b);
    ConversionExact(a * b);
    ExactProduct(FromInt32(a), FromInt32(b), FromInt32(a * b));
  }

  /** Dividing the converted a * b by the converted b gives back the conversion of a. */
  lemma QuotientOfIntegers(a: int, b: int)
    requires InInt32(a * b)
    ensures InInt32(a) && InInt32(b) && Divide(FromInt32(a * b), FromInt32(b)) == FromInt32(a)
  {
    AbsProduct(a, b);
    ConversionExact(a);
    ConversionExact(b);
    ConversionExact(a * b);
    ExactQuotient(FromInt32(a * b), FromInt32(b), FromInt32(a));
  }

  /** Adding or subtracting converted integers of different binary magnitude is exact. */
  lemma SumOfIntegers(subtract: bool, a: int, b: int, stale: Num)
    requires InInt32(a) && InInt32(b) && FromInt32(a).exp != FromInt32(b).exp
    requires InInt32(if subtract then a - b else a + b)
    ensures AddSub(subtract, FromInt32(a), FromInt32(b), stale) == FromInt32(if subtract then a - b else a + b)
  {
    var n := if subtract then a - b else a + b;
    ConversionValue(a);
    ConversionValue(b);
    ConversionValue(n);
    TurnedValue(subtract, FromInt32(b));
    ExactSumIs(subtract, FromInt32(a), FromInt32(b), stale, FromInt32(n));
  }
}

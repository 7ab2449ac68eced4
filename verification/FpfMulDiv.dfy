/** Multiplication and division, measured against exact arithmetic. */
module FpfMulDiv {
  import opened Limbs
  import opened Arithmetic
  import opened FpfLoops
  import opened FpfSpec
  import opened FpfValue

  // ---------- multiply ----------

  /** The exponent the exact product has. */
  ghost function ProductExponent(x: Num, y: Num): int
    requires x.m > 0 && y.m > 0
  {
    x.exp + y.exp - LeadingZeros(MantissaProduct(x, y), TWO63 * TWO64)
  }

  /** For any nonzero mantissas, normalised or not, the product is the exact product v
      truncated to 61 bits exactly when the product's exponent fits; the sticky bit, set
      the wrong way round in emfloat.c, never shows. */
  lemma MultiplyTruncates(x: Num, y: Num, v: real)
    requires Finite(x) && Finite(y) && x.m > 0 && y.m > 0 && v == Size(x) * Size(y)
    ensures var z, e := Multiply(x, y), ProductExponent(x, y);
            && HasExponent(v, e)
            && (IsChop(v, z.exp, z.m) <==> MIN_EXP <= e <= MAX_EXP)
            && (MIN_EXP <= e <= MAX_EXP ==> z.exp == e
                                            && z.kind == (if x.kind == Normal == y.kind then Normal else Subnormal)
                                            && z.negative == (x.negative != y.negative))
  {
    ProductFields(x, y);
    ProductChops(x, y, v);
    RoundedTruncates(UnroundedProduct(x, y), ProductExponent(x, y), v);
  }

  /** Canonical operands give a canonical product, its exponent ex + ey or one less. */
  lemma MultiplyCanonical(x: Num, y: Num)
    requires Canonical(x) && Canonical(y)
    ensures var e := ProductExponent(x, y);
            && x.exp + y.exp - 1 <= e <= x.exp + y.exp
            && (Canonical(Multiply(x, y)) && Multiply(x, y).exp == e <==> MIN_EXP <= e <= MAX_EXP)
  {
    var p, top := MantissaProduct(x, y), TWO63 * TWO64;
    Ordered(TWO63, x.m, y.m);
    assert 4 * (TWO63 * TWO63) == 2 * top;
    assert Pow2(1) == 2;
    LeadingZerosLeast(p, top, 1);
    MultiplyTruncates(x, y, Size(x) * Size(y));
  }

  lemma ProductFields(x: Num, y: Num)
    requires Finite(x) && Finite(y) && x.m > 0 && y.m > 0
    ensures UnroundedProduct(x, y)
            == ProductStart(x, y).(exp := Short(ProductExponent(x, y)), m := UnroundedProduct(x, y).m)
  {
    var k: int := LeadingZeros(MantissaProduct(x, y), TWO63 * TWO64);
    ShortAgain(x.exp + y.exp, -k);
  }

  lemma ProductChops(x: Num, y: Num, v: real)
    requires Finite(x) && Finite(y) && x.m > 0 && y.m > 0 && v == Size(x) * Size(y)
    ensures IsChop(v, ProductExponent(x, y), Chop(UnroundedProduct(x, y).m))
  {
    var p, top, c := MantissaProduct(x, y), TWO63 * TWO64, x.exp + y.exp - 128;
    SizeOfProduct(x, y, v);
    LiftedValue(v, p, top, c);
    HighHalfChops(Lifted(p, top));
    ChopScaled(v, Lifted(p, top), c - LeadingZeros(p, top), 64, Chop(Lifted(p, top) / TWO64));
  }

  /** The C code's sticky bit is one of the three that the chop clears. */
  lemma HighHalfChops(pair: nat)
    requires TWO63 * TWO64 <= pair < TWO64 * TWO64
    ensures Chops(pair, 64, Chop(pair / TWO64))
    ensures var high := pair / TWO64; high % 2 == 0 ==> Chop(high + 1) == Chop(pair / TWO64)
  {
    Pow2Sixty4();
    var high := pair / TWO64;
    assert pair == high * TWO64 + pair % TWO64;
  }

  lemma SizeOfProduct(x: Num, y: Num, v: real)
    requires v == Size(x) * Size(y)
    ensures Product(v, (x.m * y.m) as real, Scale(x.exp + y.exp - 128))
  {
    ScaleAdd(x.exp - 64, y.exp - 64);
    FourFactors(x.m as real, Scale(x.exp - 64), y.m as real, Scale(y.exp - 64));
  }

  lemma FourFactors(a: real, s: real, b: real, t: real)
    ensures (a * s) * (b * t) == (a * b) * (s * t)
  {
    assert (a * s) * (b * t) == a * (s * (b * t)) == a * (b * (s * t));
  }

  // ---------- divide ----------

  /** The exponent the exact quotient has. */
  ghost function QuotientExponent(x: Num, y: Num): int
    requires Finite(x) && Finite(y) && x.m > 0 && y.m > 0
  {
    x.exp - y.exp + 64 - LeadingZeros(x.m, TWO63 * y.m)
  }

  /** For any nonzero mantissas the quotient is the exact quotient v truncated to 61 bits
      exactly when its exponent fits. */
  lemma DivideTruncates(x: Num, y: Num, v: real)
    requires Finite(x) && Finite(y) && x.m > 0 && y.m > 0 && Size(x) == v * Size(y)
    ensures var z, e := Divide(x, y), QuotientExponent(x, y);
            && HasExponent(v, e)
            && (IsChop(v, z.exp, z.m) <==> MIN_EXP <= e <= MAX_EXP)
            && (MIN_EXP <= e <= MAX_EXP ==> z.exp == e && z.kind == x.kind
                                            && z.negative == (x.negative != y.negative))
  {
    SizePositive(y);
    QuotientChops(v, Size(x), Size(y), x.m, x.exp, y.m, y.exp);
    QuotientFields(x, y);
    RoundedTruncates(UnroundedQuotient(x, y), QuotientExponent(x, y), v);
  }

  /** Canonical operands give a canonical quotient, its exponent ex - ey or one more:
      one more exactly when the dividend's mantissa is not the smaller. */
  lemma DivideCanonical(x: Num, y: Num)
    requires Canonical(x) && Canonical(y)
    ensures var e := QuotientExponent(x, y);
            && e == (if x.m >= y.m then x.exp - y.exp + 1 else x.exp - y.exp)
            && (Canonical(Divide(x, y)) && Divide(x, y).exp == e <==> MIN_EXP <= e <= MAX_EXP)
  {
    PassCount(x.m, y.m);
    SizePositive(y);
    DivideTruncates(x, y, Size(x) / Size(y));
  }

  lemma QuotientFields(x: Num, y: Num)
    requires Finite(x) && Finite(y) && x.m > 0 && y.m > 0
    ensures UnroundedQuotient(x, y)
            == Num(x.kind, x.negative != y.negative, Short(QuotientExponent(x, y)), Lifted(x.m, TWO63 * y.m) / y.m)
  {
    var k: int := LeadingZeros(x.m, TWO63 * y.m) + 64;
    ShortAgain(x.exp - y.exp + 128, -k);
  }

  lemma SizePositive(x: Num)
    requires x.m > 0
    ensures Size(x) > 0.0
  {
  }

  lemma QuotientChops(v: real, size: real, divisor: real, a: nat, ex: int, b: nat, ey: int)
    requires 0 < a < TWO64 && 0 < b < TWO64 && divisor > 0.0 && Product(size, v, divisor)
    requires Product(size, a as real, Scale(ex - 64)) && Product(divisor, b as real, Scale(ey - 64))
    ensures var h := Lifted(a, TWO63 * b) / b;
            IsChop(v, ex - ey + 64 - LeadingZeros(a, TWO63 * b), h - h % 8)
  {
    LiftedValue(size, a, TWO63 * b, ex - 64);
    LiftedQuotient(a, b);
    ScaledQuotientChops(v, size, divisor, Lifted(a, TWO63 * b), b, ex - 64 - LeadingZeros(a, TWO63 * b), ey);
  }

  lemma ScaledQuotientChops(v: real, size: real, divisor: real, n: nat, b: nat, c: int, exp: int)
    requires b > 0 && TWO63 <= n / b < TWO64 && divisor > 0.0 && Product(size, v, divisor)
    requires Product(size, n as real, Scale(c)) && Product(divisor, b as real, Scale(exp - 64))
    ensures IsChop(v, c + 128 - exp, Chop(n / b))
  {
    var h := n / b;
    ScaleAdd(c + 64 - exp, exp - 64);
    FloorCell(n, b, h);
    QuotientInCell(v, size, divisor, n, b, Chop(h), Scale(c), Scale(exp - 64), Scale(c + 64 - exp));
  }

  lemma LiftedQuotient(a: nat, b: nat)
    requires 0 < a < TWO64 && 0 < b < TWO64
    ensures TWO63 <= Lifted(a, TWO63 * b) / b < TWO64
  {
    var n := Lifted(a, TWO63 * b);
    QuotientAtLeast(n, b, TWO63);
    QuotientAtLeast(n, b, TWO64);
  }

  /** Chopping the integer quotient leaves a cell of the grid 8 * b around the dividend. */
  lemma FloorCell(n: nat, b: nat, h: nat)
    requires b > 0 && h == n / b
    ensures Chop(h) * b <= n < (Chop(h) + 8) * b
  {
    assert n == h * b + n % b;
    Ordered(Chop(h), h, b);
    Ordered(h + 1, Chop(h) + 8, b);
    assert (h + 1) * b == h * b + b;
  }

  lemma QuotientInCell(v: real, size: real, divisor: real, n: nat, b: nat, m: nat, w: real, t: real, g: real)
    requires Product(size, n as real, w) && Product(divisor, b as real, t) && Product(w, g, t)
    requires b > 0 && w > 0.0 && t > 0.0 && g > 0.0 && divisor > 0.0
    requires m * b <= n < (m + 8) * b && Product(size, v, divisor)
    ensures InCell(v, g, m)
  {
    GridTimes(g, b, t, m, divisor, w);
    GridTimes(g, b, t, m + 8, divisor, w);
    AtLeast((m * b) as real, n as real, w);
    AtLeast(n as real, ((m + 8) * b) as real, w);
    AtLeast(m as real * g, v, divisor);
    AtLeast(v, (m + 8) as real * g, divisor);
  }

  lemma GridTimes(g: real, b: nat, t: real, m: nat, divisor: real, w: real)
    requires Product(divisor, b as real, t) && Product(w, g, t)
    ensures (m as real * g) * divisor == (m * b) as real * w
  {
    FourFactors(m as real, g, b as real, t);
  }

  lemma AtLeast(a: real, b: real, d: real)
    requires d > 0.0
    ensures a <= b <==> a * d <= b * d
    ensures a < b <==> a * d < b * d
  {
    assert (b - a) * d == b * d - a * d;
  }
}

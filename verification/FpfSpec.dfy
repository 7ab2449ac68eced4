/** What the floating-point unit computes, on whole integers instead of limbs.

    A number is a kind, a sign, a 16-bit exponent and a 64-bit mantissa; its value
    is (-1)^sign * m * 2^(exp - 64).  The limb code is proved against the functions
    of this module; `FpfMulDiv`, `FpfAddSub` and `FpfConvert` relate them to exact arithmetic. */
module FpfSpec {
  import opened Limbs
  import opened Arithmetic

  datatype Kind = Zero | Subnormal | Normal | Infinity | NaN

  type short = x: int | -0x8000 <= x < 0x8000

  const MIN_EXP: short := -32767
  const MAX_EXP: short := 32767

  datatype Num = Num(kind: Kind, negative: bool, exp: short, m: nat)

  /** Storing an int into a `short` keeps its low sixteen bits. */
  function Short(x: int): (s: short)
    ensures (x - s) % 0x10000 == 0
    ensures -0x8000 <= x < 0x8000 ==> s == x
  {
    (x + 0x8000) % 0x10000 - 0x8000
  }

  lemma ShortAgain(x: int, d: int)
    ensures Short(Short(x) + d) == Short(x + d)
  {
  }

  ghost predicate Finite(x: Num) { (x.kind == Normal || x.kind == Subnormal) && x.m < TWO64 }

  /** Doubling m until it reaches `top`: the result, and how many places that took. */
  ghost function Lifted(m: nat, top: nat): (r: nat)
    requires m > 0
    ensures r >= top
    ensures m < 2 * top ==> r < 2 * top
    decreases top - m
  {
    if m >= top then m else Lifted(2 * m, top)
  }

  ghost function LeadingZeros(m: nat, top: nat): (k: nat)
    requires m > 0
    decreases top - m
  {
    if m >= top then 0 else 1 + LeadingZeros(2 * m, top)
  }

  /** Normalising multiplies by a power of two, the least that reaches the top. */
  lemma {:induction false} LiftedIsShift(m: nat, top: nat)
    requires m > 0
    ensures Lifted(m, top) == m * Pow2(LeadingZeros(m, top))
    decreases top - m
  {
    if m < top {
      LiftedIsShift(2 * m, top);
      ShiftOnce(m, LeadingZeros(2 * m, top));
    } else {
      assert Pow2(0) == 1;
    }
  }

  lemma {:induction false} LeadingZerosLeast(m: nat, top: nat, k: nat)
    requires m > 0
    ensures LeadingZeros(m, top) <= k <==> m * Pow2(k) >= top
    decreases k
  {
    if k == 0 {
      assert Pow2(0) == 1;
    } else if m < top {
      ShiftOnce(m, k - 1);
      LeadingZerosLeast(2 * m, top, k - 1);
    } else {
      assert m * (Pow2(k) - 1) >= 0;
    }
  }

  /** One place right, forcing bit 0 when a one falls off. */
  ghost function StickyOnce(m: nat): nat {
    if m % 2 == 1 && m / 2 % 2 == 0 then m / 2 + 1 else m / 2
  }

  ghost function Sticky(m: nat, n: nat): nat {
    if n == 0 then m else StickyOnce(Sticky(m, n - 1))
  }

  /** The C code's shift, with its shortcut: 64 places or more leave just the sticky bit. */
  ghost function StickyShift(m: nat, n: nat): nat { if n >= 64 then 1 else Sticky(m, n) }

  ghost function SetZero(negative: bool): Num { Num(Zero, negative, MIN_EXP, 0) }
  ghost function SetInfinity(negative: bool): Num { Num(Infinity, negative, MIN_EXP, 0) }
  ghost function SetNaN(): Num { Num(NaN, true, MAX_EXP, 0x4000_0000_0000_0000) }

  ghost function Normalized(x: Num): Num
    requires 0 < x.m
  {
    x.(exp := Short(x.exp - LeadingZeros(x.m, TWO63)), m := Lifted(x.m, TWO63))
  }

  ghost function Denormalized(x: Num, minimum: short): Num {
    var up := minimum - x.exp;
    if up <= 0 then x
    else if up >= 64 then SetZero(x.negative)
    else x.(exp := minimum, m := if x.kind == Zero then x.m else StickyShift(x.m, up))
  }

  /** m & ~7: the low three bits cleared. */
  ghost function Chop(h: nat): (m: nat)
    ensures m % 8 == 0 && m <= h < m + 8
  {
    h - h % 8
  }

  /** Denormalise to MIN_EXP, then chop the low three bits. */
  ghost function Rounded(x: Num): Num {
    if x.kind != Normal && x.kind != Subnormal then x
    else
      var y := Denormalized(x, MIN_EXP);
      if y.kind == Zero then y else y.(m := Chop(y.m))
  }

  /** x + y, or x - y when `subtract`; `stale` is what the destination held before. */
  ghost function AddSub(subtract: bool, x: Num, y: Num, stale: Num): Num
    requires Finite(x) && Finite(y)
  {
    Rounded(if x.exp == y.exp then SameExponent(x, y, stale) else Aligned(subtract, x, y))
  }

  /** With equal exponents the C code copies kind, sign and exponent and never touches the mantissa. */
  ghost function SameExponent(x: Num, y: Num, stale: Num): Num {
    stale.(kind := if x.kind == Subnormal || y.kind == Subnormal then Subnormal else Normal,
           negative := x.negative, exp := x.exp)
  }

  /** The operand with the smaller exponent is shifted right by the difference. */
  ghost function AlignedMantissa(x: Num, y: Num): nat {
    if x.exp < y.exp then StickyShift(x.m, y.exp - x.exp) else x.m
  }

  /** Kind, sign and exponent of the operand with the larger exponent; no mantissa yet. */
  ghost function Start(subtract: bool, x: Num, y: Num): Num {
    if x.exp > y.exp then x.(m := 0) else y.(negative := y.negative != subtract, m := 0)
  }

  ghost function Aligned(subtract: bool, x: Num, y: Num): Num {
    var yNegative := y.negative != subtract;
    var mx, my := AlignedMantissa(x, y), AlignedMantissa(y, x);
    var z := Start(subtract, x, y);
    if x.negative != yNegative then Difference(z, mx, my, yNegative, x.kind == Normal || y.kind == Normal)
    else Sum(z, mx + my)
  }

  /** The unrounded difference of aligned mantissas: kind, sign and exponent start as in z. */
  ghost function Difference(z: Num, mx: nat, my: nat, yNegative: bool, normalise: bool): Num {
    if mx == my then Num(Zero, false, z.exp, 0)
    else
      var r := z.(negative := if mx < my then yNegative else z.negative, m := if mx < my then my - mx else mx - my);
      if normalise then Normalized(r) else r
  }

  /** The unrounded sum of aligned mantissas, renormalised by one place when it carries. */
  ghost function Sum(z: Num, s: nat): Num {
    if s >= TWO64 then z.(kind := Normal, exp := Short(z.exp + 1), m := s / 2)
    else z.(kind := if s >= TWO63 then Normal else z.kind, m := s)
  }

  /** x * y: the 128-bit product, normalised, its high half kept. */
  ghost function Multiply(x: Num, y: Num): Num
    requires Finite(x) && Finite(y) && x.m > 0 && y.m > 0
  {
    Rounded(UnroundedProduct(x, y))
  }

  ghost function UnroundedProduct(x: Num, y: Num): Num
    requires x.m > 0 && y.m > 0
  {
    HighHalf(ProductStart(x, y), MantissaProduct(x, y))
  }

  ghost function MantissaProduct(x: Num, y: Num): (p: nat)
    requires x.m > 0 && y.m > 0
    ensures p == x.m * y.m && p > 0
    ensures x.m < TWO64 && y.m < TWO64 ==> p < TWO64 * TWO64
  {
    Ordered(0, x.m, y.m);
    assert x.m < TWO64 ==> x.m * y.m < TWO64 * y.m by { if x.m < TWO64 { Ordered(x.m, TWO64, y.m); } }
    x.m * y.m
  }

  ghost function ProductStart(x: Num, y: Num): Num {
    Num(if x.kind == Subnormal || y.kind == Subnormal then Subnormal else Normal,
        x.negative != y.negative, Short(x.exp + y.exp), 0)
  }

  /** The sticky test is the C code's: bit 0 is forced on when the low half is zero. */
  ghost function HighHalf(z: Num, p: nat): Num
    requires p > 0
  {
    var pair := Lifted(p, TWO63 * TWO64);
    var high, low := pair / TWO64, pair % TWO64;
    z.(exp := Short(z.exp - LeadingZeros(p, TWO63 * TWO64)),
       m := if low == 0 && high % 2 == 0 then high + 1 else high)
  }

  /** x / y: the quotient scaled until its top bit is set, then rounded. */
  ghost function Divide(x: Num, y: Num): Num
    requires Finite(x) && Finite(y)
  {
    Rounded(UnroundedQuotient(x, y))
  }

  ghost function UnroundedQuotient(x: Num, y: Num): Num
    requires Finite(x) && Finite(y)
  {
    if x.m == 0 then (if y.m == 0 then SetNaN() else SetZero(false))
    else if y.m == 0 then SetInfinity(false)
    else Scaled(QuotientStart(x, y), x.m, y.m)
  }

  ghost function QuotientStart(x: Num, y: Num): Num {
    Num(x.kind, x.negative != y.negative, Short(x.exp - y.exp + 128), 0)
  }

  /** The dividend doubled until the integer quotient by b has its top bit set. */
  ghost function Scaled(z: Num, a: nat, b: nat): Num
    requires 0 < a && 0 < b < TWO64
  {
    z.(exp := Short(z.exp - (LeadingZeros(a, TWO63 * b) + 64)), m := Lifted(a, TWO63 * b) / b)
  }

  ghost function FromInt32(n: int): Num {
    if n == 0 then Num(Zero, false, 0, 0)
    else Normalized(Num(Normal, n < 0, 32, (if n < 0 then -n else n) * 0x1_0000_0000))
  }
}

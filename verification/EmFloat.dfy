/** The software floating-point unit: records of four limbs, changed in place.
    Every operation is proved to leave in its destination exactly what the
    corresponding function of `FpfSpec` computes. */
module EmFloat {
  import opened Limbs
  import opened Arithmetic
  import opened FpfLoops
  import opened FpfSpec

  class InternalFPF {
    var kind: Kind
    var negative: bool
    var exp: short
    const mantissa: array<u16>

    ghost predicate Valid() { mantissa.Length == PRECISION }

    ghost function Value(): (v: Num)
      requires Valid()
      reads this, mantissa
      ensures v.m < TWO64
    {
      Num(kind, negative, exp, Val(mantissa[..]))
    }

    constructor ()
      ensures Valid() && fresh(mantissa)
    {
      kind, negative, exp := Zero, false, 0;
      mantissa := new u16[PRECISION](i => 0);
    }

    // memmove of the whole record
    method CopyFrom(src: InternalFPF)
      requires Valid() && src.Valid()
      modifies this, mantissa
      ensures Value() == old(src.Value())
    {
      kind, negative, exp := src.kind, src.negative, src.exp;
      ghost var limbs := src.mantissa[..];
      for i := 0 to PRECISION
        invariant kind == old(src.kind) && negative == old(src.negative) && exp == old(src.exp)
        invariant forall j :: 0 <= j < i ==> mantissa[j] == limbs[j]
        invariant forall j :: i <= j < PRECISION ==> src.mantissa[j] == limbs[j]
      {
        mantissa[i] := src.mantissa[i];
      }
      assert mantissa[..] == limbs;
    }

    method SetZeroWith(sign: bool)
      requires Valid()
      modifies this, mantissa
      ensures Value() == SetZero(sign)
    {
      kind, negative, exp := Zero, sign, MIN_EXP;
      ClearMantissa(mantissa);
    }

    method SetInfinityWith(sign: bool)
      requires Valid()
      modifies this, mantissa
      ensures Value() == SetInfinity(sign)
    {
      kind, negative, exp := Infinity, sign, MIN_EXP;
      ClearMantissa(mantissa);
    }

    method SetToNaN()
      requires Valid()
      modifies this, mantissa
      ensures Value() == SetNaN()
    {
      kind, negative, exp := NaN, true, MAX_EXP;
      ClearMantissa(mantissa);
      mantissa[0] := 0x4000;
      Unfolded(mantissa[..]);
    }

    /** Shift right place by place, keeping bit 0 set once a one has been lost;
        64 places or more leave just that bit. */
    method StickyShiftRightMant(amount: int)
      requires Valid()
      modifies mantissa
      ensures Value() == if kind == Zero || amount <= 0 then old(Value())
                         else old(Value()).(m := StickyShift(old(Value()).m, amount))
    {
      if kind != Zero {
        if amount >= PRECISION * 16 {
          for i := 0 to PRECISION - 1
            invariant forall j :: 0 <= j < i ==> mantissa[j] == 0
          {
            mantissa[i] := 0;
          }
          mantissa[PRECISION - 1] := 1;
          Unfolded(mantissa[..]);
        } else {
          var i := 0;
          ghost var m := Val(mantissa[..]);
          while i < amount
            invariant 0 <= i && (amount > 0 ==> i <= amount) && (amount <= 0 ==> i == 0)
            invariant Val(mantissa[..]) == Sticky(m, i)
          {
            var carry := ShiftMantRight1(0, mantissa);
            if carry != 0 { LowBit(mantissa); }
            i := i + 1;
          }
        }
      }
    }

    /** One pass of normalize. */
    method LiftOnce()
      requires Valid() && Value().m < TWO63
      modifies this`exp, mantissa
      ensures Value() == old(Value()).(exp := Short(old(exp) - 1), m := 2 * old(Value().m))
    {
      var carry := ShiftMantLeft1(0, mantissa);
      exp := Short(exp - 1);
    }

    method Normalize()
      requires Valid() && Value().m > 0
      modifies this`exp, mantissa
      ensures Value() == Normalized(old(Value()))
    {
      ghost var k, was := 0, Value();
      while mantissa[0] < 0x8000
        invariant kind == was.kind && negative == was.negative && exp == Short(was.exp - k)
        invariant Value().m > 0 && Lifted(was.m, TWO63) == Lifted(Value().m, TWO63)
        invariant LeadingZeros(was.m, TWO63) == k + LeadingZeros(Value().m, TWO63)
        decreases TWO63 - Value().m
      {
        LiftOnce();
        ShortAgain(was.exp - k, -1);
        k := k + 1;
      }
    }

    method Denormalize(minimum: short)
      requires Valid()
      modifies this, mantissa
      ensures Value() == Denormalized(old(Value()), minimum)
    {
      var difference := exp - minimum;
      if difference < 0 {
        difference := -difference;
        if difference >= PRECISION * 16 {
          SetZeroWith(negative);
        } else {
          exp := Short(exp + difference);
          StickyShiftRightMant(difference);
        }
      }
    }

    method Round()
      requires Valid()
      modifies this, mantissa
      ensures Value() == Rounded(old(Value()))
    {
      if kind == Normal || kind == Subnormal {
        Denormalize(MIN_EXP);
        if kind != Zero {
          ChopBits(mantissa);
        }
      }
    }

    method FromInt(n: int)
      requires Valid() && -0x8000_0000 < n < 0x8000_0000
      modifies this, mantissa
      ensures Value() == FromInt32(n)
    {
      var mylong := n;
      if mylong < 0 {
        negative := true;
        mylong := 0 - mylong;
      } else {
        negative := false;
      }
      kind := Normal;
      ClearMantissa(mantissa);
      if mylong == 0 {
        kind, exp := Zero, 0;
        return;
      }
      exp := 32;
      var limbs := mantissa;
      limbs[0] := mylong / 0x10000 % 0x10000;
      limbs[1] := mylong % 0x10000;
      Unfolded(mantissa[..]);
      assert Val(mantissa[..]) == mylong * 0x1_0000_0000;
      Normalize();
    }
  }

  /** One record may stand for two operands; distinct records share no limbs. */
  ghost predicate Apart(x: InternalFPF, y: InternalFPF) {
    x == y || x.mantissa != y.mantissa
  }

  /** z := |x - y| on mantissas, saying whether the difference had to be turned around. */
  method Magnitude(x: array<u16>, y: array<u16>, z: array<u16>) returns (borrow: u16)
    requires x.Length == y.Length == z.Length == PRECISION && x != z && y != z
    modifies z
    ensures borrow != 0 <==> Val(x[..]) < Val(y[..])
    ensures Val(z[..]) == if borrow != 0 then Val(y[..]) - Val(x[..]) else Val(x[..]) - Val(y[..])
  {
    borrow := SubMantissas(z, x, y);
    if borrow != 0 {
      NegateMantissa(z);
    }
  }

  /** Signs differ: subtract the aligned mantissas (emfloat.c:674-726). */
  method SubtractAligned(operation: bool, locx: InternalFPF, locy: InternalFPF, z: InternalFPF)
    requires locx.Valid() && locy.Valid() && z.Valid()
    requires locx.mantissa != z.mantissa && locy.mantissa != z.mantissa && locx != z && locy != z
    modifies z, z.mantissa
    ensures z.Value() == Difference(old(z.Value()).(m := 0), old(locx.Value()).m, old(locy.Value()).m,
                                    locy.negative != operation, locx.kind == Normal || locy.kind == Normal)
  {
    var borrow := Magnitude(locx.mantissa, locy.mantissa, z.mantissa);
    if borrow != 0 {
      z.negative := locy.negative != operation;
    }
    var zero := IsMantissaZero(z.mantissa);
    if zero {
      z.kind := Zero;
      z.negative := false;
    } else {
      if locx.kind == Normal || locy.kind == Normal {
        z.Normalize();
      }
    }
  }

  /** Signs agree: add the aligned mantissas (emfloat.c:727-752). */
  method AddAligned(locx: InternalFPF, locy: InternalFPF, z: InternalFPF)
    requires locx.Valid() && locy.Valid() && z.Valid()
    modifies z, z.mantissa
    ensures z.Value() == Sum(old(z.Value()).(m := 0), old(locx.Value()).m + old(locy.Value()).m)
  {
    var carry := AddMantissas(z.mantissa, locx.mantissa, locy.mantissa);
    if carry != 0 {
      z.exp := Short(z.exp + 1);
      var _ := ShiftMantRight1(0, z.mantissa);
      TopBit(z.mantissa);
      z.kind := Normal;
    } else {
      if z.mantissa[0] >= 0x8000 {
        z.kind := Normal;
      }
    }
  }

  /** Different exponents: shift the copy with the smaller one, and start the result
      from the other operand (emfloat.c:649-672). */
  method AlignOperands(operation: bool, locx: InternalFPF, locy: InternalFPF, z: InternalFPF)
    requires locx.Valid() && locy.Valid() && z.Valid()
    requires locx.mantissa != z.mantissa && locy.mantissa != z.mantissa && locx.mantissa != locy.mantissa
    requires locx != z && locy != z && locx != locy
    requires Finite(locx.Value()) && Finite(locy.Value()) && locx.exp != locy.exp
    modifies locx.mantissa, locy.mantissa, z
    ensures locx.Value() == old(locx.Value()).(m := AlignedMantissa(old(locx.Value()), old(locy.Value())))
    ensures locy.Value() == old(locy.Value()).(m := AlignedMantissa(old(locy.Value()), old(locx.Value())))
    ensures z.Value().(m := 0) == Start(operation, old(locx.Value()), old(locy.Value()))
  {
    var exponentDifference := locx.exp - locy.exp;
    if exponentDifference > 0 {
      locy.StickyShiftRightMant(exponentDifference);
      z.kind, z.negative, z.exp := locx.kind, locx.negative, locx.exp;
    } else {
      locx.StickyShiftRightMant(-exponentDifference);
      z.kind, z.negative, z.exp := locy.kind, locy.negative != operation, locy.exp;
    }
  }

  lemma CombineAligned(subtract: bool, x: Num, y: Num, ax: Num, ay: Num, z: Num, r: Num)
    requires ax == x.(m := AlignedMantissa(x, y)) && ay == y.(m := AlignedMantissa(y, x)) && z == Start(subtract, x, y)
    requires r == if (ax.negative != ay.negative) != subtract
                  then Difference(z, ax.m, ay.m, ay.negative != subtract, ax.kind == Normal || ay.kind == Normal)
                  else Sum(z, ax.m + ay.m)
    ensures r == Aligned(subtract, x, y)
  {
  }

  method AlignAndCombine(operation: bool, locx: InternalFPF, locy: InternalFPF, z: InternalFPF)
    requires locx.Valid() && locy.Valid() && z.Valid()
    requires locx.mantissa != z.mantissa && locy.mantissa != z.mantissa && locx.mantissa != locy.mantissa
    requires locx != z && locy != z && locx != locy
    requires Finite(locx.Value()) && Finite(locy.Value()) && locx.exp != locy.exp
    modifies locx.mantissa, locy.mantissa, z, z.mantissa
    ensures z.Value() == Aligned(operation, old(locx.Value()), old(locy.Value()))
  {
    AlignOperands(operation, locx, locy, z);
    ghost var ax, ay, start := locx.Value(), locy.Value(), z.Value().(m := 0);
    if (locx.negative != locy.negative) != operation {
      SubtractAligned(operation, locx, locy, z);
    } else {
      AddAligned(locx, locy, z);
    }
    CombineAligned(operation, old(locx.Value()), old(locy.Value()), ax, ay, start, z.Value());
  }

  /** AddSubInternalFPF on operands typed normal or subnormal.  Both operands are
      copied first, so z may be either of them. */
  method AddSubInternalFPF(operation: bool, x: InternalFPF, y: InternalFPF, z: InternalFPF)
    requires x.Valid() && y.Valid() && z.Valid() && Apart(x, z) && Apart(y, z)
    requires Finite(x.Value()) && Finite(y.Value())
    modifies z, z.mantissa
    ensures z.Value() == AddSub(operation, old(x.Value()), old(y.Value()), old(z.Value()))
  {
    var locx := new InternalFPF();
    var locy := new InternalFPF();
    locx.CopyFrom(x);
    locy.CopyFrom(y);
    if locx.exp == locy.exp {
      if locx.kind == Subnormal || locy.kind == Subnormal {
        z.kind := Subnormal;
      } else {
        z.kind := Normal;
      }
      z.negative := locx.negative;
      z.exp := locx.exp;
      assert z.Value() == SameExponent(old(x.Value()), old(y.Value()), old(z.Value()));
    } else {
      AlignAndCombine(operation, locx, locy, z);
    }
    z.Round();
  }

  ghost function Pair(high: seq<u16>, low: seq<u16>): nat
    requires |high| == |low| == PRECISION
  {
    Val(high) * TWO64 + Val(low)
  }

  /** One pass: a multiplier bit out, the multiplicand added if it was one, the product one place right. */
  method MultiplyBit(x: array<u16>, locy: array<u16>, z: array<u16>, extra: array<u16>)
    requires x.Length == locy.Length == z.Length == extra.Length == PRECISION
    requires z != x && z != locy && z != extra && extra != x && extra != locy && locy != x
    modifies locy, z, extra
    ensures ProductRegister(Val(locy[..]), Pair(z[..], extra[..]))
            == MultiplyPass(old(ProductRegister(Val(locy[..]), Pair(z[..], extra[..]))), Val(x[..]))
  {
    var carry := ShiftMantRight1(0, locy);
    if carry != 0 {
      carry := AddMantissas(z, z, x);
    } else {
      carry := 0;
    }
    carry := ShiftMantRight1(carry, z);
    carry := ShiftMantRight1(carry, extra);
  }

  /** The 64-pass shift-and-add loop leaves exactly the 128-bit product in (z, extra). */
  method ShiftAndAdd(x: array<u16>, locy: array<u16>, z: array<u16>, extra: array<u16>)
    requires x.Length == locy.Length == z.Length == extra.Length == PRECISION
    requires z != x && z != locy && z != extra && extra != x && extra != locy && locy != x
    requires Val(z[..]) == 0 && Val(extra[..]) == 0
    modifies locy, z, extra
    ensures Pair(z[..], extra[..]) == Val(x[..]) * old(Val(locy[..]))
  {
    ghost var mx, my := Val(x[..]), Val(locy[..]);
    for i := 0 to PRECISION * 16
      invariant ProductRegister(Val(locy[..]), Pair(z[..], extra[..])) == MultiplyPasses(i, mx, my)
    {
      MultiplyBit(x, locy, z, extra);
    }
    MultiplyEnds(mx, my);
  }

  /** One pass of the multiply's normalising loop: the pair moves one place left. */
  method DoublePair(z: array<u16>, extra: array<u16>)
    requires z.Length == extra.Length == PRECISION && z != extra && Val(z[..]) < TWO63
    modifies z, extra
    ensures Pair(z[..], extra[..]) == 2 * old(Pair(z[..], extra[..]))
  {
    var carry := ShiftMantLeft1(0, extra);
    carry := ShiftMantLeft1(carry, z);
  }

  /** The multiply's own normalising loop, which brings bits back from `extra`. */
  method NormalizePair(z: InternalFPF, extra: array<u16>, ghost p: nat)
    requires z.Valid() && extra.Length == PRECISION && extra != z.mantissa
    requires p == Pair(z.mantissa[..], extra[..]) > 0
    modifies z`exp, z.mantissa, extra
    ensures z.exp == Short(old(z.exp) - LeadingZeros(p, TWO63 * TWO64))
    ensures Val(z.mantissa[..]) == Lifted(p, TWO63 * TWO64) / TWO64
    ensures Val(extra[..]) == Lifted(p, TWO63 * TWO64) % TWO64
  {
    ghost var k := 0;
    while z.mantissa[0] < 0x8000
      invariant z.exp == Short(old(z.exp) - k) && Pair(z.mantissa[..], extra[..]) > 0
      invariant Lifted(p, TWO63 * TWO64) == Lifted(Pair(z.mantissa[..], extra[..]), TWO63 * TWO64)
      invariant LeadingZeros(p, TWO63 * TWO64) == k + LeadingZeros(Pair(z.mantissa[..], extra[..]), TWO63 * TWO64)
      decreases TWO63 * TWO64 - Pair(z.mantissa[..], extra[..])
    {
      DoublePair(z.mantissa, extra);
      z.exp := Short(z.exp - 1);
      ShortAgain(old(z.exp) - k, -1);
      k := k + 1;
    }
  }

  /** The normalised pair's high half, with bit 0 forced on when the low half is zero. */
  method PackProduct(z: InternalFPF, extra: array<u16>, ghost p: nat)
    requires z.Valid() && extra.Length == PRECISION && extra != z.mantissa
    requires p == Pair(z.mantissa[..], extra[..]) > 0
    modifies z`exp, z.mantissa, extra
    ensures z.Value() == HighHalf(old(z.Value()), p)
  {
    NormalizePair(z, extra, p);
    var exact := IsMantissaZero(extra);
    if exact {
      LowBit(z.mantissa);
    }
  }

  /** The product of the mantissas, packed into a destination whose mantissa is clear. */
  method MultiplyMantissas(x: array<u16>, locy: array<u16>, z: InternalFPF)
    requires x.Length == locy.Length == PRECISION && z.Valid()
    requires x != locy && x != z.mantissa && locy != z.mantissa
    requires Val(x[..]) * Val(locy[..]) > 0 && Val(z.mantissa[..]) == 0
    modifies locy, z`exp, z.mantissa
    ensures z.Value() == HighHalf(old(z.Value()), Val(x[..]) * old(Val(locy[..])))
  {
    var extra := new u16[PRECISION](i => 0);
    Unfolded(extra[..]);
    ShiftAndAdd(x, locy, z.mantissa, extra);
    PackProduct(z, extra, Pair(z.mantissa[..], extra[..]));
  }

  method FiniteProduct(x: InternalFPF, locy: InternalFPF, z: InternalFPF)
    requires x.Valid() && locy.Valid() && z.Valid() && x != z && locy != z
    requires x.mantissa != locy.mantissa && x.mantissa != z.mantissa && locy.mantissa != z.mantissa
    requires x.Value().m > 0 && locy.Value().m > 0
    modifies locy.mantissa, z, z.mantissa
    ensures z.Value() == UnroundedProduct(old(x.Value()), old(locy.Value()))
  {
    z.kind, z.negative, z.exp :=
      if x.kind == Subnormal || locy.kind == Subnormal then Subnormal else Normal,
      x.negative != locy.negative,
      Short(x.exp + locy.exp);
    ClearMantissa(z.mantissa);
    assert MantissaProduct(x.Value(), locy.Value()) > 0;
    MultiplyMantissas(x.mantissa, locy.mantissa, z);
  }

  /** MultiplyInternalFPF on operands typed normal or subnormal with nonzero mantissas
      (with a zero one the C code never leaves its normalising loop).  Only y is copied,
      so z may be y but not x. */
  method MultiplyInternalFPF(x: InternalFPF, y: InternalFPF, z: InternalFPF)
    requires x.Valid() && y.Valid() && z.Valid() && x != z && Apart(x, z) && Apart(y, z)
    requires Finite(x.Value()) && Finite(y.Value()) && x.Value().m > 0 && y.Value().m > 0
    modifies z, z.mantissa
    ensures z.Value() == Multiply(old(x.Value()), old(y.Value()))
  {
    var locy := new InternalFPF();
    locy.CopyFrom(y);
    FiniteProduct(x, locy, z);
    z.Round();
  }

  /** One pass of the restoring division: a dividend bit in, the 65-bit partial
      remainder reduced below the divisor, a quotient bit out. */
  method DivideBit(locx: array<u16>, y: array<u16>, z: array<u16>, extra: array<u16>)
    requires locx.Length == y.Length == z.Length == extra.Length == PRECISION
    requires locx != y && locx != z && locx != extra && y != z && y != extra && z != extra
    requires Val(extra[..]) < Val(y[..]) && Val(z[..]) < TWO63
    modifies locx, z, extra
    ensures Division(Val(locx[..]), Val(extra[..]), Val(z[..]))
            == DividePass(old(Division(Val(locx[..]), Val(extra[..]), Val(z[..]))), Val(y[..]))
  {
    var carry := ShiftMantLeft1(0, locx);
    carry := ShiftMantLeft1(carry, extra);
    carry := ReduceRemainder(carry, extra, y);
    carry := ShiftMantLeft1(carry, z);
  }

  /** Subtract the divisor when the remainder, with its 65th bit in `carry`, is not below it. */
  method ReduceRemainder(carryIn: u16, extra: array<u16>, y: array<u16>) returns (carry: u16)
    requires y.Length == extra.Length == PRECISION && y != extra
    requires Val(extra[..]) + TWO64 * Bit(carryIn) < 2 * Val(y[..])
    modifies extra
    ensures carry == if old(Val(extra[..])) + TWO64 * Bit(carryIn) >= Val(y[..]) then 1 else 0
    ensures Val(extra[..]) == old(Val(extra[..])) + TWO64 * Bit(carryIn) - (if carry == 1 then Val(y[..]) else 0)
  {
    var less := false;
    if carryIn == 0 {
      less := Below(extra, y);
    }
    if less {
      carry := 0;
    } else {
      carry := SubMantissas(extra, extra, y);
      carry := 1;
    }
  }

  /** The division loop, into a destination whose mantissa is clear: it ends with the
      quotient's top bit set. */
  method LongDivision(locx: array<u16>, y: array<u16>, z: InternalFPF, extra: array<u16>)
    requires z.Valid() && locx.Length == y.Length == extra.Length == PRECISION
    requires locx != y && locx != z.mantissa && locx != extra && y != z.mantissa && y != extra && z.mantissa != extra
    requires Val(locx[..]) > 0 && Val(y[..]) > 0 && Val(extra[..]) == 0 && Val(z.mantissa[..]) == 0
    modifies locx, z`exp, z.mantissa, extra
    ensures z.Value() == Scaled(old(z.Value()), old(Val(locx[..])), Val(y[..]))
  {
    ghost var a, b, exp := Val(locx[..]), Val(y[..]), z.exp;
    ghost var n: nat := 0;
    while z.mantissa[0] < 0x8000
      invariant Val(y[..]) == b && z.exp == Short(exp - n)
      invariant Division(Val(locx[..]), Val(extra[..]), Val(z.mantissa[..])) == DividePasses(n, a, b)
      invariant n <= 64 + LeadingZeros(a, TWO63 * b)
      decreases 64 + LeadingZeros(a, TWO63 * b) - n
    {
      DivisionGoesOn(n, a, b);
      DivideBit(locx, y, z.mantissa, extra);
      z.exp := Short(z.exp - 1);
      ShortAgain(exp - n, -1);
      n := n + 1;
    }
    DivisionEnds(n, a, b);
  }

  method NonzeroQuotient(locx: InternalFPF, y: InternalFPF, z: InternalFPF)
    requires locx.Valid() && y.Valid() && z.Valid() && y != z && locx != z
    requires locx.mantissa != y.mantissa && locx.mantissa != z.mantissa && y.mantissa != z.mantissa
    requires locx.Value().m > 0 && y.Value().m > 0
    modifies locx.mantissa, z, z.mantissa
    ensures z.Value() == Scaled(QuotientStart(old(locx.Value()), old(y.Value())), old(locx.Value()).m, old(y.Value()).m)
  {
    z.kind, z.negative, z.exp :=
      locx.kind, locx.negative != y.negative, Short(locx.exp - y.exp + PRECISION * 16 * 2);
    ClearMantissa(z.mantissa);
    assert z.Value() == QuotientStart(old(locx.Value()), old(y.Value()));
    var extra := new u16[PRECISION](i => 0);
    Unfolded(extra[..]);
    LongDivision(locx.mantissa, y.mantissa, z, extra);
  }

  method FiniteQuotient(locx: InternalFPF, y: InternalFPF, z: InternalFPF)
    requires locx.Valid() && y.Valid() && z.Valid() && y != z && locx != z
    requires locx.mantissa != y.mantissa && locx.mantissa != z.mantissa && y.mantissa != z.mantissa
    requires Finite(locx.Value()) && Finite(y.Value())
    modifies locx.mantissa, z, z.mantissa
    ensures z.Value() == UnroundedQuotient(old(locx.Value()), old(y.Value()))
  {
    var xZero := IsMantissaZero(locx.mantissa);
    var yZero := IsMantissaZero(y.mantissa);
    if xZero {
      if yZero {
        z.SetToNaN();
      } else {
        z.SetZeroWith(false);
      }
    } else if yZero {
      z.SetInfinityWith(false);
    } else {
      NonzeroQuotient(locx, y, z);
    }
  }

  /** DivideInternalFPF on operands typed normal or subnormal, zero mantissas included.
      Only x is copied, so z may be x but not y. */
  method DivideInternalFPF(x: InternalFPF, y: InternalFPF, z: InternalFPF)
    requires x.Valid() && y.Valid() && z.Valid() && y != z && Apart(x, z) && Apart(y, z)
    requires Finite(x.Value()) && Finite(y.Value())
    modifies z, z.mantissa
    ensures z.Value() == Divide(old(x.Value()), old(y.Value()))
  {
    var locx := new InternalFPF();
    locx.CopyFrom(x);
    FiniteQuotient(locx, y, z);
    z.Round();
  }
}

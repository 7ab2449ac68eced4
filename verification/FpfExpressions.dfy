/** Whole computations: trees of sums, differences, products and quotients. */
module FpfExpressions {
  import opened Limbs
  import opened Wrappers
  import opened Arithmetic
  import opened FpfSpec
  import opened FpfValue
  import opened FpfMulDiv
  import opened FpfAddSub

  datatype Expr =
    | Leaf(x: Num)
    | Plus(left: Expr, right: Expr)
    | Minus(left: Expr, right: Expr)
    | Times(left: Expr, right: Expr)
    | Over(left: Expr, right: Expr)

  ghost predicate Positive(x: Num) { Canonical(x) && !x.negative }

  ghost predicate InRange(e: int) { MIN_EXP <= e <= MAX_EXP }

  /** Running the tree through the unit.  It has no result when a leaf is not canonical, a
      sum or difference meets equal exponents, or an exponent leaves the range.  Every result
      is canonical, so each operation meets operands on which its loops stop. */
  ghost function Eval(e: Expr): (r: Option<Num>)
    ensures r.Some? ==> Canonical(r.value)
  {
    match e
    case Leaf(x) => if Canonical(x) then Some(x) else None
    case Plus(l, r) => if Eval(l).Some? && Eval(r).Some? then RunSum(false, Eval(l).value, Eval(r).value) else None
    case Minus(l, r) => if Eval(l).Some? && Eval(r).Some? then RunSum(true, Eval(l).value, Eval(r).value) else None
    case Times(l, r) => if Eval(l).Some? && Eval(r).Some? then RunTimes(Eval(l).value, Eval(r).value) else None
    case Over(l, r) => if Eval(l).Some? && Eval(r).Some? then RunOver(Eval(l).value, Eval(r).value) else None
  }

  ghost function RunSum(subtract: bool, a: Num, b: Num): (r: Option<Num>)
    requires Canonical(a) && Canonical(b)
    ensures r.Some? ==> Canonical(r.value)
  {
    if a.exp != b.exp && InRange(ExponentOfSum(subtract, a, b)) then
      SumIsCanonical(subtract, a, b);
      Some(AddSub(subtract, a, b, SetZero(false)))
    else None
  }

  ghost function RunTimes(a: Num, b: Num): (r: Option<Num>)
    requires Canonical(a) && Canonical(b)
    ensures r.Some? ==> Canonical(r.value)
  {
    MultiplyCanonical(a, b);
    if InRange(ProductExponent(a, b)) then Some(Multiply(a, b)) else None
  }

  ghost function RunOver(a: Num, b: Num): (r: Option<Num>)
    requires Canonical(a) && Canonical(b)
    ensures r.Some? ==> Canonical(r.value)
  {
    DivideCanonical(a, b);
    if InRange(QuotientExponent(a, b)) then Some(Divide(a, b)) else None
  }

  ghost function ExponentOfSum(subtract: bool, a: Num, b: Num): int
    requires Canonical(a) && Canonical(b) && a.exp != b.exp
  {
    CombinationBounds(Larger(subtract, a, b), Smaller(subtract, a, b));
    SumExponent(Larger(subtract, a, b), Smaller(subtract, a, b))
  }

  lemma SumIsCanonical(subtract: bool, a: Num, b: Num)
    requires Canonical(a) && Canonical(b) && a.exp != b.exp && InRange(ExponentOfSum(subtract, a, b))
    ensures Canonical(AddSub(subtract, a, b, SetZero(false)))
  {
    AddSubTruncates(subtract, a, b, SetZero(false), ExactSum(subtract, a, b));
  }

  /** z is the exact value t truncated toward zero to 61 bits, with its sign. */
  ghost predicate Truncates(z: Num, t: real) {
    t != 0.0 && z.kind == Normal && IsChop(Abs(t), z.exp, z.m) && (z.negative <==> t < 0.0)
  }

  /** Every node of a tree, differences and all signs included, is its own exact operation on
      the results below it, truncated once. */
  lemma NodeTruncates(e: Expr)
    requires Eval(e).Some?
    ensures match e
      case Leaf(x) => Eval(e) == Some(x)
      case Plus(l, r) => Truncates(Eval(e).value, RealValue(Eval(l).value) + RealValue(Eval(r).value))
      case Minus(l, r) => Truncates(Eval(e).value, RealValue(Eval(l).value) - RealValue(Eval(r).value))
      case Times(l, r) => TruncatesProduct(Eval(e).value, Eval(l).value, Eval(r).value)
      case Over(l, r) => TruncatesQuotient(Eval(e).value, Eval(l).value, Eval(r).value)
  {
    match e
    case Leaf(_) =>
    case Plus(l, r) => SumTruncates(false, Eval(l).value, Eval(r).value);
    case Minus(l, r) => SumTruncates(true, Eval(l).value, Eval(r).value);
    case Times(l, r) => ProductTruncates(Eval(l).value, Eval(r).value);
    case Over(l, r) => QuotientTruncates(Eval(l).value, Eval(r).value);
  }

  // for products and quotients sizes and signs go apart
  ghost predicate TruncatesProduct(z: Num, a: Num, b: Num) {
    z.kind == Normal && (z.negative <==> a.negative != b.negative)
    && exists v: real :: Product(v, Size(a), Size(b)) && IsChop(v, z.exp, z.m)
  }

  ghost predicate TruncatesQuotient(z: Num, a: Num, b: Num) {
    z.kind == Normal && (z.negative <==> a.negative != b.negative)
    && exists v: real :: Product(Size(a), v, Size(b)) && IsChop(v, z.exp, z.m)
  }

  lemma SumTruncates(subtract: bool, a: Num, b: Num)
    requires Canonical(a) && Canonical(b) && a.exp != b.exp && InRange(ExponentOfSum(subtract, a, b))
    ensures Truncates(AddSub(subtract, a, b, SetZero(false)),
                      RealValue(a) + if subtract then -RealValue(b) else RealValue(b))
  {
    TurnedValue(subtract, b);
    AddSubTruncates(subtract, a, b, SetZero(false), ExactSum(subtract, a, b));
  }

  lemma ProductTruncates(a: Num, b: Num)
    requires Canonical(a) && Canonical(b) && InRange(ProductExponent(a, b))
    ensures TruncatesProduct(Multiply(a, b), a, b)
  {
    var v := TimesReal(Size(a), Size(b));
    MultiplyTruncates(a, b, v);
    assert Product(v, Size(a), Size(b));
  }

  lemma QuotientTruncates(a: Num, b: Num)
    requires Canonical(a) && Canonical(b) && InRange(QuotientExponent(a, b))
    ensures TruncatesQuotient(Divide(a, b), a, b)
  {
    var v := OverReal(Size(a), Size(b));
    SizePositive(b);
    DivideTruncates(a, b, v);
    assert Product(Size(a), v, Size(b));
  }

  /** The binary exponent of a size fits a short above the lowest. */
  ghost predicate Fits(v: real) { exists e :: HasExponent(v, e) && -32767 <= e <= 32767 }

  lemma RunSumDefined(subtract: bool, a: Num, b: Num, t: real)
    requires Canonical(a) && Canonical(b) && t == ExactSum(subtract, a, b)
    ensures RunSum(subtract, a, b).Some? <==> a.exp != b.exp && Fits(Abs(t))
  {
    if a.exp != b.exp {
      AddSubTruncates(subtract, a, b, SetZero(false), t);
      OnlyExponent(Abs(t), ExponentOfSum(subtract, a, b));
    }
  }

  lemma RunTimesDefined(a: Num, b: Num, v: real)
    requires Canonical(a) && Canonical(b) && Product(v, Size(a), Size(b))
    ensures RunTimes(a, b).Some? <==> Fits(v)
  {
    MultiplyTruncates(a, b, v);
    OnlyExponent(v, ProductExponent(a, b));
  }

  lemma RunOverDefined(a: Num, b: Num, v: real)
    requires Canonical(a) && Canonical(b) && Product(Size(a), v, Size(b))
    ensures RunOver(a, b).Some? <==> Fits(v)
  {
    DivideTruncates(a, b, v);
    OnlyExponent(v, QuotientExponent(a, b));
  }

  /** A sum or difference has a result exactly when the exponents differ and the exact value
      fits. */
  lemma SumDefined(subtract: bool, l: Expr, r: Expr, t: real)
    requires Eval(l).Some? && Eval(r).Some?
    requires t == RealValue(Eval(l).value) + if subtract then -RealValue(Eval(r).value) else RealValue(Eval(r).value)
    ensures Eval(if subtract then Minus(l, r) else Plus(l, r)).Some?
       <==> Eval(l).value.exp != Eval(r).value.exp && Fits(Abs(t))
  {
    TurnedValue(subtract, Eval(r).value);
    RunSumDefined(subtract, Eval(l).value, Eval(r).value, t);
  }

  /** A product or quotient has a result exactly when the exact value fits. */
  lemma ProductDefined(l: Expr, r: Expr, v: real)
    requires Eval(l).Some? && Eval(r).Some? && Product(v, Size(Eval(l).value), Size(Eval(r).value))
    ensures Eval(Times(l, r)).Some? <==> Fits(v)
  {
    RunTimesDefined(Eval(l).value, Eval(r).value, v);
  }

  lemma QuotientDefined(l: Expr, r: Expr, v: real)
    requires Eval(l).Some? && Eval(r).Some? && Product(Size(Eval(l).value), v, Size(Eval(r).value))
    ensures Eval(Over(l, r)).Some? <==> Fits(v)
  {
    RunOverDefined(Eval(l).value, Eval(r).value, v);
  }

  lemma OnlyExponent(v: real, e: int)
    requires HasExponent(v, e)
    ensures Fits(v) <==> -32767 <= e <= 32767
  {
    if Fits(v) {
      var f :| HasExponent(v, f) && -32767 <= f <= 32767;
      ExponentUnique(v, e, f);
    }
  }

  // ---------- accuracy ----------

  /** The same tree in exact arithmetic. */
  ghost function Exact(e: Expr): real {
    match e
    case Leaf(x) => RealValue(x)
    case Plus(l, r) => Exact(l) + Exact(r)
    case Minus(l, r) => Exact(l) - Exact(r)
    case Times(l, r) => TimesReal(Exact(l), Exact(r))
    case Over(l, r) => OverReal(Exact(l), Exact(r))
  }

  ghost function TimesReal(a: real, b: real): (v: real)
    ensures Product(v, a, b)
  {
    a * b
  }

  ghost function OverReal(a: real, b: real): (v: real)
    ensures b > 0.0 ==> Product(a, v, b)
  {
    if b == 0.0 then 0.0 else a / b
  }

  /** No differences and no negative leaves: nothing cancels. */
  ghost predicate OnlyPositive(e: Expr) {
    match e
    case Leaf(x) => !x.negative
    case Plus(l, r) => OnlyPositive(l) && OnlyPositive(r)
    case Minus(l, r) => false
    case Times(l, r) => OnlyPositive(l) && OnlyPositive(r)
    case Over(l, r) => OnlyPositive(l) && OnlyPositive(r)
  }

  ghost function Operations(e: Expr): nat {
    match e
    case Leaf(_) => 0
    case Plus(l, r) => Operations(l) + Operations(r) + 1
    case Minus(l, r) => Operations(l) + Operations(r) + 1
    case Times(l, r) => Operations(l) + Operations(r) + 1
    case Over(l, r) => Operations(l) + Operations(r) + 1
  }

  /** One truncation keeps at least this share of its operand: 1 - 2^-60. */
  ghost const RHO: real := 1152921504606846975.0 / 1152921504606846976.0

  ghost function Share(n: nat): (r: real)
    ensures 0.0 < r <= 1.0
  {
    if n == 0 then 1.0 else RHO * Share(n - 1)
  }

  lemma {:induction false} ShareAdd(m: nat, n: nat)
    ensures Product(Share(m + n), Share(m), Share(n))
  {
    if m > 0 {
      ShareAdd(m - 1, n);
      OneMore(Share(m - 1 + n), Share(m - 1), Share(n));
      assert m - 1 + n == m + n - 1;
    }
  }

  lemma OneMore(r: real, s: real, t: real)
    requires Product(r, s, t)
    ensures Product(RHO * r, RHO * s, t)
  {
    assert RHO * (s * t) == (RHO * s) * t;
  }

  /** z and the exact value v are within a factor s of each other, 0 < s <= 1. */
  ghost predicate Within(z: real, v: real, s: real) { z > 0.0 && v > 0.0 && s * v <= z && s * z <= v }

  /** A truncated result: between rho * v and v. */
  ghost predicate Truncated(z: real, v: real, rho: real) { v > 0.0 && rho * v <= z <= v }

  lemma MulLe(a: real, b: real, c: real, d: real)
    requires 0.0 <= a <= b && 0.0 <= c <= d
    ensures a * c <= b * d
  {
    assert (b - a) * c >= 0.0 && b * (d - c) >= 0.0;
  }

  lemma Swap(s: real, a: real, t: real, b: real)
    ensures (s * t) * (a * b) == (s * a) * (t * b)
  {
    assert (s * t) * (a * b) == s * (t * (a * b)) == s * (a * (t * b));
  }

  /** Truncating once more costs one more factor. */
  lemma TruncateWithin(z: real, v: real, exact: real, p: real, rho: real, q: real)
    requires 0.0 < p <= 1.0 && 0.0 < rho <= 1.0 && Product(q, rho, p)
    requires Truncated(z, v, rho) && Within(v, exact, p)
    ensures Within(z, exact, q)
  {
    assert rho * (p * exact) == q * exact;
    assert p * exact > 0.0;
    MulLe(rho, rho, p * exact, v);
    assert rho * v > 0.0;
    Fraction(p, rho, q);
    assert q > 0.0;
    MulLe(q, p, z, v);
  }

  lemma TimesWithin(v: real, V: real, a: real, A: real, s: real, b: real, B: real, t: real, p: real)
    requires 0.0 < s <= 1.0 && 0.0 < t <= 1.0 && Within(a, A, s) && Within(b, B, t) && Product(p, s, t)
    requires Product(v, a, b) && Product(V, A, B)
    ensures Within(v, V, p)
  {
    Swap(s, A, t, B);
    Swap(s, a, t, b);
    assert s * A > 0.0 && t * B > 0.0 && s * a > 0.0 && t * b > 0.0;
    MulLe(s * A, a, t * B, b);
    MulLe(s * a, A, t * b, B);
  }

  lemma PlusWithin(v: real, V: real, a: real, A: real, s: real, b: real, B: real, t: real, p: real)
    requires 0.0 < s <= 1.0 && 0.0 < t <= 1.0 && Within(a, A, s) && Within(b, B, t) && Product(p, s, t)
    requires v == a + b && V == A + B
    ensures Within(v, V, p)
  {
    SmallerFactor(s, t, p);
    WeakerWithin(a, A, s, p);
    WeakerWithin(b, B, t, p);
    AddWithin(a, A, b, B, p);
  }

  lemma AddWithin(a: real, A: real, b: real, B: real, p: real)
    requires Within(a, A, p) && Within(b, B, p)
    ensures Within(a + b, A + B, p)
  {
    Distribute(p, a, b);
    Distribute(p, A, B);
  }

  lemma Distribute(p: real, a: real, b: real)
    ensures p * (a + b) == p * a + p * b
  {
  }

  lemma MulPositive(a: real, b: real)
    requires a > 0.0 && b > 0.0
    ensures a * b > 0.0
  {
  }

  lemma WeakerWithin(a: real, A: real, s: real, p: real)
    requires 0.0 < p <= s && Within(a, A, s)
    ensures Within(a, A, p)
  {
    MulLe(p, s, A, A);
    MulLe(p, s, a, a);
  }

  lemma SmallerFactor(s: real, t: real, p: real)
    requires 0.0 < s <= 1.0 && 0.0 < t <= 1.0 && Product(p, s, t)
    ensures 0.0 < p <= s && p <= t
  {
    MulPositive(s, t);
    Fraction(s, t, p);
    Fraction(t, s, p);
  }

  lemma Fraction(s: real, t: real, p: real)
    requires 0.0 < s && t <= 1.0 && p == s * t
    ensures p <= s
  {
    var u := 1.0 - t;
    assert s * u >= 0.0;
    assert s * (t + u) == s * t + s * u;
  }

  lemma OverWithin(v: real, V: real, a: real, A: real, s: real, b: real, B: real, t: real, p: real)
    requires 0.0 < s <= 1.0 && 0.0 < t <= 1.0 && Within(a, A, s) && Within(b, B, t) && Product(p, s, t)
    requires Product(a, v, b) && Product(A, V, B)
    ensures Within(v, V, p)
  {
    PositiveFactor(a, v, b);
    PositiveFactor(A, V, B);
    assert s * A > 0.0 && t * b > 0.0 && s * a > 0.0 && t * B > 0.0;
    CrossMultiply(v, V, a, A, s, b, B, t, p);
    CrossMultiply(V, v, A, a, s, B, b, t, p);
  }

  lemma PositiveFactor(a: real, v: real, b: real)
    requires a > 0.0 && b > 0.0 && Product(a, v, b)
    ensures v > 0.0
  {
    if v <= 0.0 { MulLe(0.0, -v, b, b); }
  }

  /** s*A <= a and t*b <= B give s*t*(A/B) <= a/b. */
  lemma CrossMultiply(v: real, V: real, a: real, A: real, s: real, b: real, B: real, t: real, p: real)
    requires Product(a, v, b) && Product(A, V, B) && Product(p, s, t) && b > 0.0 && B > 0.0
    requires 0.0 < s * A <= a && 0.0 < t * b <= B
    ensures p * V <= v
  {
    MulLe(s * A, a, t * b, B);
    Swap(s, A, t, b);
    assert p * (A * b) == (p * V) * (B * b) by {
      assert (V * B) * b == V * (B * b);
      assert p * (V * (B * b)) == (p * V) * (B * b);
    }
    assert a * B == v * (B * b) by { assert (v * b) * B == v * (B * b); }
    AtLeast(p * V, v, B * b);
  }

  lemma ChopTruncates(v: real, z: Num)
    requires IsChop(v, z.exp, z.m)
    ensures Truncated(Size(z), v, RHO)
  {
    ChopError(v, z.exp, z.m);
    ChopPositive(v, z.exp, z.m);
  }

  lemma PlusAccurate(a: Num, b: Num, A: real, B: real, V: real, m: nat, n: nat)
    requires Positive(a) && Positive(b) && a.exp != b.exp && InRange(ExponentOfSum(false, a, b)) && V == A + B
    requires Within(Size(a), A, Share(m)) && Within(Size(b), B, Share(n))
    ensures var z := AddSub(false, a, b, SetZero(false)); Positive(z) && Within(Size(z), V, Share(m + n + 1))
  {
    var z, v := AddSub(false, a, b, SetZero(false)), Size(a) + Size(b);
    TurnedValue(false, b);
    AddSubTruncates(false, a, b, SetZero(false), v);
    ShareAdd(m, n);
    PlusWithin(v, V, Size(a), A, Share(m), Size(b), B, Share(n), Share(m + n));
    Finished(z, v, V, m + n);
  }

  lemma TimesAccurate(a: Num, b: Num, A: real, B: real, v: real, V: real, m: nat, n: nat)
    requires Positive(a) && Positive(b) && InRange(ProductExponent(a, b)) && v == Size(a) * Size(b) && Product(V, A, B)
    requires Within(Size(a), A, Share(m)) && Within(Size(b), B, Share(n))
    ensures var z := Multiply(a, b); Positive(z) && Within(Size(z), V, Share(m + n + 1))
  {
    MultiplyTruncates(a, b, v);
    ShareAdd(m, n);
    TimesWithin(v, V, Size(a), A, Share(m), Size(b), B, Share(n), Share(m + n));
    Finished(Multiply(a, b), v, V, m + n);
  }

  lemma OverAccurate(a: Num, b: Num, A: real, B: real, v: real, V: real, m: nat, n: nat)
    requires Positive(a) && Positive(b) && InRange(QuotientExponent(a, b))
    requires Product(Size(a), v, Size(b)) && Product(A, V, B)
    requires Within(Size(a), A, Share(m)) && Within(Size(b), B, Share(n))
    ensures var z := Divide(a, b); Positive(z) && Within(Size(z), V, Share(m + n + 1))
  {
    DivideTruncates(a, b, v);
    ShareAdd(m, n);
    OverWithin(v, V, Size(a), A, Share(m), Size(b), B, Share(n), Share(m + n));
    Finished(Divide(a, b), v, V, m + n);
  }

  lemma Finished(z: Num, v: real, V: real, n: nat)
    requires IsChop(v, z.exp, z.m) && Within(v, V, Share(n))
    ensures Within(Size(z), V, Share(n + 1))
  {
    ChopTruncates(v, z);
    TruncateWithin(Size(z), v, V, Share(n), RHO, Share(n + 1));
  }

  /** The computed value of e is canonical and within (1 - 2^-60)^n of the exact one. */
  ghost predicate Accurate(e: Expr) {
    Eval(e).Some? && Positive(Eval(e).value) && Within(Size(Eval(e).value), Exact(e), Share(Operations(e)))
  }

  lemma PlusCase(l: Expr, r: Expr)
    requires Eval(Plus(l, r)).Some? && Accurate(l) && Accurate(r)
    ensures Accurate(Plus(l, r))
  {
    PlusAccurate(Eval(l).value, Eval(r).value, Exact(l), Exact(r), Exact(l) + Exact(r), Operations(l), Operations(r));
  }

  lemma TimesCase(l: Expr, r: Expr)
    requires Eval(Times(l, r)).Some? && Accurate(l) && Accurate(r)
    ensures Accurate(Times(l, r))
  {
    var a, b := Eval(l).value, Eval(r).value;
    TimesAccurate(a, b, Exact(l), Exact(r), TimesReal(Size(a), Size(b)), TimesReal(Exact(l), Exact(r)),
                  Operations(l), Operations(r));
  }

  lemma OverCase(l: Expr, r: Expr)
    requires Eval(Over(l, r)).Some? && Accurate(l) && Accurate(r)
    ensures Accurate(Over(l, r))
  {
    var a, b := Eval(l).value, Eval(r).value;
    OverAccurate(a, b, Exact(l), Exact(r), OverReal(Size(a), Size(b)), OverReal(Exact(l), Exact(r)),
                 Operations(l), Operations(r));
  }

  /** After n operations on positive numbers the result is within a factor (1 - 2^-60)^n of
      the exact value, in both directions. */
  lemma {:induction false} EvalAccurate(e: Expr)
    requires Eval(e).Some? && OnlyPositive(e)
    ensures Positive(Eval(e).value) && Within(Size(Eval(e).value), Exact(e), Share(Operations(e)))
    ensures Accurate(e)
  {
    match e
    case Leaf(x) =>
      LeafAccurate(x);
    case Plus(l, r) =>
      EvalAccurate(l);
      EvalAccurate(r);
      PlusCase(l, r);
    case Times(l, r) =>
      EvalAccurate(l);
      EvalAccurate(r);
      TimesCase(l, r);
    case Over(l, r) =>
      EvalAccurate(l);
      EvalAccurate(r);
      OverCase(l, r);
  }

  lemma LeafAccurate(x: Num)
    requires Positive(x)
    ensures Within(Size(x), Size(x), Share(0))
  {
    CanonicalIsChop(x);
    ChopPositive(Size(x), x.exp, x.m);
  }
}

/** The exact value of a number, and what it means to truncate an exact value to the
    unit's 61 significant bits.  Both are stated over the reals, independently of how
    any operation computes. */
module FpfValue {
  import opened Limbs
  import opened Arithmetic
  import opened FpfSpec

  /** |x|: the mantissa read as a 64-bit fraction, times 2^exp. */
  ghost function Size(x: Num): real { x.m as real * Scale(x.exp - 64) }

  ghost function RealValue(x: Num): real { if x.negative then -Size(x) else Size(x) }

  ghost function Abs(v: real): real { if v < 0.0 then -v else v }

  /** What every operation leaves: a normal number with 61 significant bits. */
  ghost predicate Canonical(x: Num) {
    x.kind == Normal && TWO63 <= x.m < TWO64 && x.m % 8 == 0
  }

  /** v lies in the cell of the grid 8 * u that starts at m * u. */
  ghost predicate InCell(v: real, u: real, m: int) { m as real * u <= v < (m + 8) as real * u }

  /** v truncated toward zero to 61 significant bits is m * 2^(e - 64). */
  ghost predicate IsChop(v: real, e: int, m: nat) {
    TWO63 <= m < TWO64 && m % 8 == 0 && InCell(v, Scale(e - 64), m)
  }

  /** v lies in [2^(e-1), 2^e). */
  ghost predicate HasExponent(v: real, e: int) { Scale(e - 1) <= v < Scale(e) }

  /** The same truncation on integers: n / 2^j cut down to 61 bits is m. */
  ghost predicate Chops(n: nat, j: nat, m: nat) {
    TWO63 <= m < TWO64 && m % 8 == 0 && m * Pow2(j) <= n < (m + 8) * Pow2(j)
  }

  lemma ScaleOrder(a: int, b: int)
    ensures a <= b ==> Scale(a) <= Scale(b)
    ensures a < b ==> 2.0 * Scale(a) <= Scale(b)
    decreases b - a
  {
    if a < b { ScaleOrder(a, b - 1); }
  }

  lemma ChopHasExponent(v: real, e: int, m: nat)
    requires IsChop(v, e, m)
    ensures HasExponent(v, e)
  {
    ScaleUp(e - 64, 63);
    ScaleUp(e - 64, 64);
    Pow2Sixty4();
    CellBounds(v, Scale(e - 64), m, Scale(e - 1), Scale(e));
  }

  lemma CellBounds(v: real, u: real, m: nat, low: real, high: real)
    requires u > 0.0 && InCell(v, u, m) && TWO63 <= m < TWO64 && m % 8 == 0
    requires Product(low, u, TWO63 as real) && Product(high, u, TWO64 as real)
    ensures low <= v < high
  {
    assert (m - TWO63) as real * u >= 0.0 && (TWO64 - (m + 8)) as real * u >= 0.0;
  }

  lemma ExponentUnique(v: real, e: int, f: int)
    requires HasExponent(v, e) && HasExponent(v, f)
    ensures e == f
  {
    if e < f { ScaleOrder(e, f - 1); } else if f < e { ScaleOrder(f, e - 1); }
  }

  /** A value has one truncation. */
  lemma ChopUnique(v: real, e: int, m: nat, f: int, n: nat)
    requires IsChop(v, e, m) && IsChop(v, f, n)
    ensures e == f && m == n
  {
    ChopHasExponent(v, e, m);
    ChopHasExponent(v, f, n);
    ExponentUnique(v, e, f);
    SameGrid(m, n, Scale(e - 64), v);
  }

  lemma SameGrid(m: int, n: int, u: real, v: real)
    requires m % 8 == n % 8 == 0 && u > 0.0 && InCell(v, u, m) && InCell(v, u, n)
    ensures m == n
  {
    Unscale(m as real, (n + 8) as real, u, v);
    Unscale(n as real, (m + 8) as real, u, v);
  }

  lemma Unscale(a: real, b: real, u: real, v: real)
    requires u > 0.0 && a * u <= v < b * u
    ensures a < b
  {
    assert a >= b ==> (a - b) * u >= 0.0;
  }

  /** Truncation on integers is truncation of the scaled value. */
  lemma ChopScaled(v: real, n: nat, c: int, j: nat, m: nat)
    requires Product(v, n as real, Scale(c)) && Chops(n, j, m)
    ensures IsChop(v, c + j + 64, m)
  {
    ScaleUp(c, j);
    ScaleOut(v, n, m, Pow2(j), Scale(c), Scale(c + j));
    ScaleOut(v, n, m + 8, Pow2(j), Scale(c), Scale(c + j));
  }

  lemma ScaleOut(v: real, n: int, m: int, p: nat, u: real, w: real)
    requires u > 0.0 && Product(w, u, p as real) && Product(v, n as real, u)
    ensures m * p <= n ==> m as real * w <= v
    ensures n < m * p ==> v < m as real * w
  {
    assert m as real * w == (m * p) as real * u;
    var d := n - m * p;
    assert d as real * u == n as real * u - (m * p) as real * u;
  }

  /** The canonical number whose value is v is its own truncation. */
  lemma CanonicalIsChop(x: Num)
    requires Canonical(x)
    ensures IsChop(Size(x), x.exp, x.m)
  {
    var u := Scale(x.exp - 64);
    assert (x.m + 8) as real * u == x.m as real * u + 8.0 * u;
  }

  /** Canonical numbers with the same value agree field by field. */
  lemma CanonicalUnique(x: Num, y: Num)
    requires Canonical(x) && Canonical(y) && RealValue(x) == RealValue(y)
    ensures x == y
  {
    CanonicalIsChop(x);
    CanonicalIsChop(y);
    ChopPositive(Size(x), x.exp, x.m);
    ChopPositive(Size(y), y.exp, y.m);
    ChopUnique(Size(x), x.exp, x.m, y.exp, y.m);
  }

  lemma ChopPositive(v: real, e: int, m: nat)
    requires IsChop(v, e, m)
    ensures v > 0.0
  {
    assert m as real * Scale(e - 64) > 0.0;
  }

  /** Truncation loses less than one part in 2^60. */
  lemma ChopError(v: real, e: int, m: nat)
    requires IsChop(v, e, m)
    ensures m as real * Scale(e - 64) <= v
    ensures v * 1152921504606846975.0 <= m as real * Scale(e - 64) * 1152921504606846976.0
  {
    var u := Scale(e - 64);
    assert (m + 8) as real * u == m as real * u + 8.0 * u;
    assert m as real * u >= TWO63 as real * u by { assert (m - TWO63) as real * u >= 0.0; }
  }

  /** Rounding a normalised mantissa whose true exponent is e delivers the truncated
      value exactly when e fits: below MIN_EXP the number is denormalised, and beyond the
      range of a short the stored exponent has wrapped. */
  lemma RoundedTruncates(z: Num, e: int, v: real)
    requires z.kind == Normal || z.kind == Subnormal
    requires z.exp == Short(e) && IsChop(v, e, Chop(z.m))
    ensures HasExponent(v, e)
    ensures IsChop(v, Rounded(z).exp, Rounded(z).m) <==> -32767 <= e <= 32767
    ensures -32767 <= e <= 32767 ==> Rounded(z) == z.(exp := e, m := Chop(z.m))
  {
    var r := Rounded(z);
    ChopHasExponent(v, e, Chop(z.m));
    if IsChop(v, r.exp, r.m) { ChopUnique(v, e, Chop(z.m), r.exp, r.m); }
  }

  /** v = n * t with t = w * p is v = (n * p) * w. */
  lemma Regroup(v: real, n: int, np: int, p: nat, w: real, t: real)
    requires Product(v, n as real, t) && Product(t, w, p as real) && np == n * p
    ensures Product(v, np as real, w)
  {
    assert n as real * (w * p as real) == (n * p) as real * w;
  }

  lemma ShiftedUnits(v: real, n: nat, c: int, k: nat)
    requires Product(v, n as real, Scale(c))
    ensures Product(v, (n * Pow2(k)) as real, Scale(c - k))
  {
    ScaleUp(c - k, k);
    Regroup(v, n, n * Pow2(k), Pow2(k), Scale(c - k), Scale(c));
  }

  /** Lifting a mantissa and lowering its exponent by as much keeps its value. */
  lemma LiftedValue(v: real, n: nat, top: nat, c: int)
    requires n > 0 && Product(v, n as real, Scale(c))
    ensures Product(v, Lifted(n, top) as real, Scale(c - LeadingZeros(n, top)))
  {
    LiftedIsShift(n, top);
    ShiftedUnits(v, n, c, LeadingZeros(n, top));
  }
}

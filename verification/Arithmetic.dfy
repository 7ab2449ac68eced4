/** Quotients, remainders and powers of two, as integers and (for negative exponents
    too) as reals. */
module Arithmetic {

  lemma QuotientAtLeast(n: nat, b: nat, c: nat)
    requires b > 0
    ensures n / b >= c <==> c * b <= n
  {
    var q, r := n / b, n % b;
    assert n == q * b + r;
    if q >= c { assert (q - c) * b >= 0; } else { assert (c - q - 1) * b >= 0; }
  }

  /** Multiplying by a positive number keeps order. */
  lemma Ordered(a: int, b: int, p: nat)
    requires a <= b && p > 0
    ensures a * p <= b * p
    ensures a < b ==> a * p < b * p
  {
    var d := b - a;
    assert (a + d) * p == a * p + d * p;
    assert d > 0 ==> (d - 1) * p >= 0;
  }

  lemma NoSmallMultiple(k: int, d: nat)
    requires 0 < d + k * d && k * d < d
    ensures k == 0
  {
    assert k > 0 ==> (k - 1) * d >= 0;
    assert k < 0 ==> (-k - 1) * d >= 0;
  }

  lemma DivModUnique(n: nat, d: nat, q: nat, r: nat)
    requires r < d && n == q * d + r
    ensures n / d == q && n % d == r
  {
    assert n == n / d * d + n % d;
    assert (q - n / d) * d == n % d - r;
    NoSmallMultiple(q - n / d, d);
  }

  /** Dividing by twice p is dividing by p and halving; the lost bit joins the remainder. */
  lemma DivideByDouble(n: nat, p: nat)
    requires p > 0
    ensures n / (2 * p) == n / p / 2
    ensures n % (2 * p) == if n / p % 2 == 0 then n % p else p + n % p
  {
    var q, r := n / p, n % p;
    assert n == q * p + r;
    RegroupHalf(n, p, q, r, q / 2, q % 2);
    DivModUnique(n, 2 * p, q / 2, if q % 2 == 0 then r else p + r);
  }

  lemma RegroupHalf(n: nat, p: nat, q: nat, r: nat, h: nat, b: nat)
    requires n == q * p + r && q == 2 * h + b && b <= 1
    ensures n == h * (2 * p) + (if b == 0 then r else p + r)
  {
    assert (2 * h + b) * p == h * (2 * p) + b * p;
  }


  ghost function Pow2(n: nat): (p: nat)
    ensures p >= 1
  {
    if n == 0 then 1 else 2 * Pow2(n - 1)
  }

  lemma {:induction false} Pow2Add(a: nat, b: nat)
    ensures Pow2(a + b) == Pow2(a) * Pow2(b)
  {
    if a > 0 { Pow2Add(a - 1, b); }
  }

  /** One more place left doubles. */
  lemma ShiftOnce(m: nat, k: nat)
    ensures m * Pow2(k + 1) == 2 * (m * Pow2(k)) == (2 * m) * Pow2(k)
  {
    var p := Pow2(k);
    assert Pow2(k + 1) == 2 * p;
    assert m * (2 * p) == 2 * (m * p) == (2 * m) * p;
  }

  lemma {:induction false} Pow2Monotone(a: nat, b: nat)
    requires a <= b
    ensures Pow2(a) <= Pow2(b)
  {
    if a < b { Pow2Monotone(a, b - 1); }
  }

  lemma Pow2Sixty4()
    ensures Pow2(8) == 0x100 && Pow2(16) == 0x1_0000 && Pow2(32) == 0x1_0000_0000
    ensures Pow2(63) == 0x8000_0000_0000_0000
    ensures Pow2(64) == 0x1_0000_0000_0000_0000
  {
    assert Pow2(4) == 16;
    Pow2Add(4, 4);
    Pow2Add(8, 8);
    Pow2Add(16, 16);
    Pow2Add(32, 32);
  }

  /** 2^e as a real, for any integer e. */
  ghost function Scale(e: int): (r: real)
    ensures r > 0.0
    decreases if e >= 0 then e else -e
  {
    if e == 0 then 1.0 else if e > 0 then 2.0 * Scale(e - 1) else 0.5 * Scale(e + 1)
  }

  // Naming the product keeps the solver from multiplying out unfolded powers.
  ghost predicate Product(r: real, s: real, t: real) { r == s * t }

  lemma DoubleFactor(r: real, s: real, t: real, r2: real, t2: real)
    requires r2 == 2.0 * r && t2 == 2.0 * t
    ensures Product(r, s, t) <==> Product(r2, s, t2)
  {
    assert s * t2 == 2.0 * (s * t);
  }

  lemma {:induction false} ScaleAdd(a: int, b: int)
    ensures Product(Scale(a + b), Scale(a), Scale(b))
    decreases if b >= 0 then b else -b
  {
    if b > 0 {
      ScaleAdd(a, b - 1);
      DoubleFactor(Scale(a + b - 1), Scale(a), Scale(b - 1), Scale(a + b), Scale(b));
    } else if b < 0 {
      ScaleAdd(a, b + 1);
      DoubleFactor(Scale(a + b), Scale(a), Scale(b), Scale(a + b + 1), Scale(b + 1));
    }
  }

  lemma {:induction false} ScaleUp(e: int, n: nat)
    ensures Product(Scale(e + n), Scale(e), Pow2(n) as real)
  {
    if n > 0 {
      ScaleUp(e, n - 1);
      DoubleFactor(Scale(e + n - 1), Scale(e), Pow2(n - 1) as real, Scale(e + n), Pow2(n) as real);
    }
  }
}

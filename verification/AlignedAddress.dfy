/** Where the adjusted address of a block falls, and how it lies to the bytes asked for. */
module AlignedAddress {
  import opened Arithmetic
  import opened AlignedMemory

  lemma {:induction false} StopsBy(a: Ulong, c: Ulong, align: nat)
    requires align > 0 && a <= c && Multiple(c, align)
    ensures a <= NextMultiple(a, align) <= c
    decreases c - a
  {
    if a != 0 && !Multiple(a, align) { StopsBy(a + 1, c, align); }
  }

  lemma MultipleNear(a: nat, p: nat) returns (c: nat)
    requires p > 0
    ensures a <= c < a + p && c % p == 0
  {
    var q, r := a / p, a % p;
    assert a == q * p + r;
    if r == 0 { return a; }
    c := (q + 1) * p;
    assert c == q * p + p;
    DivModUnique(c, p, q + 1, 0);
  }

  lemma OddNext(m: nat, p: nat)
    requires p > 0 && m % p == 0
    ensures if m % (2 * p) == 0 then (m + p) % (2 * p) == p else m % (2 * p) == p
  {
    DivideByDouble(m, p);
    if m % (2 * p) == 0 {
      var q := m / (2 * p);
      assert m == q * (2 * p);
      DivModUnique(m + p, 2 * p, q, p);
    }
  }

  lemma SameWindow(x: nat, y: nat, p: nat)
    requires p > 0 && x <= y < x + p && x % p == y % p
    ensures x == y
  {
    var q, q', r := x / p, y / p, x % p;
    assert x == q * p + r && y == q' * p + r;
    assert y - x == (q' - q) * p;
    if q < q' { Ordered(1, q' - q, p); } else { Ordered(q', q, p); }
  }

  lemma MultipleAt(x: nat, p: nat)
    requires p > 0 && x % (2 * p) == p
    ensures x % p == 0
  {
    var q := x / (2 * p);
    assert x == q * (2 * p) + p == (2 * q + 1) * p;
    DivModUnique(x, p, 2 * q + 1, 0);
  }

  /** An odd multiple of the alignment among the 2 * align addresses from a on is where a
      block at a is adjusted to. */
  lemma AdjustedTo(a: Ulong, ptr: Ulong, align: nat)
    requires 0 < align < ALIGN_LIMIT && a <= ptr < a + 2 * align && ptr % (2 * align) == align
    ensures Adjusted(a, align) == ptr
  {
    if align > 1 {
      var m := NextMultiple(a, align);
      MultipleAt(ptr, align);
      StopsBy(a, ptr, align);
      OddNext(m, align);
      if m % (2 * align) == 0 { EvenBelowOdd(m, ptr, align); } else { SameWindow(m, ptr, 2 * align); }
    }
  }

  lemma EvenBelowOdd(m: nat, x: nat, p: nat)
    requires p > 0 && m <= x < m + 2 * p && m % (2 * p) == 0 && x % (2 * p) == p
    ensures x == m + p
  {
    var q := m / (2 * p);
    assert m == q * (2 * p);
    DivModUnique(m + p, 2 * p, q, p);
    if x <= m + p { SameWindow(x, m + p, 2 * p); } else { SameWindow(m + p, x, 2 * p); }
  }

  /** In a block that ends inside the address space, the adjusted address is the one odd
      multiple of the alignment among its first 2 * align bytes. */
  lemma AdjustedIsOddMultiple(a: Ulong, align: nat)
    requires 0 < align < ALIGN_LIMIT && a + 2 * align <= SPACE
    ensures a <= Adjusted(a, align) < a + 2 * align
    ensures Adjusted(a, align) % (2 * align) == align
    ensures forall x :: a <= x < a + 2 * align && x % (2 * align) == align ==> x == Adjusted(a, align)
  {
    var r := Adjusted(a, align);
    if align > 1 {
      var c := MultipleNear(a, align);
      StopsBy(a, c, align);
      OddNext(NextMultiple(a, align), align);
    }
    forall x | a <= x < a + 2 * align && x % (2 * align) == align ensures x == r {
      if x <= r { SameWindow(x, r, 2 * align); } else { SameWindow(r, x, 2 * align); }
    }
  }

  lemma {:induction false} StopsPastEnd(a: Ulong, align: nat)
    requires align > 0 && forall c :: a <= c < SPACE ==> !Multiple(c, align)
    ensures NextMultiple(a, align) == 0
    decreases SPACE - a
  {
    assert !Multiple(a, align);
    if a + 1 < SPACE { StopsPastEnd(a + 1, align); }
  }

  lemma ZeroIsEven(p: nat)
    requires p > 0
    ensures 0 % (2 * p) == 0 && 0 % p == 0
  {
  }

  /** Past the last odd multiple below the end of the address space: an even one c still
      ahead is passed by align places across the end; with none ahead the address comes to
      align itself. */
  lemma AdjustedAcrossEnd(a: Ulong, c: int, align: nat)
    requires 1 < align < ALIGN_LIMIT && a <= c <= SPACE
    requires forall x :: a <= x < c ==> !Multiple(x, align)
    requires c < SPACE ==> c % (2 * align) == 0 && c + align >= SPACE
    ensures Adjusted(a, align) == if c < SPACE then c + align - SPACE else align
  {
    if c < SPACE {
      EvenIsMultiple(c, align);
      StopsBy(a, c, align);
    } else {
      StopsPastEnd(a, align);
      ZeroIsEven(align);
    }
  }

  lemma EvenIsMultiple(c: nat, p: nat)
    requires p > 0 && c % (2 * p) == 0
    ensures c % p == 0
  {
    var q := c / (2 * p);
    assert c == q * (2 * p) == (2 * q) * p;
    DivModUnique(c, p, 2 * q, 0);
  }

  /** The caller's bytes lie inside the block exactly when the size asked of malloc did not
      wrap around. */
  lemma CallerInsideExactlyWithoutWrap(a: Ulong, nbytes: Ulong, align: nat)
    requires align < ALIGN_LIMIT && a + Requested(nbytes, align) <= SPACE
    ensures nbytes + 2 * align < SPACE <==>
      a <= Adjusted(a, align) && Adjusted(a, align) + nbytes <= a + Requested(nbytes, align)
  {
    if nbytes + 2 * align < SPACE && align > 0 { AdjustedIsOddMultiple(a, align); }
  }
}

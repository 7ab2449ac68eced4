/** The 64-bit mantissas of the software floating-point unit: four 16-bit limbs,
    most significant first, changed in place one limb at a time.

    `Val` reads four limbs as one integer; every routine below is specified by
    what it does to that integer.  The C masks are written as arithmetic on the
    limb: `x & 0x8000` is a comparison with 0x8000, `x & 1` is `x % 2`, and so on. */
module Limbs {

  type u16 = x: int | 0 <= x < 0x10000
  type u32 = x: int | 0 <= x < 0x1_0000_0000

  // INTERNAL_FPF_PRECISION
  const PRECISION := 4

  const TWO63 := 0x8000_0000_0000_0000
  const TWO64 := 0x1_0000_0000_0000_0000

  /** The integer spelled by limbs 0, ..., i-1. */
  ghost function Prefix(m: seq<u16>, i: nat): nat
    requires i <= |m|
  {
    if i == 0 then 0 else 0x10000 * Prefix(m, i - 1) + m[i - 1]
  }

  /** The mantissa as one 64-bit integer. */
  ghost function Val(m: seq<u16>): (v: nat)
    requires |m| == PRECISION
    ensures v < TWO64
    ensures v >= TWO63 <==> m[0] >= 0x8000
  {
    Unfolded(m);
    Prefix(m, PRECISION)
  }

  lemma Unfolded(m: seq<u16>)
    requires |m| == PRECISION
    ensures Prefix(m, PRECISION)
            == 0x1_0000_0000_0000 * (m[0] as int) + 0x1_0000_0000 * (m[1] as int) + 0x10000 * (m[2] as int) + m[3]
  {
    assert Prefix(m, 2) == 0x10000 * Prefix(m, 1) + m[1];
  }

  lemma LowBits(m: seq<u16>)
    requires |m| == PRECISION
    ensures Val(m) % 8 == m[3] % 8 && Val(m) % 2 == m[3] % 2
  {
    Unfolded(m);
    var upper := 0x2000_0000_0000 * (m[0] as int) + 0x2000_0000 * (m[1] as int) + 0x2000 * (m[2] as int);
    LastThreeBits(Val(m), upper, m[3]);
  }

  lemma SameUpper(m: seq<u16>, n: seq<u16>)
    requires |m| == |n| == PRECISION && m[..3] == n[..3]
    ensures Val(n) - Val(m) == n[3] as int - m[3] as int
  {
    Unfolded(m);
    Unfolded(n);
    assert forall i :: 0 <= i < 3 ==> m[i] == m[..3][i] == n[i];
  }

  lemma LastThreeBits(v: nat, upper: nat, x: nat)
    requires v == 8 * upper + x
    ensures v % 8 == x % 8 && v % 2 == x % 2
  {
    Residue(v, 8, upper + x / 8, x % 8);
    Residue(v, 2, 4 * upper + x / 2, x % 2);
  }

  lemma Residue(v: nat, d: nat, q: nat, r: nat)
    requires ((d == 8 && v == 8 * q + r) || (d == 2 && v == 2 * q + r)) && r < d
    ensures v % d == r
  {
  }

  /** One column of a carry chain: limb a with carry c out equals limbs b and d with carry cIn in. */
  ghost predicate Column(a: int, c: nat, b: int, d: int, cIn: nat) {
    a + 0x10000 * c == b + d + cIn
  }

  /** Four columns chained low limb first add up to one equation on the whole
      integers.  Addition reads it left to right, subtraction right to left, and a
      shift by one place is the case b == d. */
  lemma CarryChain(a: seq<u16>, b: seq<u16>, d: seq<u16>, c: seq<nat>)
    requires |a| == |b| == |d| == PRECISION && |c| == PRECISION + 1
    requires forall j :: 0 <= j < PRECISION ==> Column(a[j], c[j], b[j], d[j], c[j + 1])
    ensures Val(a) + TWO64 * c[0] == Val(b) + Val(d) + c[PRECISION]
  {
    Unfolded(a);
    Unfolded(b);
    Unfolded(d);
    assert Column(a[0], c[0], b[0], d[0], c[1]) && Column(a[1], c[1], b[1], d[1], c[2]);
    assert Column(a[2], c[2], b[2], d[2], c[3]) && Column(a[3], c[3], b[3], d[3], c[4]);
  }

  /** A carry as the hardware sees it: set or clear. */
  function Bit(c: u16): (b: nat)
    ensures b <= 1
  {
    if c != 0 then 1 else 0
  }

  // x | 1, x | 0x8000 and x & 0xfff8 on one limb.
  function OrLow(x: u16): u16 { if x % 2 == 0 then x + 1 else x }
  function OrTop(x: u16): u16 { if x < 0x8000 then x + 0x8000 else x }
  function ChopLow(x: u16): u16 { x - x % 8 }

  /** b + c + carry in the 32-bit accumulator: low half and carry out. */
  method Add16Bits(carry: u16, b: u16, c: u16) returns (newCarry: u16, a: u16)
    requires carry <= 1
    ensures newCarry <= 1
    ensures Column(a, newCarry, b, c, carry)
  {
    var accum: u32 := b;
    accum := accum + c;
    accum := accum + carry;
    newCarry := if accum / 0x10000 % 2 != 0 then 1 else 0;
    a := accum % 0x10000;
  }

  /** b - c - borrow in the 32-bit accumulator, which wraps: low half and borrow out. */
  method Sub16Bits(borrow: u16, b: u16, c: u16) returns (newBorrow: u16, a: u16)
    requires borrow <= 1
    ensures newBorrow <= 1
    ensures Column(b, newBorrow, a, c, borrow)
  {
    var accum: u32 := b;
    accum := (accum - c) % 0x1_0000_0000;
    accum := (accum - borrow) % 0x1_0000_0000;
    assert accum == if b < c + borrow as int then 0x1_0000_0000 + b - c - borrow else b - c - borrow;
    assert accum / 0x10000 == if b < c + borrow as int then 0xFFFF else 0;
    newBorrow := if accum / 0x10000 % 2 != 0 then 1 else 0;
    a := accum % 0x10000;
  }

  /** One limb of the left shift: accum << 1 in sixteen bits, the old carry in, the top bit out. */
  method ShiftLimbLeft(carry: u16, x: u16) returns (newCarry: u16, accum: u16)
    ensures newCarry in {0, 0x8000}
    ensures Column(accum, Bit(newCarry), x, x, Bit(carry))
  {
    newCarry := if x >= 0x8000 then 0x8000 else 0;
    var wide: int := x;
    accum := 2 * wide % 0x10000;
    if carry != 0 { accum := OrLow(accum); }
  }

  /** One limb of the right shift: accum >> 1, the old carry in, the bottom bit out. */
  method ShiftLimbRight(carry: u16, x: u16) returns (newCarry: u16, accum: u16)
    ensures newCarry <= 1
    ensures Column(x, Bit(carry), accum, accum, newCarry)
  {
    newCarry := x % 2;
    accum := x / 2;
    if carry != 0 { accum := OrTop(accum); }
  }

  method IsMantissaZero(m: array<u16>) returns (zero: bool)
    requires m.Length == PRECISION
    ensures zero <==> Val(m[..]) == 0
  {
    // n |= mant[i] leaves n zero exactly while every limb so far was zero
    var n := false;
    for i := 0 to PRECISION
      invariant n <==> exists j :: 0 <= j < i && m[j] != 0
    {
      n := n || m[i] != 0;
    }
    Unfolded(m[..]);
    zero := !n;
  }

  /** One place left: the carry comes in at the bottom and the old top bit goes out. */
  method ShiftMantLeft1(carryIn: u16, m: array<u16>) returns (carry: u16)
    requires m.Length == PRECISION
    modifies m
    ensures carry in {0, 0x8000}
    ensures Val(m[..]) + TWO64 * Bit(carry) == 2 * old(Val(m[..])) + Bit(carryIn)
  {
    carry := carryIn;
    var i := PRECISION - 1;
    ghost var was := m[..];
    ghost var c: seq<nat> := [0, 0, 0, 0, Bit(carryIn)];
    while i >= 0
      invariant -1 <= i < PRECISION
      invariant |c| == PRECISION + 1 && c[PRECISION] == Bit(carryIn) && c[i + 1] == Bit(carry)
      invariant i < PRECISION - 1 ==> carry in {0, 0x8000}
      invariant forall j :: 0 <= j <= i ==> m[j] == was[j]
      invariant forall j :: i < j < PRECISION ==> Column(m[j], c[j], was[j], was[j], c[j + 1])
    {
      var accum;
      carry, accum := ShiftLimbLeft(carry, m[i]);
      m[i] := accum;
      c := c[i := Bit(carry)];
      i := i - 1;
    }
    CarryChain(m[..], was, was, c);
  }

  /** One place right: the carry comes in at the top and the old bottom bit goes out. */
  method ShiftMantRight1(carryIn: u16, m: array<u16>) returns (carry: u16)
    requires m.Length == PRECISION
    modifies m
    ensures carry <= 1
    ensures 2 * Val(m[..]) + carry == old(Val(m[..])) + TWO64 * Bit(carryIn)
  {
    carry := carryIn;
    ghost var was := m[..];
    ghost var c: seq<nat> := [Bit(carryIn), 0, 0, 0, 0];
    for i := 0 to PRECISION
      invariant |c| == PRECISION + 1 && c[0] == Bit(carryIn) && c[i] == Bit(carry)
      invariant i > 0 ==> carry <= 1
      invariant forall j :: i <= j < PRECISION ==> m[j] == was[j]
      invariant forall j :: 0 <= j < i ==> Column(was[j], c[j], m[j], m[j], c[j + 1])
    {
      var accum;
      carry, accum := ShiftLimbRight(carry, m[i]);
      m[i] := accum;
      c := c[i + 1 := Bit(carry)];
    }
    CarryChain(was, m[..], m[..], c);
  }

  /** The inline loop z := x + y over the limbs, low limb first; z may be x or y. */
  method AddMantissas(z: array<u16>, x: array<u16>, y: array<u16>) returns (carry: u16)
    requires z.Length == x.Length == y.Length == PRECISION
    modifies z
    ensures carry <= 1
    ensures Val(z[..]) + TWO64 * carry == old(Val(x[..])) + old(Val(y[..]))
  {
    carry := 0;
    var i := PRECISION - 1;
    ghost var xs, ys := x[..], y[..];
    ghost var c: seq<nat> := [0, 0, 0, 0, 0];
    while i >= 0
      invariant -1 <= i < PRECISION
      invariant |c| == PRECISION + 1 && c[PRECISION] == 0 && c[i + 1] == carry <= 1
      invariant forall j :: 0 <= j <= i ==> x[j] == xs[j] && y[j] == ys[j]
      invariant forall j :: i < j < PRECISION ==> Column(z[j], c[j], xs[j], ys[j], c[j + 1])
    {
      var a;
      carry, a := Add16Bits(carry, x[i], y[i]);
      z[i] := a;
      c := c[i := carry];
      i := i - 1;
    }
    CarryChain(z[..], xs, ys, c);
  }

  /** The inline loop z := x - y over the limbs, low limb first; z may be x or y. */
  method SubMantissas(z: array<u16>, x: array<u16>, y: array<u16>) returns (borrow: u16)
    requires z.Length == x.Length == y.Length == PRECISION
    modifies z
    ensures borrow <= 1
    ensures Val(z[..]) - TWO64 * borrow == old(Val(x[..])) - old(Val(y[..]))
  {
    borrow := 0;
    var i := PRECISION - 1;
    ghost var xs, ys := x[..], y[..];
    ghost var c: seq<nat> := [0, 0, 0, 0, 0];
    while i >= 0
      invariant -1 <= i < PRECISION
      invariant |c| == PRECISION + 1 && c[PRECISION] == 0 && c[i + 1] == borrow <= 1
      invariant forall j :: 0 <= j <= i ==> x[j] == xs[j] && y[j] == ys[j]
      invariant forall j :: i < j < PRECISION ==> Column(xs[j], c[j], z[j], ys[j], c[j + 1])
    {
      var a;
      borrow, a := Sub16Bits(borrow, x[i], y[i]);
      z[i] := a;
      c := c[i := borrow];
      i := i - 1;
    }
    CarryChain(xs, z[..], ys, c);
  }

  /** The inline loop m := 0 - m, which turns a borrowed difference back into a magnitude. */
  method NegateMantissa(m: array<u16>)
    requires m.Length == PRECISION
    modifies m
    ensures Val(m[..]) == if old(Val(m[..])) == 0 then 0 else TWO64 - old(Val(m[..]))
  {
    var borrow := 0;
    var i := PRECISION - 1;
    ghost var was := m[..];
    ghost var zero: seq<u16> := [0, 0, 0, 0];
    ghost var c: seq<nat> := [0, 0, 0, 0, 0];
    while i >= 0
      invariant -1 <= i < PRECISION
      invariant |c| == PRECISION + 1 && c[PRECISION] == 0 && c[i + 1] == borrow <= 1
      invariant forall j :: 0 <= j <= i ==> m[j] == was[j]
      invariant forall j :: i < j < PRECISION ==> Column(zero[j], c[j], m[j], was[j], c[j + 1])
    {
      var a;
      borrow, a := Sub16Bits(borrow, 0, m[i]);
      m[i] := a;
      c := c[i := borrow];
      i := i - 1;
    }
    CarryChain(zero, m[..], was, c);
    Unfolded(zero);
  }

  /** The limb-by-limb comparison, high limb first with early exits: is m smaller than d? */
  method Below(m: array<u16>, d: array<u16>) returns (less: bool)
    requires m.Length == d.Length == PRECISION
    ensures less <==> Val(m[..]) < Val(d[..])
  {
    Unfolded(m[..]);
    Unfolded(d[..]);
    for j := 0 to PRECISION
      invariant forall k :: 0 <= k < j ==> m[k] == d[k]
    {
      if d[j] > m[j] { return true; }
      if d[j] < m[j] { return false; }
    }
    return false;
  }

  /** mantissa[i] = 0 for every limb. */
  method ClearMantissa(m: array<u16>)
    requires m.Length == PRECISION
    modifies m
    ensures m[..] == [0, 0, 0, 0] && Val(m[..]) == 0
  {
    for i := 0 to PRECISION
      invariant forall j :: 0 <= j < i ==> m[j] == 0
    {
      m[i] := 0;
    }
    Unfolded(m[..]);
  }

  // mantissa[0] |= 0x8000
  method TopBit(m: array<u16>)
    requires m.Length == PRECISION
    modifies m
    ensures Val(m[..]) == if old(Val(m[..])) < TWO63 then old(Val(m[..])) + TWO63 else old(Val(m[..]))
  {
    Unfolded(m[..]);
    m[0] := OrTop(m[0]);
    Unfolded(m[..]);
  }

  // mantissa[3] |= 1
  method LowBit(m: array<u16>)
    requires m.Length == PRECISION
    modifies m
    ensures Val(m[..]) == if old(Val(m[..])) % 2 == 0 then old(Val(m[..])) + 1 else old(Val(m[..]))
  {
    ghost var was := m[..];
    LowBits(was);
    m[PRECISION - 1] := OrLow(m[PRECISION - 1]);
    SameUpper(was, m[..]);
  }

  // mantissa[3] &= 0xfff8
  method ChopBits(m: array<u16>)
    requires m.Length == PRECISION
    modifies m
    ensures Val(m[..]) == old(Val(m[..])) - old(Val(m[..])) % 8
  {
    ghost var was := m[..];
    LowBits(was);
    m[3] := ChopLow(m[3]);
    SameUpper(was, m[..]);
  }
}

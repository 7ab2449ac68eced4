/** The 32-bit CRC of crc_32.c: the loop that goes a byte at a time through a table, and
    the bit-serial shift register it stands for. */
module Crc32 {
  import opened Wrappers
  import opened CrcTable

  // ---------- the code ----------

  /** UPDC32(octet, crc) */
  function UpdateCrc32(octet: bv8, crc: bv32): bv32 {
    IndexInTable(Xor(crc, octet as bv32));
    Xor(Crc32Tab(Xor(crc, octet as bv32) & 0xff), crc >> 8)
  }

  lemma IndexInTable(x: bv32)
    ensures x & 0xff < 256
  {
  }

  function Register(r: bv32, buf: seq<bv8>): bv32
    decreases |buf|
  {
    if buf == [] then r else Register(UpdateCrc32(buf[0], r), buf[1..])
  }

  const START: bv32 := 0xffff_ffff

  function Complement(r: bv32): bv32 { !r }

  /** All-ones start, one table step a byte, final complement. */
  function Crc(buf: seq<bv8>): bv32 { Complement(Register(START, buf)) }

  /** crc32buf: `len` counts down while the pointer moves up. */
  method Crc32Buf(buf: array<bv8>, len: nat) returns (crc: bv32)
    requires len <= buf.Length
    ensures crc == Crc(buf[..len])
  {
    var oldcrc32 := START;
    var p, left := 0, len;
    while left > 0
      invariant p + left == len
      invariant Register(START, buf[..len]) == Register(oldcrc32, buf[p..len])
    {
      assert buf[p..len][0] == buf[p] && buf[p..len][1..] == buf[p + 1..len];
      oldcrc32 := UpdateCrc32(buf[p], oldcrc32);
      left, p := left - 1, p + 1;
    }
    assert buf[p..len] == [];
    return Complement(oldcrc32);
  }

  /** crc32file: file holds the bytes that getc delivers, if the file can be opened, failed
      is what ferror says of it afterwards and was is the old value of *crc. */
  method Crc32File(file: Option<seq<bv8>>, failed: bool, was: bv32) returns (success: bool, crc: bv32, charcnt: int)
    ensures file.None? ==> !success && crc == was && charcnt == 0
    ensures file.Some? ==>
      success && crc == Crc(file.value) && charcnt == if failed then -1 else |file.value|
  {
    var oldcrc32 := START;
    charcnt := 0;
    if file.None? { return false, was, charcnt; }
    var bytes := file.value;
    while charcnt < |bytes|
      invariant 0 <= charcnt <= |bytes|
      invariant Register(START, bytes) == Register(oldcrc32, bytes[charcnt..])
    {
      var c := bytes[charcnt];
      assert bytes[charcnt..][1..] == bytes[charcnt + 1..];
      charcnt := charcnt + 1;
      oldcrc32 := UpdateCrc32(c, oldcrc32);
    }
    assert bytes[charcnt..] == [];
    if failed { charcnt := -1; }
    crc := Complement(oldcrc32);
    success := true;
  }

  // ---------- the register, a bit at a time ----------

  /** The hardware register: the data bit meets the lowest-order bit, then one place right. */
  function FeedBit(r: bv32, bit: bool): bv32 { ShiftPlace(if bit then Xor(r, 1) else r) }

  function FeedBits(r: bv32, bits: seq<bool>): bv32
    decreases |bits|
  {
    if bits == [] then r else FeedBits(FeedBit(r, bits[0]), bits[1..])
  }

  /** The low n bits of w, lowest first, the order of transmission; and w without them. */
  function LowBits(w: bv32, n: nat): (bits: seq<bool>)
    ensures |bits| == n
    decreases n
  {
    if n == 0 then [] else [Odd(w)] + LowBits(w >> 1, n - 1)
  }

  function Down(w: bv32, n: nat): bv32
    decreases n
  {
    if n == 0 then w else Down(w >> 1, n - 1)
  }

  /** The n low bits of each byte, in order; a buffer is transmitted eight bits a byte. */
  function BitsOf(buf: seq<bv8>, n: nat): (bits: seq<bool>)
    ensures |bits| == n * |buf|
    decreases |buf|
  {
    if buf == [] then [] else LowBits(buf[0] as bv32, n) + BitsOf(buf[1..], n)
  }

  function Bits(buf: seq<bv8>): (bits: seq<bool>)
    ensures |bits| == 8 * |buf|
  {
    BitsOf(buf, 8)
  }

  lemma {:induction false} FeedConcat(r: bv32, a: seq<bool>, b: seq<bool>)
    ensures FeedBits(r, a + b) == FeedBits(FeedBits(r, a), b)
    decreases |a|
  {
    if a == [] {
      assert a + b == b;
    } else {
      assert (a + b)[0] == a[0] && (a + b)[1..] == a[1..] + b;
      FeedConcat(FeedBit(r, a[0]), a[1..], b);
    }
  }

  lemma XorParts(r: bv32, w: bv32)
    ensures Odd(w) ==> Xor(Xor(r, 1), w & 0xffff_fffe) == Xor(r, w)
    ensures !Odd(w) ==> Xor(r, w & 0xffff_fffe) == Xor(r, w)
  {
  }

  lemma ShiftEven(w: bv32)
    ensures ShiftPlace(w & 0xffff_fffe) == w >> 1
  {
  }

  /** A word combined with the register is its lowest bit fed in and the rest still combined. */
  lemma Absorb(r: bv32, w: bv32)
    ensures ShiftPlace(Xor(r, w)) == Xor(FeedBit(r, Odd(w)), w >> 1)
  {
    XorParts(r, w);
    ShiftEven(w);
    ShiftPlaceLinear(if Odd(w) then Xor(r, 1) else r, w & 0xffff_fffe);
  }

  lemma {:induction false} AbsorbBits(r: bv32, w: bv32, n: nat)
    ensures Shift(Xor(r, w), n) == Xor(FeedBits(r, LowBits(w, n)), Down(w, n))
    decreases n
  {
    if n > 0 {
      Absorb(r, w);
      AbsorbBits(FeedBit(r, Odd(w)), w >> 1, n - 1);
      assert LowBits(w, n)[1..] == LowBits(w >> 1, n - 1);
    }
  }

  // ---------- the table step is eight bits ----------

  lemma {:induction false} ShiftDown(w: bv32, n: nat)
    requires Xor(FeedBits(0, LowBits(w, n)), Down(w, n)) == Down(w, n)
    ensures Shift(w, n) == Down(w, n)
  {
    AbsorbBits(0, w, n);
    XorZero(w);
  }

  lemma XorZero(w: bv32)
    ensures Xor(0, w) == w && Xor(w, 0) == w
  {
  }

  /** With its low byte clear, a register just moves down. */
  lemma HighPart(x: bv32)
    ensures LowBits(x & 0xffff_ff00, 8) == [false, false, false, false, false, false, false, false]
    ensures Down(x & 0xffff_ff00, 8) == x >> 8
  {
  }

  lemma ZeroBits()
    ensures FeedBits(0, [false, false, false, false, false, false, false, false]) == 0
  {
  }

  lemma SplitLowByte(x: bv32)
    ensures Xor(x & 0xff, x & 0xffff_ff00) == x
  {
  }

  lemma ByteOnly(octet: bv8, crc: bv32)
    ensures Down(octet as bv32, 8) == 0
    ensures crc >> 8 == Xor(crc, octet as bv32) >> 8
  {
  }

  /** Eight places of the whole register: the table's entry for its low byte, and the rest moved down. */
  lemma ShiftPlaceAll(x: bv32)
    ensures Shift(x, 8) == Xor(Shift(x & 0xff, 8), x >> 8)
  {
    SplitLowByte(x);
    ShiftLinear(x & 0xff, x & 0xffff_ff00, 8);
    HighPart(x);
    ZeroBits();
    XorZero(x >> 8);
    ShiftDown(x & 0xffff_ff00, 8);
  }

  lemma TableStep(octet: bv8, crc: bv32)
    ensures UpdateCrc32(octet, crc) == Shift(Xor(crc, octet as bv32), 8)
  {
    var x := Xor(crc, octet as bv32);
    IndexInTable(x);
    ByteOnly(octet, crc);
    TableEntry(x & 0xff);
    ShiftPlaceAll(x);
  }

  /** One table step is eight bit steps. */
  lemma ByteStep(octet: bv8, crc: bv32)
    ensures UpdateCrc32(octet, crc) == FeedBits(crc, LowBits(octet as bv32, 8))
  {
    TableStep(octet, crc);
    ByteOnly(octet, crc);
    AbsorbBits(crc, octet as bv32, 8);
    XorZero(FeedBits(crc, LowBits(octet as bv32, 8)));
  }

  /** For every buffer the table-driven loop computes the bit-serial register. */
  lemma {:induction false} RegisterIsBitSerial(r: bv32, buf: seq<bv8>)
    ensures Register(r, buf) == FeedBits(r, Bits(buf))
    decreases |buf|
  {
    if buf != [] {
      ByteStep(buf[0], r);
      RegisterIsBitSerial(UpdateCrc32(buf[0], r), buf[1..]);
      FeedConcat(r, LowBits(buf[0] as bv32, 8), Bits(buf[1..]));
    }
  }

  /** The checksum is the bit-serial register from all ones, complemented. */
  lemma CrcIsBitSerial(buf: seq<bv8>)
    ensures Crc(buf) == Xor(FeedBits(0xffff_ffff, Bits(buf)), 0xffff_ffff)
  {
    RegisterIsBitSerial(START, buf);
    ComplementIsXor(Register(START, buf));
  }

  lemma ComplementIsXor(r: bv32)
    ensures Complement(r) == Xor(r, 0xffff_ffff)
  {
  }
}

/** What the checksum guarantees to its users: the good-FCS test of section C.3 of
    RFC 1662, and detection of every burst of at most 32 bits. */
module CrcGuarantees {
  import opened CrcTable
  import opened Crc32

  // ---------- the register loses nothing ----------

  lemma PlaceInjective(r: bv32, s: bv32)
    requires ShiftPlace(r) == ShiftPlace(s)
    ensures r == s
  {
  }

  lemma FeedBitInjective(r: bv32, s: bv32, bit: bool)
    requires FeedBit(r, bit) == FeedBit(s, bit)
    ensures r == s
  {
    PlaceInjective(if bit then Xor(r, 1) else r, if bit then Xor(s, 1) else s);
    if bit { XorInjective(r, s, 1); }
  }

  lemma XorInjective(r: bv32, s: bv32, w: bv32)
    requires Xor(r, w) == Xor(s, w)
    ensures r == s
  {
    XorTwice(r, w);
    XorTwice(s, w);
  }

  lemma XorTwice(r: bv32, w: bv32)
    ensures Xor(Xor(r, w), w) == r
  {
  }

  /** Feeding the same bits keeps different registers different; with FeedOnto, the register is
      a bijection for each fixed input. */
  lemma {:induction false} FeedInjective(r: bv32, s: bv32, bits: seq<bool>)
    requires FeedBits(r, bits) == FeedBits(s, bits)
    ensures r == s
    decreases |bits|
  {
    if bits != [] {
      FeedInjective(FeedBit(r, bits[0]), FeedBit(s, bits[0]), bits[1..]);
      FeedBitInjective(r, s, bits[0]);
    }
  }

  // the place before: the polynomial's top bit tells whether a one was shifted out
  function PlaceBack(s: bv32): bv32 {
    if s & 0x8000_0000 != 0 then ((s ^ 0xedb8_8320) << 1) | 1 else s << 1
  }

  lemma OddBack(s: bv32)
    requires s & 0x8000_0000 != 0
    ensures Odd(((s ^ 0xedb8_8320) << 1) | 1)
    ensures ((((s ^ 0xedb8_8320) << 1) | 1) >> 1) ^ 0xedb8_8320 == s
  {
  }

  lemma EvenBack(s: bv32)
    requires s & 0x8000_0000 == 0
    ensures !Odd(s << 1) && (s << 1) >> 1 == s
  {
  }

  lemma PlaceUndone(s: bv32)
    ensures ShiftPlace(PlaceBack(s)) == s
  {
    if s & 0x8000_0000 != 0 { OddBack(s); } else { EvenBack(s); }
  }

  /** Every register is reached from some register by the same bits. */
  lemma {:induction false} FeedOnto(s: bv32, bits: seq<bool>) returns (r: bv32)
    ensures FeedBits(r, bits) == s
    decreases |bits|
  {
    if bits == [] { return s; }
    var next := FeedOnto(s, bits[1..]);
    PlaceUndone(next);
    r := if bits[0] then Xor(PlaceBack(next), 1) else PlaceBack(next);
    if bits[0] { XorTwice(PlaceBack(next), 1); }
  }

  lemma {:induction false} ShiftInjective(r: bv32, s: bv32, n: nat)
    requires Shift(r, n) == Shift(s, n)
    ensures r == s
    decreases n
  {
    if n > 0 {
      ShiftInjective(ShiftPlace(r), ShiftPlace(s), n - 1);
      PlaceInjective(r, s);
    }
  }

  // ---------- the good-FCS value ----------

  // PPPGOODFCS32 of section C.3 of RFC 1662
  const GOOD_FCS: bv32 := 0xdebb_20e3

  lemma {:induction false} ShiftAdd(r: bv32, n: nat, m: nat)
    ensures Shift(r, n + m) == Shift(Shift(r, n), m)
    decreases n
  {
    if n > 0 {
      ShiftAdd(ShiftPlace(r), n - 1, m);
      assert n + m - 1 == n - 1 + m;
    }
  }

  lemma AllOnesShifted()
    ensures Shift(0xffff_ffff, 32) == GOOD_FCS
  {
    assert Shift(0xffff_ffff, 8) == 0x2dfd_1072;
    assert Shift(0x2dfd_1072, 8) == 0xbe26_ed00;
    assert Shift(0xbe26_ed00, 8) == 0x00be_26ed;
    assert Shift(0x00be_26ed, 8) == GOOD_FCS;
    ShiftAdd(0xffff_ffff, 8, 24);
    ShiftAdd(0x2dfd_1072, 8, 16);
    ShiftAdd(0xbe26_ed00, 8, 8);
  }

  /** The order of transmission: low byte first. */
  function LittleEndian(w: bv32): seq<bv8> {
    [(w & 0xff) as bv8, ((w >> 8) & 0xff) as bv8, ((w >> 16) & 0xff) as bv8, (w >> 24) as bv8]
  }

  lemma {:induction false} LowBitsSplit(w: bv32, n: nat, m: nat)
    ensures LowBits(w, n + m) == LowBits(w, n) + LowBits(Down(w, n), m)
    decreases n
  {
    if n > 0 {
      LowBitsSplit(w >> 1, n - 1, m);
      assert n + m - 1 == n - 1 + m;
    }
  }

  lemma ByteBits(w: bv32)
    ensures LowBits(((w & 0xff) as bv8) as bv32, 8) == LowBits(w, 8)
    ensures Down(w, 8) == w >> 8
  {
  }

  /** A 32-bit word fed low byte first is the word combined with the register, 32 places on. */
  lemma WordFed(r: bv32, w: bv32)
    ensures FeedBits(r, Bits(LittleEndian(w))) == Shift(Xor(r, w), 32)
  {
    TransmittedBits(w);
    AbsorbBits(r, w, 32);
    NothingAbove(w);
    XorZero(FeedBits(r, LowBits(w, 32)));
  }

  lemma NothingAbove(w: bv32)
    ensures Down(w, 8) == w >> 8 && Down(w >> 8, 8) == w >> 16 && Down(w >> 16, 8) == w >> 24
    ensures Down(w >> 24, 8) == 0 && Down(w, 32) == 0
  {
    DownEight(w);
    DownEight(w >> 8);
    DownEight(w >> 16);
    DownEight(w >> 24);
    ByteMoves(w);
    FourTimesDown(w, 8);
  }

  lemma FourTimesDown(w: bv32, n: nat)
    ensures Down(w, n + (n + (n + n))) == Down(Down(Down(Down(w, n), n), n), n)
  {
    DownAdd(w, n, n + (n + n));
    DownAdd(Down(w, n), n, n + n);
    DownAdd(Down(Down(w, n), n), n, n);
  }

  lemma DownEight(w: bv32)
    ensures Down(w, 8) == w >> 8
  {
  }

  lemma ByteMoves(w: bv32)
    ensures (w >> 8) >> 8 == w >> 16 && (w >> 16) >> 8 == w >> 24 && (w >> 24) >> 8 == 0
  {
  }

  lemma {:induction false} DownAdd(w: bv32, n: nat, m: nat)
    ensures Down(w, n + m) == Down(Down(w, n), m)
    decreases n
  {
    if n > 0 {
      DownAdd(w >> 1, n - 1, m);
      assert n + m - 1 == n - 1 + m;
    }
  }

  lemma FourBytes(w: bv32)
    ensures LowBits(LittleEndian(w)[0] as bv32, 8) == LowBits(w, 8)
    ensures LowBits(LittleEndian(w)[1] as bv32, 8) == LowBits(Down(w, 8), 8)
    ensures LowBits(LittleEndian(w)[2] as bv32, 8) == LowBits(Down(Down(w, 8), 8), 8)
    ensures LowBits(LittleEndian(w)[3] as bv32, 8) == LowBits(Down(Down(Down(w, 8), 8), 8), 8)
  {
    NothingAbove(w);
    ByteBits(w);
    ByteBits(w >> 8);
    ByteBits(w >> 16);
    ByteBits(w >> 24);
  }

  lemma WordInBytes(w: bv32, n: nat)
    ensures LowBits(w, n + (n + (n + n)))
         == LowBits(w, n) + (LowBits(Down(w, n), n)
            + (LowBits(Down(Down(w, n), n), n) + LowBits(Down(Down(Down(w, n), n), n), n)))
  {
    LowBitsSplit(w, n, n + (n + n));
    LowBitsSplit(Down(w, n), n, n + n);
    LowBitsSplit(Down(Down(w, n), n), n, n);
  }

  lemma Assembled(w: bv32, b: seq<bv8>, n: nat)
    requires |b| == 4
    requires LowBits(b[0] as bv32, n) == LowBits(w, n)
    requires LowBits(b[1] as bv32, n) == LowBits(Down(w, n), n)
    requires LowBits(b[2] as bv32, n) == LowBits(Down(Down(w, n), n), n)
    requires LowBits(b[3] as bv32, n) == LowBits(Down(Down(Down(w, n), n), n), n)
    ensures BitsOf(b, n) == LowBits(w, n + (n + (n + n)))
  {
    WordInBytes(w, n);
    BitsOfFour(b, n);
  }

  lemma TransmittedBits(w: bv32)
    ensures Bits(LittleEndian(w)) == LowBits(w, 32)
  {
    FourBytes(w);
    Assembled(w, LittleEndian(w), 8);
  }

  lemma {:induction false} BitsConcat(a: seq<bv8>, b: seq<bv8>, n: nat)
    ensures BitsOf(a + b, n) == BitsOf(a, n) + BitsOf(b, n)
    decreases |a|
  {
    if a == [] {
      assert a + b == b;
    } else {
      assert (a + b)[0] == a[0] && (a + b)[1..] == a[1..] + b;
      BitsConcat(a[1..], b, n);
    }
  }

  lemma BitsOfFour(b: seq<bv8>, n: nat)
    requires |b| == 4
    ensures BitsOf(b, n) == LowBits(b[0] as bv32, n)
      + (LowBits(b[1] as bv32, n) + (LowBits(b[2] as bv32, n) + LowBits(b[3] as bv32, n)))
  {
    assert b == [b[0]] + ([b[1]] + ([b[2]] + [b[3]]));
    BitsConcat([b[0]], [b[1]] + ([b[2]] + [b[3]]), n);
    BitsConcat([b[1]], [b[2]] + [b[3]], n);
    BitsConcat([b[2]], [b[3]], n);
    BitsOfOne(b[0], n);
    BitsOfOne(b[1], n);
    BitsOfOne(b[2], n);
    BitsOfOne(b[3], n);
  }

  lemma BitsOfOne(b: bv8, n: nat)
    ensures BitsOf([b], n) == LowBits(b as bv32, n)
  {
    assert [b][1..] == [];
  }

  lemma XorSelf(r: bv32, w: bv32)
    ensures Xor(r, Xor(r, w)) == w
  {
  }

  lemma XorOnes(r: bv32)
    ensures Xor(r, 0xffff_ffff) == Complement(r)
  {
  }

  lemma OnlyComplement(r: bv32, w: bv32)
    ensures Xor(r, w) == 0xffff_ffff <==> w == Complement(r)
  {
    XorSelf(r, w);
    XorOnes(r);
    XorSelf(r, 0xffff_ffff);
  }

  /** The receiver's test: over a message and four more bytes the register ends at the
      good-FCS value exactly when those bytes are the message's checksum, low byte first. */
  lemma GoodFrame(msg: seq<bv8>, w: bv32)
    ensures Register(START, msg + LittleEndian(w)) == GOOD_FCS <==> w == Crc(msg)
  {
    var r := Register(START, msg);
    RegisterIsBitSerial(START, msg);
    RegisterIsBitSerial(START, msg + LittleEndian(w));
    BitsConcat(msg, LittleEndian(w), 8);
    FeedConcat(START, Bits(msg), Bits(LittleEndian(w)));
    WordFed(r, w);
    AllOnesShifted();
    OnlyComplement(r, w);
    if Shift(Xor(r, w), 32) == GOOD_FCS { ShiftInjective(Xor(r, w), 0xffff_ffff, 32); }
  }

  // ---------- bursts ----------

  lemma {:induction false} DownZero(n: nat)
    ensures Down(0, n) == 0
  {
    if n > 0 { DownZero(n - 1); }
  }

  lemma DownToTop(d: bv32)
    ensures Down(d, 31) == (d >> 24) >> 7
  {
    NothingAbove(d);
    DownAdd(d, 8, 23);
    DownAdd(d >> 8, 8, 15);
    DownAdd(d >> 16, 8, 7);
    DownSeven(d >> 24);
  }

  lemma DownSeven(d: bv32)
    ensures Down(d, 7) == d >> 7
  {
  }

  lemma TopBit(d: bv32)
    requires (d >> 24) >> 7 == 0
    ensures d & 0x8000_0000 == 0
  {
  }

  lemma TopClear(d: bv32, k: nat)
    requires Down(d, k) == 0 && k <= 31
    ensures d & 0x8000_0000 == 0
  {
    DownAdd(d, k, 31 - k);
    DownZero(31 - k);
    DownToTop(d);
    TopBit(d);
  }

  /** The polynomial's X^0 term: a one shifted out always shows in the top bit. */
  lemma OddShows(e: bv32)
    requires Odd(e)
    ensures ShiftPlace(e) & 0x8000_0000 != 0
  {
  }

  function Meet(r: bv32, bit: bool): bv32 { if bit then Xor(r, 1) else r }

  lemma XorCommutes(a: bv32, b: bv32)
    ensures Xor(a, b) == Xor(b, a)
  {
  }

  lemma XorAssociates(a: bv32, b: bv32, c: bv32)
    ensures Xor(Xor(a, b), c) == Xor(a, Xor(b, c))
  {
  }

  function Half(w: bv32): bv32 { w >> 1 }

  lemma LastBitOnly(z: bv32)
    ensures Half(Xor(z, 1)) == Half(z)
  {
  }

  lemma MeetRight(r: bv32, s: bv32, c: bool)
    ensures Xor(r, Meet(s, c)) == Meet(Xor(r, s), c)
  {
    XorAssociates(r, s, 1);
  }

  lemma MeetLeft(r: bv32, s: bv32, b: bool)
    ensures Xor(Meet(r, b), s) == Meet(Xor(r, s), b)
  {
    XorCommutes(Meet(r, b), s);
    XorCommutes(r, s);
    MeetRight(s, r, b);
  }

  /** What the data bits add can be taken out of the difference. */
  lemma MeetDifference(r: bv32, s: bv32, b: bool, c: bool)
    ensures Xor(Meet(r, b), Meet(s, c)) == Meet(Meet(Xor(r, s), b), c)
  {
    MeetRight(Meet(r, b), s, c);
    MeetLeft(r, s, b);
  }

  lemma MeetHalf(z: bv32, b: bool)
    ensures Half(Meet(z, b)) == Half(z)
  {
    if b { LastBitOnly(z); }
  }

  lemma EqualDiffer(r: bv32, s: bv32)
    ensures Xor(r, s) == 0 <==> r == s
  {
  }

  lemma DifferenceFed(r: bv32, s: bv32, b: bool, c: bool)
    ensures Xor(FeedBit(r, b), FeedBit(s, c)) == ShiftPlace(Meet(Meet(Xor(r, s), b), c))
  {
    ShiftPlaceLinear(Meet(r, b), Meet(s, c));
    MeetDifference(r, s, b, c);
  }

  lemma EvenPlace(e: bv32)
    requires !Odd(e)
    ensures ShiftPlace(e) == Half(e)
  {
  }

  lemma MustBeEven(e: bv32, k: nat)
    requires k <= 31 && Down(ShiftPlace(e), k) == 0
    ensures !Odd(e) && Down(Half(e), k) == 0
  {
    TopClear(ShiftPlace(e), k);
    if Odd(e) { OddShows(e); }
    EvenPlace(e);
  }

  lemma OneBitLeft(b: bool, c: bool)
    requires !Odd(Meet(Meet(0, b), c))
    ensures b == c
  {
  }

  lemma DownOne(d: bv32, k: nat)
    requires k >= 1
    ensures Down(d, k) == Down(Half(d), k - 1)
  {
  }

  lemma MeetTwice(d: bv32, b: bool, c: bool)
    ensures Half(Meet(Meet(d, b), c)) == Half(d)
  {
    MeetHalf(d, b);
    MeetHalf(Meet(d, b), c);
  }

  /** Going back one bit from registers that differ in their low k places at most, k <= 31:
      the difference they had, met by both data bits, was even ... */
  lemma DifferenceEven(r: bv32, s: bv32, b: bool, c: bool, k: nat)
    requires k <= 31 && Down(Xor(FeedBit(r, b), FeedBit(s, c)), k) == 0
    ensures !Odd(Meet(Meet(Xor(r, s), b), c)) && Down(Half(Meet(Meet(Xor(r, s), b), c)), k) == 0
  {
    DifferenceFed(r, s, b, c);
    MustBeEven(Meet(Meet(Xor(r, s), b), c), k);
  }

  /** ... so they differed in their low k + 1 places at most ... */
  lemma BackOneBit(r: bv32, s: bv32, b: bool, c: bool, k: nat)
    requires k <= 31 && Down(Xor(FeedBit(r, b), FeedBit(s, c)), k) == 0
    ensures Down(Xor(r, s), k + 1) == 0
  {
    DifferenceEven(r, s, b, c, k);
    MeetTwice(Xor(r, s), b, c);
    DownOne(Xor(r, s), k + 1);
  }

  /** ... and if they were equal they met equal bits. */
  lemma EqualMetEqual(r: bv32, b: bool, c: bool, k: nat)
    requires k <= 31 && Down(Xor(FeedBit(r, b), FeedBit(r, c)), k) == 0
    ensures b == c
  {
    DifferenceEven(r, r, b, c, k);
    EqualDiffer(r, r);
    OneBitLeft(b, c);
  }

  /** At most 32 bits leading two registers to the same place: the registers differed only
      in as many low places, and if they did not differ, neither did the bits. */
  lemma {:induction false} BackFromEqual(r: bv32, s: bv32, bs: seq<bool>, cs: seq<bool>)
    requires |bs| == |cs| <= 32 && FeedBits(r, bs) == FeedBits(s, cs)
    ensures Down(Xor(r, s), |bs|) == 0
    ensures r == s ==> bs == cs
    decreases |bs|
  {
    EqualDiffer(r, s);
    if bs != [] {
      var r', s' := FeedBit(r, bs[0]), FeedBit(s, cs[0]);
      BackFromEqual(r', s', bs[1..], cs[1..]);
      BackOneBit(r, s, bs[0], cs[0], |bs| - 1);
      if r == s { EqualMetEqual(r, bs[0], cs[0], |bs| - 1); }
      assert bs == [bs[0]] + bs[1..] && cs == [cs[0]] + cs[1..];
    }
  }

  /** Bit sequences that differ, but only within 32 consecutive bits, leave different registers. */
  lemma BurstInBits(r: bv32, bs: seq<bool>, cs: seq<bool>, i: nat)
    requires |bs| == |cs| && bs != cs
    requires forall k :: 0 <= k < |bs| && !(i <= k < i + 32) ==> bs[k] == cs[k]
    ensures FeedBits(r, bs) != FeedBits(r, cs)
  {
    var n := |bs|;
    var lo, hi := if i < n then i else n, if i + 32 < n then i + 32 else n;
    assert bs == bs[..lo] + (bs[lo..hi] + bs[hi..]) && cs == cs[..lo] + (cs[lo..hi] + cs[hi..]);
    assert bs[..lo] == cs[..lo] && bs[hi..] == cs[hi..];
    var at := FeedBits(r, bs[..lo]);
    FeedConcat(r, bs[..lo], bs[lo..hi] + bs[hi..]);
    FeedConcat(r, cs[..lo], cs[lo..hi] + cs[hi..]);
    FeedConcat(at, bs[lo..hi], bs[hi..]);
    FeedConcat(at, cs[lo..hi], cs[hi..]);
    if FeedBits(r, bs) == FeedBits(r, cs) {
      FeedInjective(FeedBits(at, bs[lo..hi]), FeedBits(at, cs[lo..hi]), bs[hi..]);
      BackFromEqual(at, at, bs[lo..hi], cs[lo..hi]);
    }
  }

  /** Buffers of equal length that differ, but only within 32 consecutive transmitted bits,
      have different checksums. */
  lemma BurstDetected(a: seq<bv8>, b: seq<bv8>, i: nat)
    requires |a| == |b| && a != b
    requires forall k :: 0 <= k < |Bits(a)| && !(i <= k < i + 32) ==> Bits(a)[k] == Bits(b)[k]
    ensures Crc(a) != Crc(b)
  {
    if Bits(a) == Bits(b) { BitsInjective(a, b); }
    RegisterIsBitSerial(START, a);
    RegisterIsBitSerial(START, b);
    BurstInBits(START, Bits(a), Bits(b), i);
    ComplementInjective(Register(START, a), Register(START, b));
  }

  lemma {:induction false} BitAt(buf: seq<bv8>, j: nat, t: nat, n: nat)
    requires j < |buf| && t < n
    ensures 0 <= n * j + t < |BitsOf(buf, n)| && BitsOf(buf, n)[n * j + t] == LowBits(buf[j] as bv32, n)[t]
    decreases j
  {
    if j > 0 {
      BitAt(buf[1..], j - 1, t, n);
      assert n * j + t == n + (n * (j - 1) + t);
    }
  }

  lemma SameByteSameBits(a: seq<bv8>, b: seq<bv8>, j: nat, t: nat, n: nat)
    requires j < |a| == |b| && t < n && a[j] == b[j]
    ensures 0 <= n * j + t < |BitsOf(a, n)| == |BitsOf(b, n)| && BitsOf(a, n)[n * j + t] == BitsOf(b, n)[n * j + t]
  {
    BitAt(a, j, t, n);
    BitAt(b, j, t, n);
  }

  /** Buffers of equal length that differ, but only within four consecutive bytes, have
      different checksums. */
  lemma FourBytesDetected(a: seq<bv8>, b: seq<bv8>, i: nat)
    requires |a| == |b| && a != b
    requires forall k :: 0 <= k < |a| && !(i <= k < i + 4) ==> a[k] == b[k]
    ensures Crc(a) != Crc(b)
  {
    forall k | 0 <= k < |Bits(a)| && !(8 * i <= k < 8 * i + 32) ensures Bits(a)[k] == Bits(b)[k] {
      SameByteSameBits(a, b, k / 8, k % 8, 8);
    }
    BurstDetected(a, b, 8 * i);
  }

  lemma ComplementInjective(r: bv32, s: bv32)
    ensures Complement(r) == Complement(s) <==> r == s
  {
  }

  lemma ByteInjective(x: bv8, y: bv8)
    requires LowBits(x as bv32, 8) == LowBits(y as bv32, 8)
    ensures x == y
  {
    FedAlone(x);
    FedAlone(y);
    ShiftInjective(x as bv32, y as bv32, 8);
    SameByte(x, y);
  }

  lemma FedAlone(x: bv8)
    ensures FeedBits(0, LowBits(x as bv32, 8)) == Shift(x as bv32, 8)
  {
    ByteOnly(x, 0);
    AbsorbBits(0, x as bv32, 8);
    XorZero(x as bv32);
    XorZero(FeedBits(0, LowBits(x as bv32, 8)));
  }

  lemma SameByte(x: bv8, y: bv8)
    requires x as bv32 == y as bv32
    ensures x == y
  {
  }

  lemma {:induction false} BitsInjective(a: seq<bv8>, b: seq<bv8>)
    requires |a| == |b| && Bits(a) == Bits(b)
    ensures a == b
    decreases |a|
  {
    if a != [] {
      var x, y := LowBits(a[0] as bv32, 8), LowBits(b[0] as bv32, 8);
      assert x == Bits(a)[..8] == Bits(b)[..8] == y;
      assert Bits(a[1..]) == Bits(a)[8..] == Bits(b)[8..] == Bits(b[1..]);
      ByteInjective(a[0], b[0]);
      BitsInjective(a[1..], b[1..]);
      assert a == [a[0]] + a[1..] && b == [b[0]] + b[1..];
    }
  }

  // ---------- the check value ----------

  /** The sum over the digits "123456789", by which CRC-32 implementations are known; and
      the sum over nothing. */
  lemma CheckValue()
    ensures Crc([0x31, 0x32, 0x33, 0x34, 0x35, 0x36, 0x37, 0x38, 0x39]) == 0xcbf4_3926
    ensures Crc([]) == 0
  {
    FirstDigits();
    LastDigits();
    assert Complement(0x340b_c6d9) == 0xcbf4_3926 && Complement(0xffff_ffff) == 0;
    var digits: seq<bv8> := [0x31, 0x32, 0x33, 0x34, 0x35, 0x36, 0x37, 0x38, 0x39];
    assert digits == [0x31, 0x32, 0x33, 0x34, 0x35] + [0x36, 0x37, 0x38, 0x39];
    RegisterOfTwo(START, [0x31, 0x32, 0x33, 0x34, 0x35], [0x36, 0x37, 0x38, 0x39]);
  }

  lemma FirstDigits()
    ensures Register(0xffff_ffff, [0x31, 0x32, 0x33, 0x34, 0x35]) == 0x340a_c5e3
  {
    assert UpdateCrc32(0x31, 0xffff_ffff) == 0x7c23_1048;
    assert UpdateCrc32(0x32, 0x7c23_1048) == 0xb0ac_bb32;
    assert UpdateCrc32(0x33, 0xb0ac_bb32) == 0x77b7_9c2d;
    assert UpdateCrc32(0x34, 0x77b7_9c2d) == 0x641c_1f5c;
    assert UpdateCrc32(0x35, 0x641c_1f5c) == 0x340a_c5e3;
    assert [0x31, 0x32, 0x33, 0x34, 0x35][1..] == [0x32, 0x33, 0x34, 0x35];
    assert [0x32, 0x33, 0x34, 0x35][1..] == [0x33, 0x34, 0x35];
    assert [0x33, 0x34, 0x35][1..] == [0x34, 0x35];
    assert [0x34, 0x35][1..] == [0x35];
    assert [0x35][1..] == [];
  }

  lemma LastDigits()
    ensures Register(0x340a_c5e3, [0x36, 0x37, 0x38, 0x39]) == 0x340b_c6d9
  {
    assert UpdateCrc32(0x36, 0x340a_c5e3) == 0xf68d_2c9e;
    assert UpdateCrc32(0x37, 0xf68d_2c9e) == 0xaffc_9660;
    assert UpdateCrc32(0x38, 0xaffc_9660) == 0x651f_2550;
    assert UpdateCrc32(0x39, 0x651f_2550) == 0x340b_c6d9;
    assert [0x36, 0x37, 0x38, 0x39][1..] == [0x37, 0x38, 0x39];
    assert [0x37, 0x38, 0x39][1..] == [0x38, 0x39];
    assert [0x38, 0x39][1..] == [0x39];
    assert [0x39][1..] == [];
  }

  lemma {:induction false} RegisterOfTwo(r: bv32, a: seq<bv8>, b: seq<bv8>)
    ensures Register(r, a + b) == Register(Register(r, a), b)
    decreases |a|
  {
    if a == [] {
      assert a + b == b;
    } else {
      assert (a + b)[0] == a[0] && (a + b)[1..] == a[1..] + b;
      RegisterOfTwo(UpdateCrc32(a[0], r), a[1..], b);
    }
  }
}

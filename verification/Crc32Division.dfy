/**
 * What lfs_crc computes: the remainder of the message by the generator of IEEE Std 802.3, section 3.2.9, with
 * every byte's bits taken least significant first.
 */
module Crc32Division {
  import opened ByteValue
  import opened Gf2
  import opened Gf2Division
  import opened Crc32

  /** x^32 + 0x04C11DB7, coefficient of x^0 first. */
  const GENERATOR: Poly :=
    [
     true, true, true, false, true, true, false, true,
     true, false, true, true, true, false, false, false,
     true, false, false, false, false, false, true, true,
     false, false, true, false, false, false, false, false,
     true]

  // ----- one message bit at a time

  function BitStep(reg: bv32, bit: bool): bv32 {
    if Low(reg) != bit then Xor(Half(reg), POLYNOMIAL) else Half(reg)
  }

  function Feed(reg: bv32, bits: seq<bool>): bv32
    decreases bits
  {
    if bits == [] then reg else Feed(BitStep(reg, bits[0]), bits[1..])
  }

  /** The n trailing bits of a word, least significant first. */
  function LowBits(w: bv32, n: nat): (bits: seq<bool>)
    ensures |bits| == n
    decreases n
  {
    if n == 0 then [] else [Low(w)] + LowBits(Half(w), n - 1)
  }

  function HalfTimes(w: bv32, n: nat): bv32
    decreases n
  {
    if n == 0 then w else HalfTimes(Half(w), n - 1)
  }

  /** The message bits of a byte string, each byte least significant bit first. */
  function Bits(data: seq<Byte>): (bits: seq<bool>)
    ensures |bits| == 8 * |data|
  {
    if data == [] then [] else LsbFirst(data[0]) + Bits(data[1..])
  }

  lemma {:induction false} FeedAppend(reg: bv32, s: seq<bool>, t: seq<bool>)
    ensures Feed(reg, s + t) == Feed(Feed(reg, s), t)
    decreases s
  {
    hide BitStep;
    if s == [] {
      assert s + t == t;
    } else {
      FeedAppend(BitStep(reg, s[0]), s[1..], t);
      assert (s + t)[1..] == s[1..] + t;
    }
  }

  // ----- byte-wise and bit-wise agree

  /** Mixing a word in up front and updating is feeding its lowest bit and keeping the rest mixed in. */
  lemma UpdateMixed(reg: bv32, w: bv32)
    ensures BitUpdate(Xor(reg, w)) == Xor(BitStep(reg, Low(w)), Half(w))
  {
    hide Low, Half, Xor;
    HalfXor(reg, w);
    LowXor(reg, w);
    XorRegroup(Half(reg), Half(w), POLYNOMIAL);
  }

  lemma {:induction false} UpdatesAreFeed(reg: bv32, w: bv32, n: nat)
    ensures BitUpdates(Xor(reg, w), n) == Xor(Feed(reg, LowBits(w, n)), HalfTimes(w, n))
    decreases n
  {
    hide BitUpdate, BitStep, Low, Half, Xor;
    if n > 0 {
      UpdateMixed(reg, w);
      UpdatesAreFeed(BitStep(reg, Low(w)), Half(w), n - 1);
    }
  }

  lemma {:induction false} LowBitAt(w: bv32, n: nat, i: nat)
    requires i < n
    ensures LowBits(w, n)[i] == Low(HalfTimes(w, i))
    decreases n
  {
    hide Low, Half;
    if i > 0 {
      LowBitAt(Half(w), n - 1, i - 1);
    }
  }

  lemma {:induction false} HalfTimesLast(w: bv32, n: nat)
    ensures HalfTimes(w, n + 1) == Half(HalfTimes(w, n))
    decreases n
  {
    hide Half;
    if n > 0 {
      HalfTimesLast(Half(w), n - 1);
    }
  }

  lemma {:induction false} HalfTimesAdd(w: bv32, m: nat, n: nat)
    ensures HalfTimes(w, m + n) == HalfTimes(HalfTimes(w, m), n)
    decreases m
  {
    hide Half;
    if m > 0 {
      HalfTimesAdd(Half(w), m - 1, n);
    }
  }

  lemma FourTimes(w: bv32)
    ensures HalfTimes(w, 0) == w && HalfTimes(w, 1) == Half(w) && HalfTimes(w, 2) == Half(Half(w))
    ensures HalfTimes(w, 3) == Half(Half(Half(w))) && HalfTimes(w, 4) == w >> 4
  {
    FourHalves(w);
    hide Half;
    HalfTimesLast(w, 0);
    HalfTimesLast(w, 1);
    HalfTimesLast(w, 2);
    HalfTimesLast(w, 3);
  }

  lemma EightTimes(w: bv32)
    ensures HalfTimes(w, 8) == w >> 8
    ensures HalfTimes(w, 4) == w >> 4 && HalfTimes(w, 5) == Half(w >> 4) && HalfTimes(w, 6) == Half(Half(w >> 4))
    ensures HalfTimes(w, 7) == Half(Half(Half(w >> 4)))
  {
    hide Half, HalfTimes;
    FourTimes(w);
    FourTimes(w >> 4);
    HalfTimesAdd(w, 4, 1);
    HalfTimesAdd(w, 4, 2);
    HalfTimesAdd(w, 4, 3);
    HalfTimesAdd(w, 4, 4);
    TwoNibbles(w);
  }

  lemma TwoNibbles(w: bv32)
    ensures (w >> 4) >> 4 == w >> 8
  {
  }

  /** The widened byte shows its own bits, least significant first, and nothing else. */
  lemma WidenedBits(b: Byte)
    ensures LowBits(Widen(b), 8) == LsbFirst(b) && HalfTimes(Widen(b), 8) == 0
  {
    hide Low, Half, Widen, Bit, LowBits, HalfTimes;
    forall i | 0 <= i < 8 ensures LowBits(Widen(b), 8)[i] == LsbFirst(b)[i] {
      LowBitAt(Widen(b), 8, i);
      WidenedBit(b, i);
    }
    EightTimes(Widen(b));
    WidenedOut(b);
  }

  lemma WidenedOut(b: Byte)
    ensures Widen(b) >> 8 == 0
  {
  }

  lemma WidenedBit(b: Byte, i: nat)
    requires i < 8
    ensures Low(HalfTimes(Widen(b), i)) == Bit(b, i)
  {
    hide Low, Half, Widen, Bit, HalfTimes;
    FourTimes(Widen(b));
    EightTimes(Widen(b));
    LowFour(b);
    HighFour(b);
    assert i == 0 || i == 1 || i == 2 || i == 3 || i == 4 || i == 5 || i == 6 || i == 7;
  }

  lemma LowFour(b: Byte)
    ensures var w := Widen(b);
            && Low(w) == Bit(b, 0) && Low(Half(w)) == Bit(b, 1)
            && Low(Half(Half(w))) == Bit(b, 2) && Low(Half(Half(Half(w)))) == Bit(b, 3)
  {
  }

  lemma HighFour(b: Byte)
    ensures var w := Widen(b) >> 4;
            && Low(w) == Bit(b, 4) && Low(Half(w)) == Bit(b, 5)
            && Low(Half(Half(w))) == Bit(b, 6) && Low(Half(Half(Half(w)))) == Bit(b, 7)
  {
  }

  /** The eight updates of a byte feed its bits to the register. */
  lemma ByteIsFeed(reg: bv32, b: Byte)
    ensures BitUpdates(Xor(reg, Widen(b)), 8) == Feed(reg, LsbFirst(b))
  {
    hide BitUpdates, Feed, LowBits, HalfTimes, Xor, Widen, LsbFirst;
    UpdatesAreFeed(reg, Widen(b), 8);
    WidenedBits(b);
    XorLaws(Feed(reg, LsbFirst(b)), 0, 0);
  }

  /** The CRC is the register after the message bits, for every seed and buffer. */
  lemma {:induction false} CrcIsFeed(crc: bv32, data: seq<Byte>)
    ensures Crc(crc, data) == Feed(crc, Bits(data))
    decreases data
  {
    hide BitUpdates, Xor, Widen, BitStep, LsbFirst;
    if data != [] {
      ByteIsFeed(crc, data[0]);
      CrcIsFeed(BitUpdates(Xor(crc, Widen(data[0])), 8), data[1..]);
      FeedAppend(crc, LsbFirst(data[0]), Bits(data[1..]));
    }
  }

  // ----- linearity over exclusive or

  lemma BitStepXor(r: bv32, s: bv32, a: bool, b: bool)
    ensures BitStep(Xor(r, s), a != b) == Xor(BitStep(r, a), BitStep(s, b))
  {
    hide Low, Half, Xor;
    LowXor(r, s);
    HalfXor(r, s);
    XorRegroup(Half(r), Half(s), POLYNOMIAL);
  }

  lemma {:induction false} FeedXor(r: bv32, s: bv32, a: seq<bool>, b: seq<bool>)
    requires |a| == |b|
    ensures Feed(Xor(r, s), Add(a, b)) == Xor(Feed(r, a), Feed(s, b))
    decreases a
  {
    hide BitStep, Xor;
    if a != [] {
      BitStepXor(r, s, a[0], b[0]);
      FeedXor(BitStep(r, a[0]), BitStep(s, b[0]), a[1..], b[1..]);
      assert Add(a, b)[1..] == Add(a[1..], b[1..]);
    }
  }

  lemma LsbFirstXor(a: Byte, b: Byte)
    ensures LsbFirst(a ^ b) == Add(LsbFirst(a), LsbFirst(b))
  {
    hide Bit;
    forall i | 0 <= i < 8 ensures LsbFirst(a ^ b)[i] == Add(LsbFirst(a), LsbFirst(b))[i] {
      XorBit(a, b, i);
    }
  }

  lemma {:induction false} BitsXor(a: seq<Byte>, b: seq<Byte>)
    requires |a| == |b|
    ensures Bits(XorBytes(a, b)) == Add(Bits(a), Bits(b))
    decreases a
  {
    hide Add, LsbFirst;
    if a == [] {
      AddEmpty();
    } else {
      BitsXor(a[1..], b[1..]);
      XorBytesSplit(a, b);
      LsbFirstXor(a[0], b[0]);
      AddAppend(LsbFirst(a[0]), Bits(a[1..]), LsbFirst(b[0]), Bits(b[1..]));
    }
  }

  /** The CRC is linear in seed and data together. */
  lemma CrcXor(s: bv32, t: bv32, a: seq<Byte>, b: seq<Byte>)
    requires |a| == |b|
    ensures |XorBytes(a, b)| == |a| && Crc(Xor(s, t), XorBytes(a, b)) == Xor(Crc(s, a), Crc(t, b))
  {
    hide Feed, Bits, Crc, Xor;
    CrcIsFeed(s, a);
    CrcIsFeed(t, b);
    CrcIsFeed(Xor(s, t), XorBytes(a, b));
    BitsXor(a, b);
    FeedXor(s, t, Bits(a), Bits(b));
  }

  // ----- the register is a polynomial remainder

  /** The register as a polynomial of degree below 32: its high bit is the coefficient of x^0. */
  function Coeffs(r: bv32): (p: Poly)
    ensures |p| == 32
  {
    PolyOf(LowBits(r, 32))
  }

  lemma {:induction false} LowBitsXor(v: bv32, w: bv32, n: nat)
    ensures LowBits(Xor(v, w), n) == Add(LowBits(v, n), LowBits(w, n))
    decreases n
  {
    hide Low, Xor, Half;
    if n > 0 {
      LowXor(v, w);
      HalfXor(v, w);
      LowBitsXor(Half(v), Half(w), n - 1);
    }
  }

  function ByteOff(w: bv32): bv32 { w >> 8 }

  lemma EightOff(w: bv32)
    ensures HalfTimes(w, 8) == ByteOff(w)
  {
    hide HalfTimes;
    EightTimes(w);
  }

  lemma HalvedOut(w: bv32)
    ensures HalfTimes(w, 32) == 0
  {
    FourBytes(w);
    hide HalfTimes, ByteOff;
    EightOff(w);
    EightOff(ByteOff(w));
    EightOff(ByteOff(ByteOff(w)));
    EightOff(ByteOff(ByteOff(ByteOff(w))));
    HalfTimesAdd(w, 8, 24);
    HalfTimesAdd(ByteOff(w), 8, 16);
    HalfTimesAdd(ByteOff(ByteOff(w)), 8, 8);
  }

  lemma FourBytes(w: bv32)
    ensures ByteOff(ByteOff(ByteOff(ByteOff(w)))) == 0
  {
  }

  lemma LowOfZero()
    ensures !Low(0)
  {
  }

  lemma CoeffsOfHalf(r: bv32)
    ensures Coeffs(Half(r)) == [false] + Coeffs(r)[..31] && Coeffs(r)[31] == Low(r)
  {
    hide Low, Half, LowBits, HalfTimes;
    var s, t := LowBits(r, 32), LowBits(Half(r), 32);
    forall i | 0 <= i < 32 ensures t[i] == if i < 31 then s[i + 1] else false {
      LowBitAt(Half(r), 32, i);
      HalfTimesFirst(r, i);
      if i < 31 {
        LowBitAt(r, 32, i + 1);
      } else {
        HalvedOut(r);
        LowOfZero();
      }
    }
    LowBitAt(r, 32, 0);
    FourTimes(r);
  }

  lemma HalfTimesFirst(r: bv32, i: nat)
    ensures HalfTimes(Half(r), i) == HalfTimes(r, i + 1)
  {
  }

  lemma FourLow(r: bv32, n: nat)
    requires n >= 4
    ensures LowBits(r, n) == [Low(r), Low(Half(r)), Low(Half(Half(r))), Low(Half(Half(Half(r))))] + LowBits(r >> 4, n - 4)
  {
    FourHalves(r);
    hide Low, Half, LowBits;
    TwoLow(r, n);
    TwoLow(Half(Half(r)), n - 2);
  }

  lemma TwoLow(r: bv32, n: nat)
    requires n >= 2
    ensures LowBits(r, n) == [Low(r), Low(Half(r))] + LowBits(Half(Half(r)), n - 2)
  {
    hide Low, Half;
  }

  lemma GeneratorLow()
    ensures LowBits(POLYNOMIAL, 32)
            == [false, false, false, false] + [false, true, false, false] + [true, true, false, false]
               + [false, false, false, true] + LowBits(0xedb8, 16)
  {
    hide LowBits;
    FourLow(0xedb88320, 32);
    FourLow(0x0edb8832, 28);
    FourLow(0x00edb883, 24);
    FourLow(0x000edb88, 20);
  }

  lemma GeneratorHigh()
    ensures LowBits(0xedb8, 16)
            == [false, false, false, true] + [true, true, false, true] + [true, false, true, true]
               + [false, true, true, true]
  {
    hide LowBits;
    FourLow(0xedb8, 16);
    FourLow(0x0edb, 12);
    FourLow(0x00ed, 8);
    FourLow(0x000e, 4);
  }

  lemma CoeffsOfGenerator()
    ensures IsGenerator(GENERATOR) && |GENERATOR| == 33 && Coeffs(POLYNOMIAL) == GENERATOR[..32]
  {
    hide LowBits;
    GeneratorLow();
    GeneratorHigh();
  }

  /** One register step is one step of long division by the generator. */
  lemma CoeffsOfBitStep(r: bv32, b: bool)
    ensures IsGenerator(GENERATOR) && |GENERATOR| == 33
    ensures Coeffs(BitStep(r, b)) == DivisionStep(Coeffs(r), b, GENERATOR)
  {
    hide Low, Half, Xor, LowBits;
    CoeffsOfHalf(r);
    CoeffsOfGenerator();
    LowBitsXor(Half(r), POLYNOMIAL, 32);
    assert Coeffs(Xor(Half(r), POLYNOMIAL)) == Add(Coeffs(Half(r)), Coeffs(POLYNOMIAL));
  }

  lemma {:induction false} FeedDivides(r: bv32, bits: seq<bool>)
    ensures IsGenerator(GENERATOR) && |GENERATOR| == 33
    ensures Coeffs(Feed(r, bits)) == Divide(Coeffs(r), bits, GENERATOR)
    decreases bits
  {
    hide BitStep, Coeffs, DivisionStep;
    CoeffsOfGenerator();
    if bits != [] {
      CoeffsOfBitStep(r, bits[0]);
      FeedDivides(BitStep(r, bits[0]), bits[1..]);
    }
  }

  lemma CoeffsOfZero()
    ensures Coeffs(0) == Zeros(32)
  {
    var z: bv32 := 0;
    XorLaws(z, z, z);
    LowBitsXor(z, z, 32);
    hide Low, Half, Xor, LowBits;
  }

  /** From seed 0, the CRC is the remainder of M(x) * x^32 by the generator, and the only one. */
  lemma CrcIsRemainder(data: seq<Byte>, q: Poly, r: Poly)
    ensures IsGenerator(GENERATOR)
    ensures var m := Zeros(32) + PolyOf(Bits(data));
            && Divides(m, GENERATOR, Quotient(Bits(data), GENERATOR), Coeffs(Crc(0, data)))
            && (Divides(m, GENERATOR, q, r) ==> r == Coeffs(Crc(0, data)))
  {
    hide Bits, Feed, Crc, Coeffs, Divide, Quotient, Divides;
    CoeffsOfGenerator();
    CrcIsFeed(0, data);
    FeedDivides(0, Bits(data));
    CoeffsOfZero();
    DivideIsRemainder(Bits(data), GENERATOR);
    var m := Zeros(32) + PolyOf(Bits(data));
    if Divides(m, GENERATOR, q, r) {
      RemainderUnique(m, GENERATOR, q, r, Quotient(Bits(data), GENERATOR), Coeffs(Crc(0, data)));
    }
  }

  // ----- what the CRC guarantees

  /** No error burst of at most 32 bits, at any position, leaves the CRC unchanged, whatever the seed. */
  lemma BurstChangesCrc(seed: bv32, data: seq<Byte>, error: seq<Byte>, s: nat)
    requires |data| == |error| && IsBurstWithin(Bits(error), s, 32)
    ensures Crc(seed, XorBytes(data, error)) != Crc(seed, data)
  {
    hide Bits, Feed, Crc, Coeffs, Divide, Xor;
    CrcXor(seed, 0, data, error);
    XorLaws(seed, 0, 0);
    XorDiffers(Crc(seed, data), Crc(0, error));
    CrcIsFeed(0, error);
    FeedDivides(0, Bits(error));
    CoeffsOfGenerator();
    CoeffsOfZero();
    BurstLeavesRemainder(Bits(error), s, GENERATOR);
  }

  lemma XorDiffers(a: bv32, b: bv32)
    ensures Xor(a, b) == a ==> b == 0
  {
  }

  /** In particular every byte counts: two buffers that differ in one byte have different CRCs. */
  lemma EveryByteCounts(seed: bv32, data: seq<Byte>, k: nat, b: Byte)
    requires k < |data| && b != data[k]
    ensures Crc(seed, data[k := b]) != Crc(seed, data)
  {
    var error := seq(|data|, i requires 0 <= i < |data| => if i == k then data[k] ^ b else 0);
    XorBackAll(data, error, k, b);
    assert XorBytes(data, error) == data[k := b];
    OneByteBurst(error, k);
    hide Crc, Bits;
    BurstChangesCrc(seed, data, error, 8 * k);
  }

  lemma XorBackAll(data: seq<Byte>, error: seq<Byte>, k: nat, b: Byte)
    requires k < |data| == |error|
    requires forall i :: 0 <= i < |data| ==> error[i] == if i == k then data[k] ^ b else 0
    ensures |XorBytes(data, error)| == |data|
    ensures forall i :: 0 <= i < |data| ==> XorBytes(data, error)[i] == data[k := b][i]
    ensures b != data[k] ==> error[k] != 0
  {
    forall i | 0 <= i < |data| ensures XorBytes(data, error)[i] == data[k := b][i] {
      XorBack(data[i], b);
    }
    XorBack(data[k], b);
  }

  lemma XorBack(a: Byte, b: Byte)
    ensures a ^ (a ^ b) == b && a ^ 0 == a && (a != b ==> a ^ b != 0)
  {
  }

  lemma SomeBit(b: Byte) returns (i: nat)
    requires b != 0
    ensures i < 8 && Bit(b, i)
  {
    if k: nat :| k < 8 && Bit(b, k) {
      i := k;
    } else {
      NoBit(b);
      assert false;
    }
  }

  lemma NoBit(b: Byte)
    requires forall k :: 0 <= k < 8 ==> !Bit(b, k)
    ensures b == 0
  {
    assert !Bit(b, 0) && !Bit(b, 1) && !Bit(b, 2) && !Bit(b, 3);
    assert !Bit(b, 4) && !Bit(b, 5) && !Bit(b, 6) && !Bit(b, 7);
  }

  lemma {:induction false} BitOfByte(data: seq<Byte>, i: nat)
    requires i < 8 * |data|
    ensures Bits(data)[i] == Bit(data[i / 8], i % 8)
  {
    hide Bit;
    if i >= 8 {
      BitOfByte(data[1..], i - 8);
      assert (i - 8) / 8 == i / 8 - 1 && (i - 8) % 8 == i % 8;
    }
  }

  lemma OneByteBurst(error: seq<Byte>, k: nat)
    requires k < |error| && error[k] != 0 && forall i :: 0 <= i < |error| && i != k ==> error[i] == 0
    ensures IsBurstWithin(Bits(error), 8 * k, 32)
  {
    hide Bit, Bits;
    var bits := Bits(error);
    var j := SomeBit(error[k]);
    BitOfByte(error, 8 * k + j);
    assert (8 * k + j) / 8 == k && (8 * k + j) % 8 == j;
    assert bits[8 * k + j];
    forall i | 0 <= i < |bits| && bits[i] ensures 8 * k <= i < 8 * k + 32 {
      BitOfByte(error, i);
      ZeroByte(i % 8);
      assert i / 8 == k;
    }
  }

  lemma ZeroByte(i: nat)
    requires i < 8
    ensures !Bit(0, i)
  {
  }
}

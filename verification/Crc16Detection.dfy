/** Which errors the CRC of both records detects beyond bursts: odd numbers of flipped bits, and pairs of them. */
module Crc16Detection {
  import opened Arithmetic
  import opened ByteValue
  import opened Gf2
  import opened Gf2Division
  import opened Crc16
  import opened Crc16Powers

  // ----- odd numbers of bits

  /** Whether an odd number of coefficients is set. */
  function Odd(p: Poly): bool { if p == [] then false else p[0] != Odd(p[1..]) }

  lemma {:induction false} OddAdd(p: Poly, q: Poly)
    requires |p| == |q|
    ensures Odd(Add(p, q)) == (Odd(p) != Odd(q))
  {
    if p != [] {
      assert Add(p, q)[1..] == Add(p[1..], q[1..]);
      OddAdd(p[1..], q[1..]);
    }
  }

  lemma {:induction false} OddLast(p: Poly, b: bool)
    ensures Odd(p + [b]) == (Odd(p) != b)
  {
    if p != [] {
      assert (p + [b])[1..] == p[1..] + [b];
      OddLast(p[1..], b);
    }
  }

  lemma {:induction false} OddZeros(n: nat)
    ensures !Odd(Zeros(n))
  {
    if n > 0 {
      assert Zeros(n)[1..] == Zeros(n - 1);
      OddZeros(n - 1);
    }
  }

  lemma OddGenerator()
    ensures Odd(GENERATOR[..16])
  {
    var g := GENERATOR[..16];
    assert g == [true] + (Zeros(4) + ([true] + (Zeros(6) + ([true] + Zeros(3)))));
    OddZeros(3);
    OddSkip(6, [true] + Zeros(3));
    OddSkip(4, [true] + (Zeros(6) + ([true] + Zeros(3))));
    assert ([true] + Zeros(3))[1..] == Zeros(3);
    assert ([true] + (Zeros(6) + ([true] + Zeros(3))))[1..] == Zeros(6) + ([true] + Zeros(3));
    assert g[1..] == Zeros(4) + ([true] + (Zeros(6) + ([true] + Zeros(3))));
  }

  lemma {:induction false} OddSkip(n: nat, p: Poly)
    ensures Odd(Zeros(n) + p) == Odd(p)
  {
    if n > 0 {
      assert (Zeros(n) + p)[1..] == Zeros(n - 1) + p;
      OddSkip(n - 1, p);
    } else {
      assert Zeros(0) + p == p;
    }
  }

  /** The generator has an even number of terms, so a step adds the parity of the message bit and no other. */
  lemma OddBitStep(r: bv16, b: bool)
    ensures Odd(Coeffs(BitStep(r, b))) == (Odd(Coeffs(r)) != b)
  {
    hide BitStep, Coeffs, Odd;
    var c := Coeffs(r);
    CoeffsOfBitStep(r, b);
    OddAdd([false] + c[..15], Scale(c[15] != b, GENERATOR[..16]));
    OddSkip(1, c[..15]);
    assert Zeros(1) + c[..15] == [false] + c[..15];
    OddLast(c[..15], c[15]);
    assert c[..15] + [c[15]] == c;
    OddGenerator();
    OddZeros(16);
  }

  lemma {:induction false} OddFeed(r: bv16, bits: seq<bool>)
    ensures Odd(Coeffs(Feed(r, bits))) == (Odd(Coeffs(r)) != Odd(bits))
    decreases bits
  {
    hide Coeffs, BitStep;
    if bits != [] {
      OddBitStep(r, bits[0]);
      OddFeed(BitStep(r, bits[0]), bits[1..]);
    }
  }

  /** An error leaves the CRC unchanged exactly if its own bits bring the register back to zero. */
  lemma UnchangedExactly(data: seq<Byte>, error: seq<Byte>)
    requires |data| == |error|
    ensures Crc(XorBytes(data, error)) == Crc(data) <==> Feed(0, Bits(error)) == 0
  {
    hide Bits, Feed, CrcFrom;
    CrcXor(data, error);
    CrcIsFeed(0, error);
    XorDiffers(Crc(data), Crc(error));
    XorNothing(Crc(data));
  }

  lemma XorNothing(a: bv16)
    ensures a ^ 0 == a
  {
  }

  /** No error in an odd number of bits, in whatever places and at whatever length, leaves the CRC unchanged. */
  lemma OddChangesCrc(data: seq<Byte>, error: seq<Byte>)
    requires |data| == |error| && Odd(Bits(error))
    ensures Crc(XorBytes(data, error)) != Crc(data)
  {
    hide Bits, Feed, CrcFrom, Coeffs, Odd;
    UnchangedExactly(data, error);
    OddFeed(0, Bits(error));
    CoeffsOfZero();
    OddZeros(16);
  }

  // ----- pairs of bits

  /** Exactly bits i and j are set. */
  ghost predicate IsPair(bits: seq<bool>, i: nat, j: nat) {
    i < j < |bits| && forall k :: 0 <= k < |bits| ==> bits[k] == (k == i || k == j)
  }

  lemma {:induction false} FeedZeros(r: bv16, n: nat)
    ensures Feed(r, Zeros(n)) == Shifts(r, n)
    decreases n
  {
    hide Shift, BitStep;
    if n > 0 {
      assert Zeros(n)[1..] == Zeros(n - 1);
      ShiftIsBitStep(r);
      FeedZeros(Shift(r), n - 1);
    }
  }

  /** A set bit adds the generator's remainder. */
  lemma FeedOne(r: bv16, rest: seq<bool>)
    ensures Feed(r, [true] + rest) == Feed(Xor(Shift(r), POLGEN), rest)
  {
    hide Shift, BitStep, Xor;
    SetBitStep(r);
    assert ([true] + rest)[1..] == rest;
  }

  lemma SetBitStep(r: bv16)
    ensures BitStep(r, true) == Xor(Shift(r), POLGEN)
  {
    hide Top, Twice, Xor;
    XorLaws(Twice(r), POLGEN, POLGEN);
    XorLaws(POLGEN, POLGEN, 0);
    XorLaws(Twice(r), 0, 0);
  }

  lemma GeneratorIsPower()
    ensures POLGEN == XPower(16)
  {
    hide XPower;
    EvenPowers();
  }

  lemma PairSplits(bits: seq<bool>, i: nat, j: nat)
    requires IsPair(bits, i, j)
    ensures bits == Zeros(i) + ([true] + (Zeros(j - i - 1) + ([true] + Zeros(|bits| - j - 1))))
  {
  }

  /** Two set bits bring the register back to zero exactly at distances that are multiples of the period. */
  lemma PairFeedsZero(bits: seq<bool>, i: nat, j: nat)
    requires IsPair(bits, i, j)
    ensures Feed(0, bits) == 0 <==> (j - i) % PERIOD == 0
  {
    hide Feed, Shift, Shifts, Xor;
    var d, n := j - i, |bits| - j - 1;
    var last := [true] + Zeros(n);
    var middle := [true] + (Zeros(d - 1) + last);
    PairSplits(bits, i, j);
    FeedAppend(0, Zeros(i), middle);
    FeedZeros(0, i);
    ShiftsZero(0, i);
    FeedOne(0, Zeros(d - 1) + last);
    ShiftZero(0);
    XorLaws(POLGEN, 0, 0);
    FeedAppend(POLGEN, Zeros(d - 1), last);
    FeedZeros(POLGEN, d - 1);
    var r := Shifts(POLGEN, d - 1);
    FeedOne(r, Zeros(n));
    ShiftsLast(POLGEN, d - 1);
    FeedZeros(Xor(Shift(r), POLGEN), n);
    ShiftsZero(Xor(Shift(r), POLGEN), n);
    XorZero(Shift(r), POLGEN);
    GeneratorIsPower();
    ShiftsAdd(1, 16, d);
    ShiftsAdd(1, d, 16);
    ShiftsInjective(XPower(d), 1, 16);
    PeriodExactly(d);
  }

  /** Two flipped bits leave the CRC unchanged exactly if a multiple of 32767 bits lies between them. */
  lemma PairChangesCrc(data: seq<Byte>, error: seq<Byte>, i: nat, j: nat)
    requires |data| == |error| && IsPair(Bits(error), i, j)
    ensures Crc(XorBytes(data, error)) == Crc(data) <==> (j - i) % PERIOD == 0
  {
    hide Bits, Feed, CrcFrom;
    UnchangedExactly(data, error);
    PairFeedsZero(Bits(error), i, j);
  }

  /** An odd number of flipped bits, two of them, or any number within 16 consecutive bits. */
  ghost predicate IsDetectable(error: seq<Byte>) {
    || Odd(Bits(error)) || (exists i: nat, j: nat :: IsPair(Bits(error), i, j))
    || (exists s: nat :: IsBurst(Bits(error), s))
  }

  /** No such error in up to 4095 bytes leaves the CRC unchanged. */
  lemma DetectableChangesCrc(data: seq<Byte>, error: seq<Byte>)
    requires |data| == |error| <= 4095 && IsDetectable(error)
    ensures Crc(XorBytes(data, error)) != Crc(data)
  {
    hide Bits, CrcFrom, Odd, IsBurst;
    if Odd(Bits(error)) {
      OddChangesCrc(data, error);
    } else if exists i: nat, j: nat :: IsPair(Bits(error), i, j) {
      var i: nat, j: nat :| IsPair(Bits(error), i, j);
      PairChangesCrc(data, error, i, j);
      DivUnique(j - i, PERIOD, 0, j - i);
    } else {
      var s: nat :| IsBurst(Bits(error), s);
      BurstChangesCrc(data, error, s);
    }
  }
}

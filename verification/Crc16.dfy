/** NV_ComputeCrc and its algebra. */
module Crc16 {
  import opened ByteValue
  import opened Gf2
  import opened Gf2Division

  const POLGEN: bv16 := 0x1021

  /** x^16 + x^12 + x^5 + 1, the generator of ITU-T Recommendation V.41, section 2. */
  const GENERATOR: Poly :=
    [true, false, false, false, false, true, false, false, false, false, false, false, true,
     false, false, false, true]

  // ----- register operations, named so that proofs can hide the bit vectors behind them

  function Top(r: bv16): bool { r & 0x8000 != 0 }

  function Twice(r: bv16): bv16 { r << 1 }

  function Xor(a: bv16, b: bv16): bv16 { a ^ b }

  function Widen(b: Byte): bv16 { (b as bv16) << 8 }

  // ----- the byte-wise computation

  function Shift(crc: bv16): bv16 { if Top(crc) then Xor(Twice(crc), POLGEN) else Twice(crc) }

  function Shifts(crc: bv16, n: nat): bv16
    decreases n
  {
    if n == 0 then crc else Shifts(Shift(crc), n - 1)
  }

  function ByteStep(crc: bv16, b: Byte): bv16 { Shifts(Xor(crc, Widen(b)), 8) }

  function CrcFrom(crc: bv16, data: seq<Byte>): bv16
    decreases data
  {
    if data == [] then crc else CrcFrom(ByteStep(crc, data[0]), data[1..])
  }

  function Crc(data: seq<Byte>): bv16 { CrcFrom(0, data) }

  /** The inner loop: a byte mixed into the register, bit by bit. */
  method MixByte(crc: bv16, byte: Byte) returns (computedCrc: bv16)
    ensures computedCrc == ByteStep(crc, byte)
  {
    hide Top, Twice, Xor, Widen;
    computedCrc := Xor(crc, Widen(byte));
    var crcA := 8;
    while crcA != 0
      invariant 0 <= crcA <= 8
      invariant Shifts(computedCrc, crcA) == Shifts(Xor(crc, Widen(byte)), 8)
    {
      if Top(computedCrc) {
        computedCrc := Twice(computedCrc);
        computedCrc := Xor(computedCrc, POLGEN);
      } else {
        computedCrc := Twice(computedCrc);
      }
      crcA := crcA - 1;
    }
  }

  method ComputeCrc(mem: array<Byte>, ptr: nat, len: nat) returns (computedCrc: bv16)
    requires ptr + len <= mem.Length
    ensures computedCrc == Crc(mem[ptr..ptr + len])
  {
    hide ByteStep;
    computedCrc := 0;
    for i := 0 to len
      invariant CrcFrom(computedCrc, mem[ptr + i..ptr + len]) == Crc(mem[ptr..ptr + len])
    {
      computedCrc := MixByte(computedCrc, mem[ptr + i]);
      assert mem[ptr + i..ptr + len][1..] == mem[ptr + i + 1..ptr + len];
    }
  }

  // ----- the same register, one message bit at a time

  function BitStep(reg: bv16, bit: bool): bv16 {
    if Top(reg) != bit then Xor(Twice(reg), POLGEN) else Twice(reg)
  }

  function Feed(reg: bv16, bits: seq<bool>): bv16
    decreases bits
  {
    if bits == [] then reg else Feed(BitStep(reg, bits[0]), bits[1..])
  }

  /** The n leading bits of a word, most significant first. */
  function TopBits(w: bv16, n: nat): (bits: seq<bool>)
    ensures |bits| == n
    decreases n
  {
    if n == 0 then [] else [Top(w)] + TopBits(Twice(w), n - 1)
  }

  function ShiftLeft(w: bv16, n: nat): bv16
    decreases n
  {
    if n == 0 then w else ShiftLeft(Twice(w), n - 1)
  }

  /** The message bits of a byte string, each byte most significant bit first. */
  function Bits(data: seq<Byte>): (bits: seq<bool>)
    ensures |bits| == 8 * |data|
  {
    if data == [] then [] else MsbFirst(data[0]) + Bits(data[1..])
  }

  lemma {:induction false} FeedAppend(reg: bv16, s: seq<bool>, t: seq<bool>)
    ensures Feed(reg, s + t) == Feed(Feed(reg, s), t)
    decreases s
  {
    hide BitStep;
    if s == [] {
      assert s + t == t;
    } else {
      FeedAppend(BitStep(reg, s[0]), s[1..], t);
      assert (s + t)[1..] == s[1..] + t;
    }
  }

  // ----- bit-vector facts, one at a time

  lemma TwiceXor(a: bv16, b: bv16)
    ensures Twice(Xor(a, b)) == Xor(Twice(a), Twice(b))
  {
  }

  lemma TopXor(a: bv16, b: bv16)
    ensures Top(Xor(a, b)) == (Top(a) != Top(b))
  {
  }

  lemma XorLaws(a: bv16, b: bv16, c: bv16)
    ensures Xor(a, 0) == a && Xor(0, a) == a && Xor(a, a) == 0
    ensures Xor(a, b) == Xor(b, a)
    ensures Xor(Xor(a, b), c) == Xor(a, Xor(b, c))
  {
  }

  lemma XorRegroup(a: bv16, b: bv16, c: bv16)
    ensures Xor(Xor(a, c), Xor(b, c)) == Xor(a, b)
    ensures Xor(Xor(a, c), b) == Xor(Xor(a, b), c) == Xor(a, Xor(b, c))
  {
    hide Xor;
    XorLaws(a, b, c);
    XorLaws(a, c, b);
    XorLaws(b, c, a);
    XorLaws(a, c, Xor(b, c));
    XorLaws(c, b, c);
    XorLaws(c, c, b);
    XorLaws(b, c, c);
  }

  lemma WidenedOut(b: Byte)
    ensures Twice(Twice(Twice(Twice(Twice(Twice(Twice(Twice(Widen(b))))))))) == 0
  {
  }

  lemma ShiftLeft8(w: bv16)
    ensures ShiftLeft(w, 8) == Twice(Twice(Twice(Twice(Twice(Twice(Twice(Twice(w))))))))
  {
    hide Twice;
    var w2 := Twice(Twice(w));
    var w4 := Twice(Twice(w2));
    var w6 := Twice(Twice(w4));
    assert ShiftLeft(w, 8) == ShiftLeft(w2, 6);
    assert ShiftLeft(w2, 6) == ShiftLeft(w4, 4);
    assert ShiftLeft(w4, 4) == ShiftLeft(w6, 2);
  }

  lemma ShiftedOut(w: bv16)
    ensures Twice(Twice(Twice(Twice(Twice(Twice(Twice(Twice(
            Twice(Twice(Twice(Twice(Twice(Twice(Twice(Twice(w)))))))))))))))) == 0
  {
  }

  lemma ShiftLeft16(w: bv16)
    ensures ShiftLeft(w, 16) == 0
  {
    ShiftedOut(w);
    hide Twice;
    var w4 := Twice(Twice(Twice(Twice(w))));
    var w8 := Twice(Twice(Twice(Twice(w4))));
    assert ShiftLeft(w, 16) == ShiftLeft(Twice(Twice(w)), 14) == ShiftLeft(w4, 12);
    assert ShiftLeft(w4, 12) == ShiftLeft(Twice(Twice(w4)), 10) == ShiftLeft(w8, 8);
    ShiftLeft8(w8);
  }

  // ----- byte-wise and bit-wise agree

  /** Mixing a word in up front and shifting is feeding its top bit and keeping the rest mixed in. */
  lemma ShiftMixed(reg: bv16, w: bv16)
    ensures Shift(Xor(reg, w)) == Xor(BitStep(reg, Top(w)), Twice(w))
  {
    TwiceXor(reg, w);
    TopXor(reg, w);
    XorRegroup(Twice(reg), Twice(w), POLGEN);
    hide Top, Twice, Xor;
  }

  lemma {:induction false} ShiftsIsFeed(reg: bv16, w: bv16, n: nat)
    ensures Shifts(Xor(reg, w), n) == Xor(Feed(reg, TopBits(w, n)), ShiftLeft(w, n))
    decreases n
  {
    hide Shift, BitStep, Top, Twice, Xor;
    if n > 0 {
      ShiftMixed(reg, w);
      ShiftsIsFeed(BitStep(reg, Top(w)), Twice(w), n - 1);
    }
  }

  /** The widened byte shows its own bits, most significant first. */
  lemma WidenedBits(b: Byte)
    ensures TopBits(Widen(b), 8) == MsbFirst(b)
  {
    hide Top, Twice, Widen, Bit, TopBits, ShiftLeft;
    forall i | 0 <= i < 8 ensures TopBits(Widen(b), 8)[i] == MsbFirst(b)[i] {
      TopBitAt(Widen(b), 8, i);
      WidenedBit(b, i);
    }
  }

  lemma {:induction false} TopBitAt(w: bv16, n: nat, i: nat)
    requires i < n
    ensures TopBits(w, n)[i] == Top(ShiftLeft(w, i))
    decreases n
  {
    hide Top, Twice;
    if i > 0 {
      TopBitAt(Twice(w), n - 1, i - 1);
    }
  }

  lemma WidenedBit(b: Byte, i: nat)
    requires i < 8
    ensures Top(ShiftLeft(Widen(b), i)) == Bit(b, 7 - i)
  {
    ShiftLefts(Widen(b));
    HighBits(b);
    LowBits(b);
    hide Top, Twice, Widen, Bit, ShiftLeft;
    assert i == 0 || i == 1 || i == 2 || i == 3 || i == 4 || i == 5 || i == 6 || i == 7;
  }

  lemma ShiftLefts(w: bv16)
    ensures ShiftLeft(w, 0) == w && ShiftLeft(w, 1) == Twice(w) && ShiftLeft(w, 2) == Twice(Twice(w))
    ensures ShiftLeft(w, 3) == Twice(Twice(Twice(w))) && ShiftLeft(w, 4) == Twice(Twice(Twice(Twice(w))))
    ensures ShiftLeft(w, 5) == Twice(ShiftLeft(w, 4)) && ShiftLeft(w, 6) == Twice(ShiftLeft(w, 5))
    ensures ShiftLeft(w, 7) == Twice(ShiftLeft(w, 6))
  {
    hide Twice;
    ShiftLeftLast(w, 0);
    ShiftLeftLast(w, 1);
    ShiftLeftLast(w, 2);
    ShiftLeftLast(w, 3);
    ShiftLeftLast(w, 4);
    ShiftLeftLast(w, 5);
    ShiftLeftLast(w, 6);
  }

  lemma {:induction false} ShiftLeftLast(w: bv16, n: nat)
    ensures ShiftLeft(w, n + 1) == Twice(ShiftLeft(w, n))
    decreases n
  {
    hide Twice;
    if n > 0 {
      ShiftLeftLast(Twice(w), n - 1);
    }
  }

  lemma HighBits(b: Byte)
    ensures var w := Widen(b);
            && Top(w) == Bit(b, 7) && Top(Twice(w)) == Bit(b, 6)
            && Top(Twice(Twice(w))) == Bit(b, 5) && Top(Twice(Twice(Twice(w)))) == Bit(b, 4)
  {
  }

  lemma LowBits(b: Byte)
    ensures var w := Twice(Twice(Twice(Twice(Widen(b)))));
            && Top(w) == Bit(b, 3) && Top(Twice(w)) == Bit(b, 2)
            && Top(Twice(Twice(w))) == Bit(b, 1) && Top(Twice(Twice(Twice(w)))) == Bit(b, 0)
  {
  }

  lemma ByteStepIsFeed(reg: bv16, b: Byte)
    ensures ByteStep(reg, b) == Feed(reg, MsbFirst(b))
  {
    WidenedBits(b);
    hide Top, Shift, BitStep, Xor, Twice, Widen, MsbFirst;
    var w := Widen(b);
    ShiftsIsFeed(reg, w, 8);
    ShiftLeft8(w);
    WidenedOut(b);
    XorLaws(Feed(reg, TopBits(w, 8)), 0, 0);
  }

  lemma {:induction false} CrcIsFeed(crc: bv16, data: seq<Byte>)
    ensures CrcFrom(crc, data) == Feed(crc, Bits(data))
    decreases data
  {
    hide Top, Shift, BitStep, ByteStep, Widen, MsbFirst;
    if data != [] {
      ByteStepIsFeed(crc, data[0]);
      CrcIsFeed(ByteStep(crc, data[0]), data[1..]);
      FeedAppend(crc, MsbFirst(data[0]), Bits(data[1..]));
    }
  }

  // ----- linearity over exclusive or

  lemma BitStepXor(r: bv16, s: bv16, a: bool, b: bool)
    ensures BitStep(Xor(r, s), a != b) == Xor(BitStep(r, a), BitStep(s, b))
  {
    hide Top, Xor, Twice;
    TopXor(r, s);
    TwiceXor(r, s);
    XorRegroup(Twice(r), Twice(s), POLGEN);
  }

  lemma {:induction false} FeedXor(r: bv16, s: bv16, a: seq<bool>, b: seq<bool>)
    requires |a| == |b|
    ensures Feed(Xor(r, s), Add(a, b)) == Xor(Feed(r, a), Feed(s, b))
    decreases a
  {
    hide BitStep, Xor;
    if a != [] {
      BitStepXor(r, s, a[0], b[0]);
      FeedXor(BitStep(r, a[0]), BitStep(s, b[0]), a[1..], b[1..]);
      assert Add(a, b)[1..] == Add(a[1..], b[1..]);
    }
  }

  lemma {:induction false} TopBitsXor(v: bv16, w: bv16, n: nat)
    ensures TopBits(Xor(v, w), n) == Add(TopBits(v, n), TopBits(w, n))
    decreases n
  {
    hide Top, Xor, Twice;
    if n > 0 {
      TopXor(v, w);
      TwiceXor(v, w);
      TopBitsXor(Twice(v), Twice(w), n - 1);
    }
  }

  lemma {:induction false} BitsXor(a: seq<Byte>, b: seq<Byte>)
    requires |a| == |b|
    ensures Bits(XorBytes(a, b)) == Add(Bits(a), Bits(b))
    decreases a
  {
    hide Add, MsbFirst;
    if a == [] {
      AddEmpty();
    } else {
      BitsXor(a[1..], b[1..]);
      XorBytesSplit(a, b);
      MsbFirstXor(a[0], b[0]);
      AddAppend(MsbFirst(a[0]), Bits(a[1..]), MsbFirst(b[0]), Bits(b[1..]));
    }
  }

  lemma MsbFirstXor(a: Byte, b: Byte)
    ensures MsbFirst(a ^ b) == Add(MsbFirst(a), MsbFirst(b))
  {
    hide Bit;
    forall i | 0 <= i < 8 ensures MsbFirst(a ^ b)[i] == Add(MsbFirst(a), MsbFirst(b))[i] {
      XorBit(a, b, 7 - i);
    }
  }

  /** The CRC of a bytewise exclusive or is the exclusive or of the CRCs. */
  lemma CrcXor(a: seq<Byte>, b: seq<Byte>)
    requires |a| == |b|
    ensures Crc(XorBytes(a, b)) == Crc(a) ^ Crc(b)
  {
    hide Feed, Bits, CrcFrom;
    CrcIsFeed(0, a);
    CrcIsFeed(0, b);
    CrcIsFeed(0, XorBytes(a, b));
    BitsXor(a, b);
    FeedXor(0, 0, Bits(a), Bits(b));
  }

  // ----- the register is a polynomial remainder

  /** The register as a polynomial of degree below 16: its low bit is the coefficient of x^0. */
  function Coeffs(r: bv16): (p: Poly)
    ensures |p| == 16
  {
    PolyOf(TopBits(r, 16))
  }

  lemma {:induction false} TopBitsNext(w: bv16, n: nat)
    ensures TopBits(w, n + 1) == TopBits(w, n) + [Top(ShiftLeft(w, n))]
    decreases n
  {
    hide Top, Twice;
    if n > 0 {
      TopBitsNext(Twice(w), n - 1);
    }
  }

  lemma {:induction false} TopBitsOfTwice(r: bv16, n: nat)
    requires n > 0
    ensures TopBits(r, n)[0] == Top(r)
    ensures TopBits(Twice(r), n) == TopBits(r, n)[1..] + [Top(ShiftLeft(r, n))]
  {
    hide Top, Twice;
    TopBitsNext(r, n);
    var s, x := TopBits(r, n), Top(ShiftLeft(r, n));
    assert (s + [x])[1..] == s[1..] + [x];
    assert ([Top(r)] + TopBits(Twice(r), n))[1..] == TopBits(Twice(r), n);
  }

  lemma CoeffsOfTwice(r: bv16)
    ensures Coeffs(Twice(r)) == [false] + Coeffs(r)[..15] && Coeffs(r)[15] == Top(r)
  {
    hide TopBits, Twice;
    ShiftLeft16(r);
    TopBitsOfTwice(r, 16);
    TopOfZero();
    hide Top;
    var s, t := TopBits(r, 16), TopBits(Twice(r), 16);
    assert t == s[1..] + [false];
  }

  lemma TopOfZero()
    ensures !Top(0)
  {
  }

  lemma TwoBits(r: bv16, n: nat)
    requires n >= 2
    ensures TopBits(r, n) == [Top(r), Top(Twice(r))] + TopBits(Twice(Twice(r)), n - 2)
  {
    hide Top, Twice;
  }

  lemma FourBits(r: bv16, s: bv16, n: nat)
    requires n >= 4 && s == Twice(Twice(r))
    ensures TopBits(r, n)
         == [Top(r), Top(Twice(r)), Top(s), Top(Twice(s))] + TopBits(Twice(Twice(s)), n - 4)
  {
    hide Top, Twice, TopBits;
    TwoBits(r, n);
    TwoBits(s, n - 2);
  }

  lemma CoeffsOfGenerator()
    ensures Coeffs(POLGEN) == GENERATOR[..16]
  {
    hide TopBits;
    FourBits(0x1021, 0x4084, 16);
    FourBits(0x0210, 0x0840, 12);
    FourBits(0x2100, 0x8400, 8);
    FourBits(0x1000, 0x4000, 4);
  }

  /** One register step is one step of long division by the generator. */
  lemma CoeffsOfBitStep(r: bv16, b: bool)
    ensures IsGenerator(GENERATOR) && Coeffs(BitStep(r, b)) == DivisionStep(Coeffs(r), b, GENERATOR)
  {
    hide Top, Twice, Xor, TopBits;
    CoeffsOfTwice(r);
    CoeffsOfGenerator();
    TopBitsXor(Twice(r), POLGEN, 16);
    assert Coeffs(Xor(Twice(r), POLGEN)) == Add(Coeffs(Twice(r)), Coeffs(POLGEN));
  }

  /** Feeding bits to the register divides by the generator. */
  lemma {:induction false} FeedDivides(r: bv16, bits: seq<bool>)
    ensures IsGenerator(GENERATOR) && Coeffs(Feed(r, bits)) == Divide(Coeffs(r), bits, GENERATOR)
    decreases bits
  {
    hide BitStep, Coeffs, DivisionStep;
    if bits != [] {
      CoeffsOfBitStep(r, bits[0]);
      FeedDivides(BitStep(r, bits[0]), bits[1..]);
    }
  }

  /** M(x) * x^16 = Q(x) * G(x) + register(x). */
  lemma FeedIsRemainder(bits: seq<bool>)
    ensures IsGenerator(GENERATOR)
    ensures Divides(Zeros(16) + PolyOf(bits), GENERATOR, Quotient(bits, GENERATOR), Coeffs(Feed(0, bits)))
  {
    hide Feed, Coeffs, Divides, Divide, Quotient;
    FeedDivides(0, bits);
    CoeffsOfZero();
    DivideIsRemainder(bits, GENERATOR);
  }

  lemma CoeffsOfZero()
    ensures Coeffs(0) == Zeros(16)
  {
    var z: bv16 := 0;
    XorLaws(z, z, z);
    TopBitsXor(z, z, 16);
    hide Top, Twice, Xor, TopBits;
  }

  // ----- what the CRC guarantees about byte strings

  /** Crc is the remainder of M(x) * x^16 by the generator, and the only one. */
  lemma CrcIsRemainder(data: seq<Byte>, q: Poly, r: Poly)
    ensures IsGenerator(GENERATOR)
    ensures var m := Zeros(16) + PolyOf(Bits(data));
            && Divides(m, GENERATOR, Quotient(Bits(data), GENERATOR), Coeffs(Crc(data)))
            && (Divides(m, GENERATOR, q, r) ==> r == Coeffs(Crc(data)))
  {
    hide Bits, Feed, CrcFrom, Coeffs, Quotient;
    CrcIsFeed(0, data);
    FeedIsRemainder(Bits(data));
    var m := Zeros(16) + PolyOf(Bits(data));
    if Divides(m, GENERATOR, q, r) {
      RemainderUnique(m, GENERATOR, q, r, Quotient(Bits(data), GENERATOR), Coeffs(Crc(data)));
    }
  }

  /** Some bit is set, and every set bit lies in a window of 16 that starts at bit s. */
  ghost predicate IsBurst(bits: seq<bool>, s: nat) { IsBurstWithin(bits, s, 16) }

  /** A nonzero message that leaves the register at zero has two set bits at least 16 apart. */
  lemma ZeroRegisterIsWide(bits: seq<bool>, k: nat) returns (i: nat, j: nat)
    requires k < |bits| && bits[k] && Feed(0, bits) == 0
    ensures i + 16 <= j < |bits| && bits[i] && bits[j]
  {
    hide Feed, Coeffs, Divide;
    FeedDivides(0, bits);
    CoeffsOfZero();
    i, j := NoRemainderIsWide(bits, k, GENERATOR);
  }

  /** No error burst of at most 16 bits, at any position, leaves the CRC unchanged. */
  lemma BurstChangesCrc(data: seq<Byte>, error: seq<Byte>, s: nat)
    requires |data| == |error| && IsBurst(Bits(error), s)
    ensures Crc(XorBytes(data, error)) != Crc(data)
  {
    hide Bits, Feed, CrcFrom;
    CrcXor(data, error);
    XorDiffers(Crc(data), Crc(error));
    if Crc(error) == 0 {
      CrcIsFeed(0, error);
      var bits := Bits(error);
      var k :| 0 <= k < |bits| && bits[k];
      var i, j := ZeroRegisterIsWide(bits, k);
      assert false;
    }
  }

  lemma XorDiffers(a: bv16, b: bv16)
    ensures a ^ b == a ==> b == 0
  {
  }

  function High(crc: bv16): Byte { ((crc >> 8) & 0x00ff) as Byte }

  function Low(crc: bv16): Byte { (crc & 0x00ff) as Byte }

  /** The CRC field as both records store it: low byte first. */
  function Stored(first: Byte, second: Byte): bv16 { ((second as bv16) << 8) + (first as bv16) }

  lemma {:induction false} CrcAppend(crc: bv16, s: seq<Byte>, t: seq<Byte>)
    ensures CrcFrom(crc, s + t) == CrcFrom(CrcFrom(crc, s), t)
    decreases s
  {
    hide ByteStep;
    if s == [] {
      assert s + t == t;
    } else {
      CrcAppend(ByteStep(crc, s[0]), s[1..], t);
      assert (s + t)[1..] == s[1..] + t;
    }
  }

  lemma {:induction false} ShiftsXor(a: bv16, b: bv16, n: nat)
    ensures Shifts(Xor(a, b), n) == Xor(Shifts(a, n), Shifts(b, n))
    decreases n
  {
    hide Top, Twice, Xor, Shift;
    if n > 0 {
      BitStepXor(a, b, false, false);
      ShiftIsBitStep(a);
      ShiftIsBitStep(b);
      ShiftIsBitStep(Xor(a, b));
      ShiftsXor(Shift(a), Shift(b), n - 1);
    }
  }

  lemma ShiftIsBitStep(a: bv16)
    ensures Shift(a) == BitStep(a, false)
  {
    hide Top, Twice, Xor;
  }

  lemma {:induction false} ShiftsZero(a: bv16, n: nat)
    ensures Shifts(a, n) == 0 <==> a == 0
    decreases n
  {
    ShiftZero(a);
    hide Shift;
    if n > 0 {
      ShiftsZero(Shift(a), n - 1);
    }
  }

  lemma ShiftZero(a: bv16)
    ensures Shift(a) == 0 <==> a == 0
  {
  }

  lemma XorZero(a: bv16, b: bv16)
    ensures Xor(a, b) == 0 <==> a == b
  {
    hide Xor;
    XorLaws(a, b, b);
    XorLaws(b, b, b);
  }

  lemma ShiftsLowByte(b: Byte)
    ensures Shifts(b as bv16, 8) == Widen(b)
  {
    assert Shift(b as bv16) == (b as bv16) << 1;
    assert Shift((b as bv16) << 1) == (b as bv16) << 2;
    assert Shift((b as bv16) << 2) == (b as bv16) << 3;
    assert Shift((b as bv16) << 3) == (b as bv16) << 4;
    assert Shift((b as bv16) << 4) == (b as bv16) << 5;
    assert Shift((b as bv16) << 5) == (b as bv16) << 6;
    assert Shift((b as bv16) << 6) == (b as bv16) << 7;
    assert Shift((b as bv16) << 7) == (b as bv16) << 8;
    hide Shift;
    assert Shifts(b as bv16, 8) == Shifts((b as bv16) << 4, 4);
  }

  lemma HighLow(crc: bv16, high: Byte, low: Byte)
    ensures Xor(crc, Widen(high)) == low as bv16 <==> high == High(crc) && low == Low(crc)
  {
  }

  lemma StoredIsXor(first: Byte, second: Byte)
    ensures Stored(first, second) == Xor(first as bv16, Widen(second))
  {
  }

  /** The two stored bytes read back as a CRC value exactly when they are that value's low and high bytes. */
  lemma StoredRoundTrip(crc: bv16, first: Byte, second: Byte)
    ensures Stored(first, second) == crc <==> first == Low(crc) && second == High(crc)
  {
    StoredIsXor(first, second);
    HighLow(crc, second, first);
    hide High, Low, Widen, Xor, Stored;
    XorZero(crc, Xor(first as bv16, Widen(second)));
    XorRegroup(crc, first as bv16, Widen(second));
    XorZero(Xor(crc, Widen(second)), first as bv16);
  }

  /** Two appended bytes bring the register to zero exactly when they are the CRC, high byte first. */
  lemma CrcAppended(data: seq<Byte>, high: Byte, low: Byte)
    ensures Crc(data + [high, low]) == 0 <==> high == High(Crc(data)) && low == Low(Crc(data))
  {
    var r := Crc(data);
    HighLow(r, high, low);
    ShiftsLowByte(low);
    hide High, Low, Widen, Xor, Top, Twice, Shift, Shifts;
    CrcAppend(0, data, [high, low]);
    assert [high, low][1..] == [low];
    var r' := ByteStep(r, high);
    assert CrcFrom(r', [low]) == CrcFrom(ByteStep(r', low), []);
    assert CrcFrom(r, [high, low]) == CrcFrom(r', [low]);
    ShiftsZero(Xor(ByteStep(r, high), Widen(low)), 8);
    XorZero(ByteStep(r, high), Widen(low));
    var v := Xor(r, Widen(high));
    ShiftsXor(v, low as bv16, 8);
    XorZero(Shifts(v, 8), Widen(low));
    ShiftsZero(Xor(v, low as bv16), 8);
    XorZero(v, low as bv16);
  }
}

/** Bytes as numbers, bit by bit. */
module ByteValue {
  type Byte = bv8

  /** mask when the lowest binary digit of c is set. */
  function Flag(c: nat, mask: Byte): Byte { if c % 2 == 1 then mask else 0 }

  function Digit(b: Byte, mask: Byte): nat { if b & mask != 0 then 1 else 0 }

  /** The number a byte stands for. */
  function FromByte(b: Byte): (n: nat)
    ensures n < 256
  {
    Digit(b, 0x01) + 2 * Digit(b, 0x02) + 4 * Digit(b, 0x04) + 8 * Digit(b, 0x08)
    + 16 * Digit(b, 0x10) + 32 * Digit(b, 0x20) + 64 * Digit(b, 0x40) + 128 * Digit(b, 0x80)
  }

  /** The byte with the eight lowest binary digits of n. */
  function ToByte(n: nat): Byte {
    Flag(n, 0x01) | Flag(n / 2, 0x02) | Flag(n / 2 / 2, 0x04) | Flag(n / 2 / 2 / 2, 0x08)
    | Flag(n / 2 / 2 / 2 / 2, 0x10) | Flag(n / 2 / 2 / 2 / 2 / 2, 0x20)
    | Flag(n / 2 / 2 / 2 / 2 / 2 / 2, 0x40) | Flag(n / 2 / 2 / 2 / 2 / 2 / 2 / 2, 0x80)
  }

  /** 1 << k. */
  function MaskAt(k: nat): Byte
    requires k < 8
  {
    if k == 0 then 0x01 else if k == 1 then 0x02 else if k == 2 then 0x04 else if k == 3 then 0x08
    else if k == 4 then 0x10 else if k == 5 then 0x20 else if k == 6 then 0x40 else 0x80
  }

  /** Bit k of a byte. */
  function Bit(b: Byte, k: nat): bool
    requires k < 8
  {
    b & MaskAt(k) != 0
  }

  /** The eight bits of a byte, most significant first. */
  function MsbFirst(b: Byte): (bits: seq<bool>)
    ensures |bits| == 8
  {
    seq(8, i requires 0 <= i < 8 => Bit(b, 7 - i))
  }

  /** And least significant first. */
  function LsbFirst(b: Byte): (bits: seq<bool>)
    ensures |bits| == 8
  {
    seq(8, i requires 0 <= i < 8 => Bit(b, i))
  }

  lemma XorBit(a: Byte, b: Byte, k: nat)
    requires k < 8
    ensures Bit(a ^ b, k) == (Bit(a, k) != Bit(b, k))
  {
    MaskDistributes(a, b, MaskAt(k));
    MaskedBit(a, k);
    MaskedBit(b, k);
    XorOfMasked(a & MaskAt(k), b & MaskAt(k), MaskAt(k));
    hide MaskAt;
  }

  lemma MaskDistributes(a: Byte, b: Byte, m: Byte)
    ensures (a ^ b) & m == (a & m) ^ (b & m)
  {
  }

  lemma MaskedBit(a: Byte, k: nat)
    requires k < 8
    ensures a & MaskAt(k) == 0 || a & MaskAt(k) == MaskAt(k)
  {
  }

  lemma XorOfMasked(p: Byte, q: Byte, m: Byte)
    requires (p == 0 || p == m) && (q == 0 || q == m)
    ensures (p ^ q != 0) == ((p != 0) != (q != 0))
  {
  }

  lemma DigitsBack(b: Byte, f0: Byte, f1: Byte, f2: Byte, f3: Byte, f4: Byte, f5: Byte, f6: Byte, f7: Byte)
    requires f0 in {0, 0x01} && f1 in {0, 0x02} && f2 in {0, 0x04} && f3 in {0, 0x08}
    requires f4 in {0, 0x10} && f5 in {0, 0x20} && f6 in {0, 0x40} && f7 in {0, 0x80}
    requires b == f0 | f1 | f2 | f3 | f4 | f5 | f6 | f7
    ensures b & 0x01 == f0 && b & 0x02 == f1 && b & 0x04 == f2 && b & 0x08 == f3
    ensures b & 0x10 == f4 && b & 0x20 == f5 && b & 0x40 == f6 && b & 0x80 == f7
  {
  }

  lemma FlagDigit(b: Byte, c: nat, mask: Byte)
    requires mask != 0 && b & mask == Flag(c, mask)
    ensures Digit(b, mask) == c % 2
  {
  }

  lemma Halves(n: nat, n1: nat, n2: nat, n3: nat, n4: nat, n5: nat, n6: nat, n7: nat)
    requires n1 == n / 2 && n2 == n1 / 2 && n3 == n2 / 2 && n4 == n3 / 2
    requires n5 == n4 / 2 && n6 == n5 / 2 && n7 == n6 / 2 && n < 256
    ensures n == n % 2 + 2 * (n1 % 2) + 4 * (n2 % 2) + 8 * (n3 % 2)
               + 16 * (n4 % 2) + 32 * (n5 % 2) + 64 * (n6 % 2) + 128 * (n7 % 2)
  {
    assert n == n % 2 + 2 * n1 && n1 == n1 % 2 + 2 * n2 && n2 == n2 % 2 + 2 * n3 && n3 == n3 % 2 + 2 * n4;
    assert n4 == n4 % 2 + 2 * n5 && n5 == n5 % 2 + 2 * n6 && n6 == n6 % 2 + 2 * n7 && n7 % 2 == n7;
  }

  lemma ToByteDigits(b: Byte, n: nat, n1: nat, n2: nat, n3: nat, n4: nat, n5: nat, n6: nat, n7: nat)
    requires b == Flag(n, 0x01) | Flag(n1, 0x02) | Flag(n2, 0x04) | Flag(n3, 0x08)
                | Flag(n4, 0x10) | Flag(n5, 0x20) | Flag(n6, 0x40) | Flag(n7, 0x80)
    ensures Digit(b, 0x01) == n % 2 && Digit(b, 0x02) == n1 % 2 && Digit(b, 0x04) == n2 % 2 && Digit(b, 0x08) == n3 % 2
    ensures Digit(b, 0x10) == n4 % 2 && Digit(b, 0x20) == n5 % 2 && Digit(b, 0x40) == n6 % 2 && Digit(b, 0x80) == n7 % 2
  {
    DigitsBack(b, Flag(n, 0x01), Flag(n1, 0x02), Flag(n2, 0x04), Flag(n3, 0x08),
               Flag(n4, 0x10), Flag(n5, 0x20), Flag(n6, 0x40), Flag(n7, 0x80));
    hide Digit, Flag;
    FlagDigit(b, n, 0x01);
    FlagDigit(b, n1, 0x02);
    FlagDigit(b, n2, 0x04);
    FlagDigit(b, n3, 0x08);
    FlagDigit(b, n4, 0x10);
    FlagDigit(b, n5, 0x20);
    FlagDigit(b, n6, 0x40);
    FlagDigit(b, n7, 0x80);
  }

  lemma ByteRoundTrip(n: nat)
    requires n < 256
    ensures FromByte(ToByte(n)) == n
  {
    hide Digit, Flag;
    var n1 := n / 2;
    var n2 := n1 / 2;
    var n3 := n2 / 2;
    var n4 := n3 / 2;
    var n5 := n4 / 2;
    var n6 := n5 / 2;
    var n7 := n6 / 2;
    Halves(n, n1, n2, n3, n4, n5, n6, n7);
    ToByteDigits(ToByte(n), n, n1, n2, n3, n4, n5, n6, n7);
    hide ToByte;
  }

  lemma FullByte(b: Byte)
    ensures FromByte(b) == 0xFF <==> b == 0xFF
  {
    if FromByte(b) == 0xFF {
      AllDigits(b);
    }
  }

  lemma AllDigits(b: Byte)
    requires Digit(b, 0x01) == 1 && Digit(b, 0x02) == 1 && Digit(b, 0x04) == 1 && Digit(b, 0x08) == 1
    requires Digit(b, 0x10) == 1 && Digit(b, 0x20) == 1 && Digit(b, 0x40) == 1 && Digit(b, 0x80) == 1
    ensures b == 0xFF
  {
  }

  function XorBytes(a: seq<Byte>, b: seq<Byte>): seq<Byte>
    requires |a| == |b|
  {
    seq(|a|, i requires 0 <= i < |a| => a[i] ^ b[i])
  }

  lemma XorBytesSplit(a: seq<Byte>, b: seq<Byte>)
    requires |a| == |b| > 0
    ensures |XorBytes(a, b)| == |a|
    ensures XorBytes(a, b)[0] == a[0] ^ b[0] && XorBytes(a, b)[1..] == XorBytes(a[1..], b[1..])
  {
  }
}

/** lfs_crc: two table lookups per byte against the bit-by-bit reflected CRC-32. */
module Crc32 {
  import opened ByteValue

  /** The reflected polynomial of IEEE Std 802.3, section 3.2.9. */
  const POLYNOMIAL: bv32 := 0xedb88320

  const RTABLE: seq<bv32> := [
    0x00000000, 0x1db71064, 0x3b6e20c8, 0x26d930ac, 0x76dc4190, 0x6b6b51f4, 0x4db26158, 0x5005713c,
    0xedb88320, 0xf00f9344, 0xd6d6a3e8, 0xcb61b38c, 0x9b64c2b0, 0x86d3d2d4, 0xa00ae278, 0xbdbdf21c]

  // ----- the bit-by-bit definition

  function Half(r: bv32): bv32 { r >> 1 }

  function Xor(a: bv32, b: bv32): bv32 { a ^ b }

  function Low(r: bv32): bool { r & 1 != 0 }

  function BitUpdate(crc: bv32): bv32 { if Low(crc) then Xor(Half(crc), POLYNOMIAL) else Half(crc) }

  function BitUpdates(crc: bv32, n: nat): bv32
    decreases n
  {
    if n == 0 then crc else BitUpdates(BitUpdate(crc), n - 1)
  }

  function Widen(b: Byte): bv32 { b as bv32 }

  function Crc(crc: bv32, data: seq<Byte>): bv32
    decreases data
  {
    if data == [] then crc else Crc(BitUpdates(Xor(crc, Widen(data[0])), 8), data[1..])
  }

  // ----- bit-vector facts

  lemma HalfXor(a: bv32, b: bv32)
    ensures Half(Xor(a, b)) == Xor(Half(a), Half(b))
  {
  }

  lemma LowXor(a: bv32, b: bv32)
    ensures Low(Xor(a, b)) == (Low(a) != Low(b))
  {
  }

  lemma XorLaws(a: bv32, b: bv32, c: bv32)
    ensures Xor(a, 0) == a && Xor(0, a) == a && Xor(a, a) == 0
    ensures Xor(a, b) == Xor(b, a)
    ensures Xor(Xor(a, b), c) == Xor(a, Xor(b, c))
  {
  }

  lemma XorRegroup(a: bv32, b: bv32, c: bv32)
    ensures Xor(Xor(a, c), Xor(b, c)) == Xor(a, b)
    ensures Xor(Xor(a, c), b) == Xor(Xor(a, b), c) == Xor(a, Xor(b, c))
  {
    hide Xor;
    XorLaws(a, b, c);
    XorLaws(a, c, b);
    XorLaws(b, c, a);
    XorLaws(a, c, Xor(b, c));
    XorLaws(c, b, c);
    XorLaws(c, c, b);
    XorLaws(b, c, c);
  }

  lemma BitUpdateXor(a: bv32, b: bv32)
    ensures BitUpdate(Xor(a, b)) == Xor(BitUpdate(a), BitUpdate(b))
  {
    hide Low, Xor, Half;
    LowXor(a, b);
    HalfXor(a, b);
    XorRegroup(Half(a), Half(b), POLYNOMIAL);
  }

  lemma {:induction false} BitUpdatesXor(a: bv32, b: bv32, n: nat)
    ensures BitUpdates(Xor(a, b), n) == Xor(BitUpdates(a, n), BitUpdates(b, n))
    decreases n
  {
    hide Xor, BitUpdate;
    if n > 0 {
      BitUpdateXor(a, b);
      BitUpdatesXor(BitUpdate(a), BitUpdate(b), n - 1);
    }
  }

  lemma {:induction false} BitUpdatesAdd(a: bv32, m: nat, n: nat)
    ensures BitUpdates(a, m + n) == BitUpdates(BitUpdates(a, m), n)
    decreases m
  {
    hide BitUpdate;
    if m > 0 {
      BitUpdatesAdd(BitUpdate(a), m - 1, n);
    }
  }

  // ----- one table lookup is four bits

  /** Four updates, one after the other. */
  lemma FourUpdates(x: bv32)
    ensures BitUpdates(x, 4) == BitUpdate(BitUpdate(BitUpdate(BitUpdate(x))))
  {
    hide BitUpdate;
    assert BitUpdates(x, 4) == BitUpdates(BitUpdate(BitUpdate(x)), 2);
  }

  lemma TableEntry(i: bv32)
    requires i <= 15
    ensures RTABLE[i as int] == BitUpdate(BitUpdate(BitUpdate(BitUpdate(i))))
  {
  }

  lemma HighNibbles(x: bv32)
    ensures BitUpdate(BitUpdate(BitUpdate(BitUpdate(x & 0xfffffff0)))) == x >> 4
  {
  }

  lemma SplitNibble(x: bv32)
    ensures Xor(x & 0xfffffff0, x & 0xf) == x
  {
  }

  lemma LowNibble(x: bv32)
    ensures x & 0xf <= 15
  {
  }

  /** rtable[x & 0xf]. */
  function Lookup(x: bv32): bv32 {
    LowNibble(x);
    RTABLE[(x & 0xf) as int]
  }

  lemma LookupIsFourUpdates(x: bv32)
    ensures BitUpdates(x, 4) == Xor(x >> 4, Lookup(x))
  {
    var high, low := x & 0xfffffff0, x & 0xf;
    SplitNibble(x);
    FourUpdates(high);
    FourUpdates(low);
    HighNibbles(x);
    LowNibble(x);
    TableEntry(low);
    hide BitUpdate, Xor, BitUpdates;
    BitUpdatesXor(high, low, 4);
  }

  /** The two lookups made for one byte. */
  function TableStep(crc: bv32, b: Byte): bv32 {
    var first := Xor(crc >> 4, Lookup(Xor(crc, Widen(b) >> 0)));
    Xor(first >> 4, Lookup(Xor(first, Widen(b) >> 4)))
  }

  lemma ShiftXor(a: bv32, b: bv32)
    ensures Xor(a, b) >> 4 == Xor(a >> 4, b >> 4)
  {
    FourHalves(a);
    FourHalves(b);
    FourHalves(Xor(a, b));
    hide Half, Xor;
    HalfXor(a, b);
    HalfXor(Half(a), Half(b));
    HalfXor(Half(Half(a)), Half(Half(b)));
    HalfXor(Half(Half(Half(a))), Half(Half(Half(b))));
  }

  lemma FourHalves(a: bv32)
    ensures a >> 4 == Half(Half(Half(Half(a))))
  {
  }

  lemma ShiftByNothing(x: bv32)
    ensures x >> 0 == x
  {
  }

  lemma ByteShiftedOut(b: Byte)
    ensures (Widen(b) >> 4) >> 4 == 0
  {
  }

  /** Two lookups are eight bit updates. */
  lemma TableStepIsEightUpdates(crc: bv32, b: Byte)
    ensures TableStep(crc, b) == BitUpdates(Xor(crc, Widen(b)), 8)
  {
    ByteShiftedOut(b);
    ShiftByNothing(Widen(b));
    hide Xor, Lookup, BitUpdates, Widen;
    var w := Widen(b);
    var x, s := Xor(crc, w), w >> 4;
    BitUpdatesAdd(x, 4, 4);
    LookupIsFourUpdates(x);
    ShiftXor(crc, w);
    var first := Xor(crc >> 4, Lookup(x));
    XorRegroup(crc >> 4, s, Lookup(x));
    var y := Xor(first, s);
    assert y == BitUpdates(x, 4);
    LookupIsFourUpdates(y);
    ShiftXor(first, s);
    XorLaws(first >> 4, 0, 0);
  }

  /** lfs_crc equals the bit-by-bit definition, for every seed and buffer. */
  method LfsCrc(seed: bv32, buffer: array<Byte>, size: nat) returns (crc: bv32)
    requires size <= buffer.Length
    ensures crc == Crc(seed, buffer[..size])
  {
    hide BitUpdates, Lookup, Xor, Widen;
    crc := seed;
    for i := 0 to size
      invariant Crc(crc, buffer[i..size]) == Crc(seed, buffer[..size])
    {
      TableStepIsEightUpdates(crc, buffer[i]);
      var data := buffer[i];
      crc := Xor(crc >> 4, Lookup(Xor(crc, Widen(data) >> 0)));
      crc := Xor(crc >> 4, Lookup(Xor(crc, Widen(data) >> 4)));
      assert buffer[i..size][1..] == buffer[i + 1..size];
    }
  }

  /** A buffer may be split anywhere and the calls chained. */
  lemma {:induction false} CrcChains(seed: bv32, a: seq<Byte>, b: seq<Byte>)
    ensures Crc(seed, a + b) == Crc(Crc(seed, a), b)
    decreases a
  {
    hide BitUpdates, Xor, Widen;
    if a == [] {
      assert a + b == b;
    } else {
      CrcChains(BitUpdates(Xor(seed, Widen(a[0])), 8), a[1..], b);
      assert (a + b)[1..] == a[1..] + b;
    }
  }
}

/** The copy and reversal routines of FunctionLib.c over one memory; pointers are indices into it. */
module MemoryRoutines {
  import opened Arithmetic
  import opened ByteValue

  // ----- 32-bit words, little-endian

  function Word(b0: Byte, b1: Byte, b2: Byte, b3: Byte): bv32 {
    ((b3 as bv32) << 24) | ((b2 as bv32) << 16) | ((b1 as bv32) << 8) | (b0 as bv32)
  }

  function Byte0(w: bv32): Byte { (w & 0xff) as Byte }

  function Byte1(w: bv32): Byte { ((w >> 8) & 0xff) as Byte }

  function Byte2(w: bv32): Byte { ((w >> 16) & 0xff) as Byte }

  function Byte3(w: bv32): Byte { ((w >> 24) & 0xff) as Byte }

  /** HAL_BSWAP32. */
  function Bswap32(w: bv32): bv32 {
    ((w & 0xff) << 24) | ((w & 0xff00) << 8) | ((w >> 8) & 0xff00) | ((w >> 24) & 0xff)
  }

  lemma WordBytes(b0: Byte, b1: Byte, b2: Byte, b3: Byte)
    ensures var w := Word(b0, b1, b2, b3); Byte0(w) == b0 && Byte1(w) == b1 && Byte2(w) == b2 && Byte3(w) == b3
  {
  }

  lemma SwappedBytes(w: bv32)
    ensures var v := Bswap32(w);
            Byte0(v) == Byte3(w) && Byte1(v) == Byte2(w) && Byte2(v) == Byte1(w) && Byte3(v) == Byte0(w)
  {
  }

  function LoadWord(mem: array<Byte>, p: nat): bv32
    requires p + 4 <= mem.Length
    reads mem
  {
    Word(mem[p], mem[p + 1], mem[p + 2], mem[p + 3])
  }

  method StoreWord(mem: array<Byte>, p: nat, w: bv32)
    requires p + 4 <= mem.Length
    modifies mem
    ensures mem[p] == Byte0(w) && mem[p + 1] == Byte1(w) && mem[p + 2] == Byte2(w) && mem[p + 3] == Byte3(w)
    ensures forall i :: 0 <= i < mem.Length && !(p <= i < p + 4) ==> mem[i] == old(mem[i])
  {
    mem[p], mem[p + 1], mem[p + 2], mem[p + 3] := Byte0(w), Byte1(w), Byte2(w), Byte3(w);
  }

  lemma SwappedLoad(mem: array<Byte>, p: nat)
    requires p + 4 <= mem.Length
    ensures var w := Bswap32(LoadWord(mem, p));
            Byte0(w) == mem[p + 3] && Byte1(w) == mem[p + 2] && Byte2(w) == mem[p + 1] && Byte3(w) == mem[p]
  {
    WordBytes(mem[p], mem[p + 1], mem[p + 2], mem[p + 3]);
    SwappedBytes(LoadWord(mem, p));
    hide Word, Bswap32, Byte0, Byte1, Byte2, Byte3;
  }

  // ----- reversal

  function Reversed(s: seq<Byte>): (r: seq<Byte>) {
    seq(|s|, i requires 0 <= i < |s| => s[|s| - 1 - i])
  }

  lemma ReversedTwice(s: seq<Byte>)
    ensures Reversed(Reversed(s)) == s
  {
    var r := Reversed(s);
    assert forall i :: 0 <= i < |s| ==> Reversed(r)[i] == r[|s| - 1 - i] == s[i];
  }

  /** The source address whose byte belongs at address j of the destination. */
  function Opposite(dst: nat, src: nat, n: nat, j: int): int { src + n - 1 - (j - dst) }

  /**
   * The outer d bytes at each end of the destination hold the source reversed; nothing else
   * changed yet.
   */
  ghost predicate Turned(now: seq<Byte>, before: seq<Byte>, dst: nat, src: nat, n: nat, d: nat) {
    && |now| == |before| && dst + n <= |before| && src + n <= |before| && 2 * d <= n
    && forall j :: 0 <= j < |now| ==>
         now[j] == if dst <= j < dst + d || dst + n - d <= j < dst + n then before[Opposite(dst, src, n, j)]
                   else before[j]
  }

  /** now is old with the w bytes at p taken, back to front, from old at q. */
  ghost predicate Reverses(now: seq<Byte>, old': seq<Byte>, p: nat, q: nat, w: nat) {
    && |now| == |old'| && p + w <= |now| && q + w <= |now|
    && forall j :: p <= j < p + w ==> now[j] == old'[q + w - 1 - (j - p)]
  }

  ghost predicate SameElsewhere(now: seq<Byte>, old': seq<Byte>, p: nat, q: nat, w: nat) {
    |now| == |old'| && forall j :: 0 <= j < |now| && !(p <= j < p + w) && !(q <= j < q + w) ==> now[j] == old'[j]
  }

  /** Exchanging one more unit of w bytes at each end. */
  lemma TurnStep(before: seq<Byte>, mid: seq<Byte>, now: seq<Byte>, dst: nat, src: nat, n: nat, d: nat, w: nat)
    requires Turned(mid, before, dst, src, n, d) && 2 * d + 2 * w <= n
    requires Disjoint(dst, src, n) || dst == src
    requires Reverses(now, mid, dst + n - d - w, src + d, w) && Reverses(now, mid, dst + d, src + n - d - w, w)
    requires SameElsewhere(now, mid, dst + d, dst + n - d - w, w)
    ensures Turned(now, before, dst, src, n, d + w)
  {
    var lo, hi := dst + d, dst + n - d - w;
    forall j | 0 <= j < |now|
      ensures now[j] == if dst <= j < dst + d + w || hi <= j < dst + n then before[Opposite(dst, src, n, j)]
                        else before[j]
    {
      var k := Opposite(dst, src, n, j);
      if lo <= j < lo + w {
        assert k == src + n - d - w + w - 1 - (j - lo);
        assert now[j] == mid[k] == before[k];
      } else if hi <= j < hi + w {
        assert k == src + d + w - 1 - (j - hi);
        assert now[j] == mid[k] == before[k];
      } else {
        assert now[j] == mid[j];
      }
    }
  }

  /** A last unit in the middle. */
  lemma TurnMiddle(before: seq<Byte>, mid: seq<Byte>, now: seq<Byte>, dst: nat, src: nat, n: nat, d: nat, w: nat)
    requires Turned(mid, before, dst, src, n, d) && 2 * d + w == n
    requires Disjoint(dst, src, n) || dst == src
    requires Reverses(now, mid, dst + d, src + d, w) && SameElsewhere(now, mid, dst + d, dst + d, w)
    ensures ReversedInto(now, before, dst, src, n)
  {
    var lo := dst + d;
    forall j | 0 <= j < |now|
      ensures now[j] == if dst <= j < dst + n then before[Opposite(dst, src, n, j)] else before[j]
    {
      var k := Opposite(dst, src, n, j);
      if lo <= j < lo + w {
        assert k == src + d + w - 1 - (j - lo);
        assert now[j] == mid[k] == before[k];
      } else {
        assert now[j] == mid[j];
      }
    }
  }

  ghost predicate ReversedInto(now: seq<Byte>, before: seq<Byte>, dst: nat, src: nat, n: nat) {
    && |now| == |before| && dst + n <= |before| && src + n <= |before|
    && forall j :: 0 <= j < |now| ==>
         now[j] == if dst <= j < dst + n then before[Opposite(dst, src, n, j)] else before[j]
  }

  lemma TurnedAll(now: seq<Byte>, before: seq<Byte>, dst: nat, src: nat, n: nat, d: nat)
    requires Turned(now, before, dst, src, n, d) && (2 * d == n || (2 * d + 1 == n && dst == src))
    ensures ReversedInto(now, before, dst, src, n)
  {
  }

  lemma ReversedIntoSlices(now: seq<Byte>, before: seq<Byte>, dst: nat, src: nat, n: nat)
    requires ReversedInto(now, before, dst, src, n)
    ensures now[dst..dst + n] == Reversed(before[src..src + n])
    ensures forall j :: 0 <= j < |now| && !(dst <= j < dst + n) ==> now[j] == before[j]
  {
    var t, u := before[src..src + n], now[dst..dst + n];
    forall i | 0 <= i < n ensures u[i] == Reversed(t)[i] {
      var j, k := dst + i, src + (n - 1 - i);
      assert u[i] == now[j] && k == Opposite(dst, src, n, j);
      assert Reversed(t)[i] == t[n - 1 - i] == before[k];
    }
  }

  /** One round of the word loops: two loads before the two stores. */
  method ExchangeWords(mem: array<Byte>, dSt: nat, dNd: nat, sSt: nat, sNd: nat)
    requires dSt + 4 <= dNd && dNd + 4 <= mem.Length && sSt + 4 <= mem.Length && sNd + 4 <= mem.Length
    modifies mem
    ensures Reverses(mem[..], old(mem[..]), dNd, sSt, 4) && Reverses(mem[..], old(mem[..]), dSt, sNd, 4)
    ensures SameElsewhere(mem[..], old(mem[..]), dSt, dNd, 4)
  {
    hide Word, Bswap32, Byte0, Byte1, Byte2, Byte3;
    SwappedLoad(mem, sNd);
    SwappedLoad(mem, sSt);
    var tmp := Bswap32(LoadWord(mem, sNd));
    StoreWord(mem, dNd, Bswap32(LoadWord(mem, sSt)));
    StoreWord(mem, dSt, tmp);
  }

  /** The same round, seen as progress of the reversal from d to d + 4. */
  method TurnWords(mem: array<Byte>, dSt: nat, dNd: nat, sSt: nat, sNd: nat, ghost before: seq<Byte>,
                   ghost dst: nat, ghost src: nat, ghost n: nat, ghost d: nat)
    requires Turned(mem[..], before, dst, src, n, d) && 2 * d + 8 <= n && (Disjoint(dst, src, n) || dst == src)
    requires dSt == dst + d && sSt == src + d && dNd == dst + n - 4 - d && sNd == src + n - 4 - d
    modifies mem
    ensures Turned(mem[..], before, dst, src, n, d + 4)
  {
    ghost var mid := mem[..];
    ExchangeWords(mem, dSt, dNd, sSt, sNd);
    hide Reverses, SameElsewhere, Disjoint;
    TurnStep(before, mid, mem[..], dst, src, n, d, 4);
  }

  method ReverseWord(mem: array<Byte>, d: nat, s: nat)
    requires d + 4 <= mem.Length && s + 4 <= mem.Length
    modifies mem
    ensures Reverses(mem[..], old(mem[..]), d, s, 4) && SameElsewhere(mem[..], old(mem[..]), d, d, 4)
  {
    hide Word, Bswap32, Byte0, Byte1, Byte2, Byte3;
    SwappedLoad(mem, s);
    StoreWord(mem, d, Bswap32(LoadWord(mem, s)));
  }

  /** FLib_ReverseByteOrderInPlace. */
  method ReverseByteOrderInPlace(mem: array<Byte>, buf: nat, cBytes: nat)
    requires buf + cBytes <= mem.Length
    modifies mem
    ensures mem[buf..buf + cBytes] == Reversed(old(mem[buf..buf + cBytes]))
    ensures forall i :: 0 <= i < mem.Length && !(buf <= i < buf + cBytes) ==> mem[i] == old(mem[i])
  {
    hide ReversedInto, Turned, Reversed;
    ghost var before := mem[..];
    if cBytes != 0 {
      var nWords := cBytes / 4;
      if nWords > 0 && cBytes == nWords * 4 {
        ReverseWordsInPlace(mem, buf, nWords);
      } else {
        ReverseBytesInPlace(mem, buf, cBytes);
      }
    } else {
      TurnedNothing(before, buf, buf, 0);
      TurnedAll(before, before, buf, buf, 0, 0);
    }
    ReversedIntoSlices(mem[..], before, buf, buf, cBytes);
  }

  method ReverseWordsInPlace(mem: array<Byte>, buf: nat, nWords: nat)
    requires nWords > 0 && buf + 4 * nWords <= mem.Length
    modifies mem
    ensures ReversedInto(mem[..], old(mem[..]), buf, buf, 4 * nWords)
  {
    ghost var before, n := mem[..], 4 * nWords;
    TurnedNothing(before, buf, buf, n);
    hide Turned, Reverses, SameElsewhere, ReversedInto;
    var st, nd: int := buf, buf + 4 * (nWords - 1);
    var i := nWords / 2;
    ghost var d: nat := 0;
    while i > 0
      invariant i >= 0 && d + 4 * i == 4 * (nWords / 2) && st == buf + d && nd == buf + n - 4 - d
      invariant Turned(mem[..], before, buf, buf, n, d)
    {
      TurnWords(mem, st, nd, st, nd, before, buf, buf, n, d);
      nd, st, i, d := nd - 4, st + 4, i - 1, d + 4;
    }
    if nWords % 2 != 0 {
      ghost var mid := mem[..];
      ReverseWord(mem, st, nd);
      TurnMiddle(before, mid, mem[..], buf, buf, n, d, 4);
    } else {
      TurnedAll(mem[..], before, buf, buf, n, d);
    }
  }

  method ReverseBytesInPlace(mem: array<Byte>, buf: nat, cBytes: nat)
    requires cBytes > 0 && buf + cBytes <= mem.Length
    modifies mem
    ensures ReversedInto(mem[..], old(mem[..]), buf, buf, cBytes)
  {
    ghost var before := mem[..];
    TurnedNothing(before, buf, buf, cBytes);
    hide Turned, Reverses, SameElsewhere, ReversedInto;
    var st, lEnd: int := buf, buf + cBytes - 1;
    var half := cBytes / 2;
    assert cBytes == 2 * half || cBytes == 2 * half + 1;
    var i := half;
    ghost var d: nat := 0;
    while i > 0
      invariant i >= 0 && d + i == half && st == buf + d && lEnd == buf + cBytes - 1 - d
      invariant Turned(mem[..], before, buf, buf, cBytes, d)
    {
      TurnBytes(mem, st, lEnd, before, buf, cBytes, d);
      lEnd, st, i, d := lEnd - 1, st + 1, i - 1, d + 1;
    }
    TurnedAll(mem[..], before, buf, buf, cBytes, d);
  }

  lemma TurnedNothing(before: seq<Byte>, dst: nat, src: nat, n: nat)
    requires dst + n <= |before| && src + n <= |before|
    ensures Turned(before, before, dst, src, n, 0)
  {
  }

  method TurnBytes(mem: array<Byte>, st: nat, lEnd: nat, ghost before: seq<Byte>, ghost buf: nat, ghost n: nat,
                   ghost d: nat)
    requires Turned(mem[..], before, buf, buf, n, d) && 2 * d + 2 <= n
    requires st == buf + d && lEnd == buf + n - 1 - d
    modifies mem
    ensures Turned(mem[..], before, buf, buf, n, d + 1)
  {
    ghost var mid := mem[..];
    var tmp := mem[lEnd];
    mem[lEnd] := mem[st];
    mem[st] := tmp;
    TurnStep(before, mid, mem[..], buf, buf, n, d, 1);
  }

  predicate Disjoint(p: nat, q: nat, n: nat) { p + n <= q || q + n <= p }

  // ----- reversal into another buffer, overlapping or not

  /**
   * How many bytes at the low and at the high end of the destination are written before the byte at j: the word
   * path takes a word from each end in every round, the byte path comes down from the high end.
   */
  function LowBefore(dst: nat, n: nat, j: nat): nat
    requires dst <= j < dst + n
  {
    if n % 4 != 0 then 0
    else
      var low, high := (j - dst) / 4, (dst + n - 1 - j) / 4;
      4 * if low < high then low else high
  }

  function HighBefore(dst: nat, n: nat, j: nat): nat
    requires dst <= j < dst + n
  {
    if n % 4 != 0 then dst + n - 1 - j else LowBefore(dst, n, j)
  }

  predicate InEnds(dst: nat, n: nat, lo: nat, hi: nat, q: int) { dst <= q < dst + lo || dst + n - hi <= q < dst + n }

  /** The source byte for j has been overwritten by the time it is read. */
  predicate Gone(dst: nat, src: nat, n: nat, j: nat)
    requires dst <= j < dst + n
  {
    InEnds(dst, n, LowBefore(dst, n, j), HighBefore(dst, n, j), Opposite(dst, src, n, j))
  }

  /** What lands at j: the byte opposite, or, where that is gone, what was at j all along. */
  function Landing(before: seq<Byte>, dst: nat, src: nat, n: nat, j: nat): Byte
    requires dst <= j < dst + n <= |before| && src + n <= |before|
  {
    if Gone(dst, src, n, j) then before[j] else before[Opposite(dst, src, n, j)]
  }

  function Landed(before: seq<Byte>, dst: nat, src: nat, n: nat): (r: seq<Byte>)
    requires dst + n <= |before| && src + n <= |before|
    ensures |r| == n
  {
    seq(n, i requires 0 <= i < n => Landing(before, dst, src, n, dst + i))
  }

  /** For every overlap: the source arrives reversed if and only if every byte that is gone by the time it is read
      equals the byte at its destination. */
  lemma ReversedExactly(before: seq<Byte>, dst: nat, src: nat, n: nat)
    requires dst + n <= |before| && src + n <= |before|
    ensures Landed(before, dst, src, n) == Reversed(before[src..src + n])
            <==> forall j :: dst <= j < dst + n && Gone(dst, src, n, j) ==> before[j] == before[Opposite(dst, src, n, j)]
  {
    hide Gone;
    var landed, t := Landed(before, dst, src, n), before[src..src + n];
    forall i | 0 <= i < n
      ensures landed[i] == Landing(before, dst, src, n, dst + i)
      ensures Reversed(t)[i] == before[Opposite(dst, src, n, dst + i)]
    {
      assert Reversed(t)[i] == t[n - 1 - i] == before[src + (n - 1 - i)];
    }
    if landed == Reversed(t) {
      forall j | dst <= j < dst + n && Gone(dst, src, n, j) ensures before[j] == before[Opposite(dst, src, n, j)] {
        var i := j - dst;
        assert landed[i] == Reversed(t)[i] && dst + i == j;
      }
    }
  }

  /** Nothing is gone in disjoint buffers, nor on the word path in coinciding buffers or ones of at most two words. */
  lemma NothingGone(dst: nat, src: nat, n: nat, j: nat)
    requires dst <= j < dst + n && (Disjoint(dst, src, n) || (n % 4 == 0 && (dst == src || n <= 8)))
    ensures !Gone(dst, src, n, j)
  {
  }

  /** On the byte path coinciding buffers are reversed exactly if they are palindromes. */
  lemma PalindromeExactly(before: seq<Byte>, buf: nat, n: nat)
    requires buf + n <= |before| && n % 4 != 0
    ensures var s := before[buf..buf + n]; Landed(before, buf, buf, n) == Reversed(s) <==> s == Reversed(s)
  {
    hide Gone, Landed, Reversed;
    ReversedExactly(before, buf, buf, n);
    if before[buf..buf + n] == Reversed(before[buf..buf + n]) {
      PalindromeMirrors(before, buf, n);
    }
    if forall j :: buf <= j < buf + n && Gone(buf, buf, n, j) ==> before[j] == before[Opposite(buf, buf, n, j)] {
      MirrorsPalindrome(before, buf, n);
    }
  }

  lemma PalindromeMirrors(before: seq<Byte>, buf: nat, n: nat)
    requires buf + n <= |before| && before[buf..buf + n] == Reversed(before[buf..buf + n])
    ensures forall j :: buf <= j < buf + n ==> before[j] == before[Opposite(buf, buf, n, j)]
  {
    var s := before[buf..buf + n];
    forall j | buf <= j < buf + n ensures before[j] == before[Opposite(buf, buf, n, j)] {
      assert s[j - buf] == Reversed(s)[j - buf] == s[n - 1 - (j - buf)];
    }
  }

  lemma MirrorsPalindrome(before: seq<Byte>, buf: nat, n: nat)
    requires buf + n <= |before| && n % 4 != 0
    requires forall j :: buf <= j < buf + n && Gone(buf, buf, n, j) ==> before[j] == before[Opposite(buf, buf, n, j)]
    ensures before[buf..buf + n] == Reversed(before[buf..buf + n])
  {
    hide Gone;
    var s := before[buf..buf + n];
    forall i | 0 <= i < n ensures s[i] == Reversed(s)[i] {
      GoneInPlace(buf, n, i);
      assert s[i] == before[buf + i] && Reversed(s)[i] == s[n - 1 - i] == before[buf + n - 1 - i];
    }
  }

  /** Of two opposite bytes the lower one finds the upper one gone. */
  lemma GoneInPlace(buf: nat, n: nat, i: nat)
    requires i < n && n % 4 != 0
    ensures var j, q := buf + i, buf + n - 1 - i;
            && Opposite(buf, buf, n, j) == q && Opposite(buf, buf, n, q) == j
            && (j < q ==> Gone(buf, buf, n, j)) && (q < j ==> Gone(buf, buf, n, q))
  {
  }

  /** The low lo and the high hi bytes have landed and nothing else has changed. */
  ghost predicate Filled(now: seq<Byte>, before: seq<Byte>, dst: nat, src: nat, n: nat, lo: nat, hi: nat) {
    && |now| == |before| && dst + n <= |before| && src + n <= |before| && lo + hi <= n
    && forall j :: 0 <= j < |now| ==>
         now[j] == if InEnds(dst, n, lo, hi, j) then Landing(before, dst, src, n, j) else before[j]
  }

  /** Nothing that landed earlier saw more of the ends written. */
  ghost predicate EarlierLess(dst: nat, n: nat, lo: nat, hi: nat) {
    forall q :: dst <= q < dst + n && InEnds(dst, n, lo, hi, q) ==>
      LowBefore(dst, n, q) <= lo && HighBefore(dst, n, q) <= hi
  }

  /** What is read for j is what lands there: a byte gone by now was put there from j itself. */
  lemma ReadLands(mid: seq<Byte>, before: seq<Byte>, dst: nat, src: nat, n: nat, lo: nat, hi: nat, j: nat)
    requires Filled(mid, before, dst, src, n, lo, hi) && EarlierLess(dst, n, lo, hi)
    requires dst <= j < dst + n && !InEnds(dst, n, lo, hi, j)
    requires LowBefore(dst, n, j) == lo && HighBefore(dst, n, j) == hi
    ensures 0 <= Opposite(dst, src, n, j) < |mid|
    ensures mid[Opposite(dst, src, n, j)] == Landing(before, dst, src, n, j)
  {
    hide LowBefore, HighBefore;
    var q := Opposite(dst, src, n, j);
    if InEnds(dst, n, lo, hi, q) {
      assert Opposite(dst, src, n, q) == j;
      assert !Gone(dst, src, n, q);
    }
  }

  /** FLib_MemCpyReverseOrder. */
  method MemCpyReverseOrder(mem: array<Byte>, dst: nat, src: nat, cBytes: nat)
    requires dst + cBytes <= mem.Length && src + cBytes <= mem.Length
    modifies mem
    ensures mem[dst..dst + cBytes] == Landed(old(mem[..]), dst, src, cBytes)
    ensures Disjoint(dst, src, cBytes) || (cBytes % 4 == 0 && (dst == src || cBytes <= 8)) ==>
              mem[dst..dst + cBytes] == Reversed(old(mem[src..src + cBytes]))
    ensures forall i :: 0 <= i < mem.Length && !(dst <= i < dst + cBytes) ==> mem[i] == old(mem[i])
  {
    hide Landed, Reversed, Filled;
    ghost var before := mem[..];
    NothingFilled(before, dst, src, cBytes);
    if cBytes != 0 {
      var nWords := cBytes / 4;
      if nWords > 0 && cBytes == nWords * 4 {
        ReverseWordsInto(mem, dst, src, nWords);
      } else {
        ReverseBytesInto(mem, dst, src, cBytes);
      }
    }
    AllLanded(mem[..], before, dst, src, cBytes);
  }

  lemma NothingFilled(before: seq<Byte>, dst: nat, src: nat, n: nat)
    requires dst + n <= |before| && src + n <= |before|
    ensures Filled(before, before, dst, src, n, 0, 0)
  {
  }

  /** However the two ends met, everything has landed. */
  lemma EndsMeet(now: seq<Byte>, before: seq<Byte>, dst: nat, src: nat, n: nat, lo: nat, hi: nat)
    requires Filled(now, before, dst, src, n, lo, hi) && lo + hi == n
    ensures Filled(now, before, dst, src, n, 0, n)
  {
    hide Landing;
  }

  lemma AllLanded(now: seq<Byte>, before: seq<Byte>, dst: nat, src: nat, n: nat)
    requires Filled(now, before, dst, src, n, 0, n)
    ensures |now| == |before| && now[dst..dst + n] == Landed(before, dst, src, n)
    ensures Disjoint(dst, src, n) || (n % 4 == 0 && (dst == src || n <= 8)) ==>
              now[dst..dst + n] == Reversed(before[src..src + n])
    ensures forall j :: 0 <= j < |now| && !(dst <= j < dst + n) ==> now[j] == before[j]
  {
    hide Gone, Landing, Reversed;
    var landed := Landed(before, dst, src, n);
    forall i | 0 <= i < n ensures now[dst..dst + n][i] == landed[i] {
      assert now[dst + i] == Landing(before, dst, src, n, dst + i);
    }
    ReversedExactly(before, dst, src, n);
    if Disjoint(dst, src, n) || (n % 4 == 0 && (dst == src || n <= 8)) {
      forall j | dst <= j < dst + n ensures !Gone(dst, src, n, j) {
        NothingGone(dst, src, n, j);
      }
    }
  }

  /** Its word path. */
  method ReverseWordsInto(mem: array<Byte>, dst: nat, src: nat, nWords: nat)
    requires nWords > 0 && dst + 4 * nWords <= mem.Length && src + 4 * nWords <= mem.Length
    modifies mem
    ensures Filled(mem[..], old(mem[..]), dst, src, 4 * nWords, 0, 4 * nWords)
  {
    hide Filled, Reverses, SameElsewhere;
    ghost var before, n := mem[..], 4 * nWords;
    NothingFilled(before, dst, src, n);
    var sSt, sNd: int, dSt, dNd: int := src, src + 4 * (nWords - 1), dst, dst + 4 * (nWords - 1);
    var i := nWords / 2;
    ghost var k: nat := 0;
    while i > 0
      invariant i >= 0 && k + i == nWords / 2 && sSt == src + 4 * k && dSt == dst + 4 * k
      invariant sNd == src + n - 4 - 4 * k && dNd == dst + n - 4 - 4 * k
      invariant Filled(mem[..], before, dst, src, n, 4 * k, 4 * k)
    {
      ghost var mid := mem[..];
      ExchangeWords(mem, dSt, dNd, sSt, sNd);
      FillRound(before, mid, mem[..], dst, src, nWords, k);
      sNd, dNd, sSt, dSt, i, k := sNd - 4, dNd - 4, sSt + 4, dSt + 4, i - 1, k + 1;
    }
    if nWords % 2 == 1 {
      ghost var mid := mem[..];
      ReverseWord(mem, dSt, sNd);
      FillMiddle(before, mid, mem[..], dst, src, nWords, k);
    } else {
      EndsMeet(mem[..], before, dst, src, n, 4 * k, 4 * k);
    }
  }

  /** In round k of the word path k words are written at each end, and no more in the rounds before. */
  lemma WordRound(dst: nat, nWords: nat, k: nat)
    requires 2 * k <= nWords
    ensures EarlierLess(dst, 4 * nWords, 4 * k, 4 * k)
    ensures forall j :: dst <= j < dst + 4 * nWords ==>
              (!InEnds(dst, 4 * nWords, 4 * k, 4 * k, j) && InEnds(dst, 4 * nWords, 4 * k + 4, 4 * k + 4, j) ==>
               LowBefore(dst, 4 * nWords, j) == HighBefore(dst, 4 * nWords, j) == 4 * k)
  {
    hide LowBefore, HighBefore;
    var n := 4 * nWords;
    forall j | dst <= j < dst + n
      ensures InEnds(dst, n, 4 * k, 4 * k, j) ==> LowBefore(dst, n, j) == HighBefore(dst, n, j) <= 4 * k
      ensures !InEnds(dst, n, 4 * k, 4 * k, j) && InEnds(dst, n, 4 * k + 4, 4 * k + 4, j) ==>
                LowBefore(dst, n, j) == HighBefore(dst, n, j) == 4 * k
    {
      RoundOf(dst, nWords, k, j);
    }
  }

  lemma RoundOf(dst: nat, nWords: nat, k: nat, j: nat)
    requires 2 * k <= nWords && dst <= j < dst + 4 * nWords
    ensures var n := 4 * nWords;
            && LowBefore(dst, n, j) == HighBefore(dst, n, j)
            && (InEnds(dst, n, 4 * k, 4 * k, j) ==> LowBefore(dst, n, j) <= 4 * k)
            && (!InEnds(dst, n, 4 * k, 4 * k, j) && InEnds(dst, n, 4 * k + 4, 4 * k + 4, j) ==>
                LowBefore(dst, n, j) == 4 * k)
  {
    var w := (j - dst) / 4;
    var r := j - dst - 4 * w;
    DivUnique(j - dst, 4, w, r);
    DivUnique(dst + 4 * nWords - 1 - j, 4, nWords - 1 - w, 3 - r);
    DivUnique(4 * nWords, 4, nWords, 0);
  }

  lemma FillRound(before: seq<Byte>, mid: seq<Byte>, now: seq<Byte>, dst: nat, src: nat, nWords: nat, k: nat)
    requires 2 * k + 2 <= nWords && Filled(mid, before, dst, src, 4 * nWords, 4 * k, 4 * k)
    requires var lo, hi := 4 * k, 4 * (nWords - 1 - k);
             && Reverses(now, mid, dst + hi, src + lo, 4) && Reverses(now, mid, dst + lo, src + hi, 4)
             && SameElsewhere(now, mid, dst + lo, dst + hi, 4)
    ensures Filled(now, before, dst, src, 4 * nWords, 4 * k + 4, 4 * k + 4)
  {
    hide Landing, LowBefore, HighBefore, EarlierLess;
    var n, lo, hi := 4 * nWords, 4 * k, 4 * (nWords - 1 - k);
    WordRound(dst, nWords, k);
    forall j | 0 <= j < |now|
      ensures now[j] == if InEnds(dst, n, lo + 4, lo + 4, j) then Landing(before, dst, src, n, j) else before[j]
    {
      if dst + lo <= j < dst + lo + 4 || dst + hi <= j < dst + hi + 4 {
        ReadLands(mid, before, dst, src, n, lo, lo, j);
        assert now[j] == mid[Opposite(dst, src, n, j)];
      } else {
        assert now[j] == mid[j];
      }
    }
  }

  lemma FillMiddle(before: seq<Byte>, mid: seq<Byte>, now: seq<Byte>, dst: nat, src: nat, nWords: nat, k: nat)
    requires 2 * k + 1 == nWords && Filled(mid, before, dst, src, 4 * nWords, 4 * k, 4 * k)
    requires Reverses(now, mid, dst + 4 * k, src + 4 * k, 4) && SameElsewhere(now, mid, dst + 4 * k, dst + 4 * k, 4)
    ensures Filled(now, before, dst, src, 4 * nWords, 0, 4 * nWords)
  {
    hide Landing, LowBefore, HighBefore, EarlierLess;
    var n, lo := 4 * nWords, 4 * k;
    WordRound(dst, nWords, k);
    forall j | 0 <= j < |now|
      ensures now[j] == if dst <= j < dst + n then Landing(before, dst, src, n, j) else before[j]
    {
      if dst + lo <= j < dst + lo + 4 {
        ReadLands(mid, before, dst, src, n, lo, lo, j);
        assert now[j] == mid[Opposite(dst, src, n, j)];
      } else {
        assert now[j] == mid[j];
      }
    }
  }

  /** Its byte path. */
  method ReverseBytesInto(mem: array<Byte>, dst: nat, src: nat, cBytes: nat)
    requires dst + cBytes <= mem.Length && src + cBytes <= mem.Length && cBytes % 4 != 0
    modifies mem
    ensures Filled(mem[..], old(mem[..]), dst, src, cBytes, 0, cBytes)
  {
    hide Filled;
    ghost var before := mem[..];
    NothingFilled(before, dst, src, cBytes);
    var pDst: int, pSrc, left := dst + cBytes - 1, src, cBytes;
    while left != 0
      invariant 0 <= left <= cBytes && pDst == dst + left - 1 && pSrc == src + cBytes - left
      invariant Filled(mem[..], before, dst, src, cBytes, 0, cBytes - left)
    {
      FillByte(before, mem[..], dst, src, cBytes, left);
      mem[pDst] := mem[pSrc];
      pDst := pDst - 1;
      pSrc := pSrc + 1;
      left := left - 1;
    }
  }

  lemma FillByte(before: seq<Byte>, mid: seq<Byte>, dst: nat, src: nat, n: nat, left: nat)
    requires n % 4 != 0 && 0 < left <= n && Filled(mid, before, dst, src, n, 0, n - left)
    ensures Filled(mid[dst + left - 1 := mid[src + n - left]], before, dst, src, n, 0, n - left + 1)
  {
    var p := dst + left - 1;
    assert EarlierLess(dst, n, 0, n - left);
    assert Opposite(dst, src, n, p) == src + n - left;
    ReadLands(mid, before, dst, src, n, 0, n - left, p);
    hide Landing, LowBefore, HighBefore;
  }

  // ----- copying

  /** FLib_MemInPlaceCpy: right for every overlap. */
  method MemInPlaceCpy(mem: array<Byte>, dst: nat, src: nat, cBytes: nat)
    requires dst + cBytes <= mem.Length && src + cBytes <= mem.Length
    modifies mem
    ensures mem[dst..dst + cBytes] == old(mem[src..src + cBytes])
    ensures forall i :: 0 <= i < mem.Length && !(dst <= i < dst + cBytes) ==> mem[i] == old(mem[i])
  {
    hide Copied, CopiedTail;
    ghost var before := mem[..];
    NothingCopied(before, dst, src, cBytes);
    if dst != src {
      if dst < src {
        var pDst, pSrc, left := dst, src, cBytes;
        while left != 0
          invariant 0 <= left <= cBytes && pDst == dst + cBytes - left && pSrc == src + cBytes - left
          invariant Copied(mem[..], before, dst, src, cBytes - left)
        {
          ForwardStep(before, mem[..], dst, src, cBytes - left);
          mem[pDst] := mem[pSrc];
          pDst := pDst + 1;
          pSrc := pSrc + 1;
          left := left - 1;
        }
      } else {
        var left := cBytes;
        while left != 0
          invariant 0 <= left <= cBytes
          invariant CopiedTail(mem[..], before, dst, src, cBytes, left)
        {
          left := left - 1;
          BackwardStep(before, mem[..], dst, src, cBytes, left);
          mem[dst + left] := mem[src + left];
        }
        TailIsAll(before, mem[..], dst, src, cBytes);
      }
    }
    CopiedSlices(mem[..], before, dst, src, cBytes);
  }

  /** The bytes from left on are copied and nothing else changed. */
  ghost predicate CopiedTail(now: seq<Byte>, before: seq<Byte>, to: nat, from: nat, n: nat, left: nat) {
    && |now| == |before| && to + n <= |now| && from + n <= |now| && left <= n
    && forall i :: 0 <= i < |now| ==>
         now[i] == if to + left <= i < to + n then before[Shifted(to, from, i)] else before[i]
  }

  lemma NothingCopied(before: seq<Byte>, to: nat, from: nat, n: nat)
    requires to + n <= |before| && from + n <= |before|
    ensures Copied(before, before, to, from, 0) && CopiedTail(before, before, to, from, n, n)
    ensures to == from ==> Copied(before, before, to, from, n)
  {
  }

  lemma ForwardStep(before: seq<Byte>, mid: seq<Byte>, to: nat, from: nat, k: nat)
    requires Copied(mid, before, to, from, k) && to < from && from + k < |before|
    ensures to + k < |mid| && from + k < |mid|
    ensures Copied(mid[to + k := mid[from + k]], before, to, from, k + 1)
  {
    assert mid[from + k] == before[from + k] == before[Shifted(to, from, to + k)];
  }

  lemma BackwardStep(before: seq<Byte>, mid: seq<Byte>, to: nat, from: nat, n: nat, left: nat)
    requires CopiedTail(mid, before, to, from, n, left + 1) && to > from
    ensures to + left < |mid| && from + left < |mid|
    ensures CopiedTail(mid[to + left := mid[from + left]], before, to, from, n, left)
  {
    assert mid[from + left] == before[from + left] == before[Shifted(to, from, to + left)];
  }

  lemma TailIsAll(before: seq<Byte>, now: seq<Byte>, to: nat, from: nat, n: nat)
    requires CopiedTail(now, before, to, from, n, 0)
    ensures Copied(now, before, to, from, n)
  {
  }

  /** The source address whose byte belongs at address j of the destination. */
  function Shifted(to: nat, from: nat, j: int): int { from + (j - to) }

  /** The first n bytes are copied and nothing else changed. */
  ghost predicate Copied(now: seq<Byte>, before: seq<Byte>, to: nat, from: nat, n: nat) {
    && |now| == |before| && to + n <= |now| && from + n <= |now|
    && forall i :: 0 <= i < |now| ==> now[i] == if to <= i < to + n then before[Shifted(to, from, i)] else before[i]
  }

  function Range(a: nat, n: nat): (r: seq<nat>)
    ensures |r| == n && forall i :: 0 <= i < n ==> r[i] == a + i
  {
    seq(n, i => a + i)
  }

  lemma RangeAppend(a: nat, n: nat, width: nat)
    ensures Range(a, n) + Range(a + n, width) == Range(a, n + width)
  {
    var l, r := Range(a, n) + Range(a + n, width), Range(a, n + width);
    assert forall i :: 0 <= i < n + width ==> l[i] == a + i == r[i];
  }

  lemma CopiedSlices(now: seq<Byte>, before: seq<Byte>, to: nat, from: nat, n: nat)
    requires Copied(now, before, to, from, n)
    ensures now[to..to + n] == before[from..from + n]
    ensures forall i :: 0 <= i < |now| && !(to <= i < to + n) ==> now[i] == before[i]
  {
    var l, r := now[to..to + n], before[from..from + n];
    forall i | 0 <= i < n ensures l[i] == r[i] {
      var j := to + i;
      assert Shifted(to, from, j) == from + i;
      assert l[i] == now[j] && r[i] == before[from + i];
    }
    assert l == r;
  }

  /** width more bytes, at to + n, taken from from + n. */
  lemma CopiedMore(now: seq<Byte>, mid: seq<Byte>, before: seq<Byte>, to: nat, from: nat, n: nat, width: nat, total: nat)
    requires n + width <= total && to + total <= |mid| && from + total <= |mid| && Disjoint(to, from, total)
    requires Copied(mid, before, to, from, n) && |now| == |mid|
    requires forall j :: 0 <= j < |now| ==>
      now[j] == if to + n <= j < to + n + width then mid[Shifted(to, from, j)] else mid[j]
    ensures Copied(now, before, to, from, n + width)
  {
    forall j | 0 <= j < |now|
      ensures now[j] == if to <= j < to + (n + width) then before[Shifted(to, from, j)] else before[j]
    {
      if to + n <= j < to + n + width {
        var k := Shifted(to, from, j);
        assert mid[k] == before[k];
      }
    }
  }

  /** n bytes are copied, and the addresses written so far are those of the copy, once each and in order. */
  ghost predicate Progress(now: seq<Byte>, before: seq<Byte>, to: nat, from: nat, n: nat, written: seq<nat>) {
    Copied(now, before, to, from, n) && written == Range(to, n)
  }

  lemma NoProgress(before: seq<Byte>, to: nat, from: nat)
    requires to <= |before| && from <= |before|
    ensures Progress(before, before, to, from, 0, [])
  {
    assert Range(to, 0) == [];
  }

  ghost predicate Fits(size: nat, to: nat, from: nat, total: nat) {
    to + total <= size && from + total <= size && Disjoint(to, from, total)
  }

  /** Copy one byte, halfword or word behind the n bytes already copied. */
  method CopyUnit(mem: array<Byte>, to: nat, from: nat, n: nat, width: nat, ghost before: seq<Byte>, ghost total: nat,
                  ghost writtenSoFar: seq<nat>)
    returns (done: nat, ghost written: seq<nat>)
    requires width in {1, 2, 4} && n + width <= total && Fits(mem.Length, to, from, total)
    requires Progress(mem[..], before, to, from, n, writtenSoFar)
    modifies mem
    ensures done == n + width && Progress(mem[..], before, to, from, done, written)
  {
    ghost var mid := mem[..];
    var unit := mem[from + n..from + n + width];
    forall i | 0 <= i < width {
      mem[to + n + i] := unit[i];
    }
    done := n + width;
    CopiedMore(mem[..], mid, before, to, from, n, width, total);
    RangeAppend(to, n, width);
    written := writtenSoFar + Range(to + n, width);
  }

  /** The bytes copied before the word loop: enough to make the source address a multiple of four. */
  function HeadLength(from: nat): nat {
    var n := if from % 2 != 0 then 1 else 0;
    if (from + n) / 2 % 2 != 0 then n + 2 else n
  }

  lemma HeadAligns(from: nat)
    ensures (from + HeadLength(from)) % 4 == 0 && HeadLength(from) <= 3
  {
    var k, r := from / 4, from % 4;
    HeadLengthIs(from, k, r);
    hide HeadLength;
    if r == 0 {
      DivUnique(from, 4, k, 0);
    } else {
      DivUnique(from + 4 - r, 4, k + 1, 0);
    }
  }

  lemma HeadLengthIs(from: nat, k: nat, r: nat)
    requires from == 4 * k + r && r < 4
    ensures HeadLength(from) == if r == 0 then 0 else 4 - r
  {
    if r < 2 {
      DivUnique(from, 2, 2 * k, r);
      DivUnique(from + r, 2, 2 * k + r, 0);
      DivUnique(2 * k + r, 2, k, r);
    } else {
      DivUnique(from, 2, 2 * k + 1, r - 2);
      DivUnique(from + (r - 2), 2, 2 * k + r - 1, 0);
      DivUnique(2 * k + r - 1, 2, if r == 2 then k else k + 1, if r == 2 then 1 else 0);
    }
  }

  /**
   * FLib_MemCpyAligned32bit: one byte, then one halfword, then words and a tail, steered by the
   * source address. The addresses written are reported in the order of the writes.
   */
  method MemCpyAligned32bit(mem: array<Byte>, to: nat, from: nat, numberOfBytes: nat) returns (ghost written: seq<nat>)
    requires Fits(mem.Length, to, from, numberOfBytes)
    modifies mem
    ensures mem[to..to + numberOfBytes] == old(mem[from..from + numberOfBytes])
    ensures forall i :: 0 <= i < mem.Length && !(to <= i < to + numberOfBytes) ==> mem[i] == old(mem[i])
    ensures written == Range(to, numberOfBytes)
  {
    ghost var before := mem[..];
    var done := 0;
    written := [];
    NoProgress(before, to, from);
    if numberOfBytes > 3 {
      done, written := AlignSource(mem, to, from, numberOfBytes, before);
      done, written := CopyWords(mem, to, from, numberOfBytes, done, (numberOfBytes - done) / 4, before, written);
    }
    written := CopyTail(mem, to, from, numberOfBytes, done, before, written);
    CopiedSlices(mem[..], before, to, from, numberOfBytes);
  }

  /** At most one byte and one halfword. */
  method AlignSource(mem: array<Byte>, to: nat, from: nat, total: nat, ghost before: seq<Byte>)
    returns (done: nat, ghost written: seq<nat>)
    requires total > 3 && Fits(mem.Length, to, from, total) && before == mem[..]
    modifies mem
    ensures done == HeadLength(from) <= 3 && Progress(mem[..], before, to, from, done, written)
  {
    NoProgress(before, to, from);
    hide Progress, Fits;
    done, written := 0, [];
    if from % 2 != 0 {
      done, written := CopyUnit(mem, to, from, done, 1, before, total, written);
    }
    if (from + done) / 2 % 2 != 0 {
      done, written := CopyUnit(mem, to, from, done, 2, before, total, written);
    }
  }

  method CopyWords(mem: array<Byte>, to: nat, from: nat, total: nat, start: nat, words: nat, ghost before: seq<Byte>,
                   ghost writtenSoFar: seq<nat>)
    returns (done: nat, ghost written: seq<nat>)
    requires start + 4 * words <= total && Fits(mem.Length, to, from, total)
    requires Progress(mem[..], before, to, from, start, writtenSoFar)
    modifies mem
    ensures done == start + 4 * words && Progress(mem[..], before, to, from, done, written)
  {
    hide Progress, Fits;
    done, written := start, writtenSoFar;
    var loops := words;
    while loops != 0
      invariant 0 <= loops <= words && done == start + 4 * (words - loops)
      invariant Progress(mem[..], before, to, from, done, written)
    {
      done, written := CopyUnit(mem, to, from, done, 4, before, total, written);
      loops := loops - 1;
    }
  }

  /** At most one halfword and one byte. */
  method CopyTail(mem: array<Byte>, to: nat, from: nat, total: nat, start: nat, ghost before: seq<Byte>,
                  ghost writtenSoFar: seq<nat>)
    returns (ghost written: seq<nat>)
    requires start <= total <= start + 3 && Fits(mem.Length, to, from, total)
    requires Progress(mem[..], before, to, from, start, writtenSoFar)
    modifies mem
    ensures Progress(mem[..], before, to, from, total, written)
  {
    hide Progress, Fits;
    var left, done := total - start, start;
    written := writtenSoFar;
    if left / 2 % 2 != 0 {
      done, written := CopyUnit(mem, to, from, done, 2, before, total, written);
    }
    if left % 2 != 0 {
      done, written := CopyUnit(mem, to, from, done, 1, before, total, written);
    }
  }
}

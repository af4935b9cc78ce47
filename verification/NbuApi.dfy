/** PLATFORM_NbuApiReq: an API call marshalled into a message for the other core. */
module NbuApi {
  import opened MachineWords
  import Arithmetic

  const NBU_API_MAX_PARAM_LENGTH := 40

  /** The low w bytes of v, least significant first. */
  function LittleEndian(v: nat, w: nat): (s: seq<Uint8>)
    ensures |s| == w
  {
    if w == 0 then [] else [v % 0x100] + LittleEndian(v / 0x100, w - 1)
  }

  function FromLittleEndian(s: seq<Uint8>): nat {
    if s == [] then 0 else s[0] + 0x100 * FromLittleEndian(s[1..])
  }

  function Power256(w: nat): (p: nat)
    ensures p > 0
  {
    if w == 0 then 1 else 0x100 * Power256(w - 1)
  }

  /** The widths before the terminating zero. */
  function Widths(fmt: seq<Uint8>): (ws: seq<Uint8>)
    ensures |ws| <= |fmt| && ws == fmt[..|ws|] && (|ws| < |fmt| ==> fmt[|ws|] == 0)
    ensures forall i :: 0 <= i < |ws| ==> ws[i] != 0
  {
    if fmt == [] || fmt[0] == 0 then [] else [fmt[0]] + Widths(fmt[1..])
  }

  function Sum(ws: seq<nat>): nat {
    if ws == [] then 0 else Sum(ws[..|ws| - 1]) + ws[|ws| - 1]
  }

  /** The parameter read as a signed number. */
  function Int32(param: Uint32): int {
    if param < 0x8000_0000 then param else param - UINT32_RANGE
  }

  /** A parameter fits its width when it is in the signed or the unsigned range of that many bytes. */
  predicate InRange(param: Uint32, width: nat) {
    match width
    case 1 => -0x80 <= Int32(param) <= 0x7F || param <= 0xFF
    case 2 => -0x8000 <= Int32(param) <= 0x7FFF || param <= 0xFFFF
    case 4 => true
    case _ => false
  }

  /** Exactly the calls that reach the send. */
  predicate Sendable(ws: seq<Uint8>, tab: seq<Uint32>) {
    && |ws| <= |tab|
    && (forall i :: 0 <= i < |ws| ==> InRange(tab[i], ws[i]))
    && 2 + Sum(ws) <= NBU_API_MAX_PARAM_LENGTH
  }

  /**
   * The table has every entry the loop reads from argument i on, with j entries read and len bytes written: one for
   * each width of 1, 2 or 4 up to the first argument past the limit.
   */
  predicate ReadsWithin(ws: seq<Uint8>, tab: seq<Uint32>, i: nat, j: nat, len: nat)
    requires i <= |ws|
    decreases |ws| - i
  {
    i == |ws| || len + ws[i] > NBU_API_MAX_PARAM_LENGTH ||
    if ws[i] in {1, 2, 4} then
      j < |tab| && ReadsWithin(ws, tab, i + 1, j + 1, if InRange(tab[j], ws[i]) then len + ws[i] else len)
    else ReadsWithin(ws, tab, i + 1, j, len)
  }

  function Arguments(ws: seq<Uint8>, tab: seq<Uint32>): (s: seq<Uint8>)
    requires |ws| <= |tab|
    ensures |s| == Sum(ws)
  {
    if ws == [] then []
    else
      var n := |ws| - 1;
      Arguments(ws[..n], tab) + LittleEndian(tab[n], ws[n])
  }

  function Payload(apiId: Uint16, ws: seq<Uint8>, tab: seq<Uint32>): (s: seq<Uint8>)
    requires |ws| <= |tab|
  {
    LittleEndian(apiId, 2) + Arguments(ws, tab)
  }

  // ----- the receiving side

  /** Splits a message body into the values of the given widths. */
  function Decode(ws: seq<Uint8>, body: seq<Uint8>): (vs: seq<nat>)
    requires |body| == Sum(ws)
    ensures |vs| == |ws|
  {
    if ws == [] then []
    else
      var n := |ws| - 1;
      var cut := Sum(ws[..n]);
      Decode(ws[..n], body[..cut]) + [FromLittleEndian(body[cut..])]
  }

  lemma {:induction false} LittleEndianRoundTrip(v: nat, w: nat)
    ensures FromLittleEndian(LittleEndian(v, w)) == v % Power256(w)
  {
    if w > 0 {
      LittleEndianRoundTrip(v / 0x100, w - 1);
      ModSplit(v, Power256(w - 1));
    }
  }

  /** Byte k of the encoding carries the digit of weight 256^k. */
  lemma {:induction false} LowByteFirst(v: nat, w: nat, k: nat)
    requires k < w
    ensures LittleEndian(v, w)[k] == v / Power256(k) % 0x100
    decreases k
  {
    if k > 0 {
      LowByteFirst(v / 0x100, w - 1, k - 1);
      DivTwice(v, Power256(k - 1));
    }
  }

  lemma DivTwice(v: nat, p: nat)
    requires p > 0
    ensures v / 0x100 / p == v / (0x100 * p)
  {
    var a, b := v % 0x100, v / 0x100;
    var q, r := b / p, b % p;
    assert b == q * p + r;
    assert v == q * (0x100 * p) + (a + 0x100 * r);
    Arithmetic.DivUnique(v, 0x100 * p, q, a + 0x100 * r);
  }

  lemma ModSplit(v: nat, p: nat)
    requires p > 0
    ensures v % (0x100 * p) == v % 0x100 + 0x100 * (v / 0x100 % p)
  {
    var a, b := v % 0x100, v / 0x100;
    var q, r := b / p, b % p;
    assert b == q * p + r;
    assert v == q * (0x100 * p) + (a + 0x100 * r);
    Arithmetic.DivUnique(v, 0x100 * p, q, a + 0x100 * r);
  }

  /** Given the format, the receiver gets back every argument modulo its width. */
  lemma {:induction false} DecodesToArguments(ws: seq<Uint8>, tab: seq<Uint32>)
    requires |ws| <= |tab|
    ensures forall i :: 0 <= i < |ws| ==> Decode(ws, Arguments(ws, tab))[i] == tab[i] % Power256(ws[i])
  {
    if ws != [] {
      var n := |ws| - 1;
      var body, front := Arguments(ws, tab), Arguments(ws[..n], tab);
      DecodesToArguments(ws[..n], tab);
      assert body[..Sum(ws[..n])] == front;
      assert body[Sum(ws[..n])..] == LittleEndian(tab[n], ws[n]);
      LittleEndianRoundTrip(tab[n], ws[n]);
    }
  }

  /** The whole message: identifier first, then the arguments. */
  lemma PayloadDecodes(apiId: Uint16, ws: seq<Uint8>, tab: seq<Uint32>)
    requires |ws| <= |tab|
    ensures var m := Payload(apiId, ws, tab);
            && FromLittleEndian(m[..2]) == apiId
            && |m[2..]| == Sum(ws)
            && forall i :: 0 <= i < |ws| ==> Decode(ws, m[2..])[i] == tab[i] % Power256(ws[i])
  {
    var m := Payload(apiId, ws, tab);
    assert m[..2] == LittleEndian(apiId, 2) && m[2..] == Arguments(ws, tab);
    LittleEndianRoundTrip(apiId, 2);
    assert Power256(2) == 0x1_0000;
    DecodesToArguments(ws, tab);
  }

  /** A sent argument loses nothing but its sign extension. */
  lemma SentArgumentIsRecovered(param: Uint32, width: nat)
    requires InRange(param, width)
    ensures var v := param % Power256(width);
            v == param || v as int - Power256(width) == Int32(param)
  {
    hide Power256;
    SmallPowers();
    if width == 1 {
      Arithmetic.DivUnique(param, 0x100, if param <= 0xFF then 0 else 0xFF_FFFF,
                           if param <= 0xFF then param else param - 0xFFFF_FF00);
    } else if width == 2 {
      Arithmetic.DivUnique(param, 0x1_0000, if param <= 0xFFFF then 0 else 0xFFFF,
                           if param <= 0xFFFF then param else param - 0xFFFF_0000);
    } else {
      Arithmetic.DivUnique(param, UINT32_RANGE, 0, param);
    }
  }

  /** The 32-bit image of a number. */
  function Image(x: int): Uint32 { x % UINT32_RANGE }

  /** The number whose image an argument of that width is. */
  function Meant(param: Uint32, width: nat): int {
    if param < Power256(width) then param else Int32(param)
  }

  /**
   * An argument of w bytes is accepted exactly if it is the 32-bit image of a number from -256^w / 2 to 256^w - 1, and
   * w is 1, 2 or 4.
   */
  lemma AcceptedExactly(param: Uint32, width: nat)
    ensures InRange(param, width) <==>
              width in {1, 2, 4} && exists x :: -(Power256(width) / 2) <= x < Power256(width) && Image(x) == param
  {
    hide Power256;
    SmallPowers();
    if width in {1, 2, 4} {
      if InRange(param, width) {
        ImageOfMeant(param, width);
        var x := Meant(param, width);
        assert -(Power256(width) / 2) <= x < Power256(width);
      }
      if x :| -(Power256(width) / 2) <= x < Power256(width) && Image(x) == param {
        ImageIs(x);
      }
    }
  }

  lemma ImageOfMeant(param: Uint32, width: nat)
    ensures Image(Meant(param, width)) == param
  {
    Arithmetic.DivUnique(param, UINT32_RANGE, 0, param);
    Arithmetic.DivUnique(param - UINT32_RANGE, UINT32_RANGE, -1, param);
  }

  lemma ImageIs(x: int)
    requires -0x8000_0000 <= x < UINT32_RANGE
    ensures Image(x) == if x >= 0 then x else x + UINT32_RANGE
  {
    Arithmetic.DivUnique(x, UINT32_RANGE, if x >= 0 then 0 else -1, if x >= 0 then x else x + UINT32_RANGE);
  }

  lemma SmallPowers()
    ensures Power256(1) == 0x100 && Power256(2) == 0x1_0000 && Power256(4) == UINT32_RANGE
  {
    assert Power256(0) == 1 && Power256(1) == 0x100 * Power256(0) && Power256(2) == 0x100 * Power256(1);
    assert Power256(3) == 0x100 * Power256(2) && Power256(4) == 0x100 * Power256(3);
  }

  lemma {:induction false} SumOfPrefix(ws: seq<Uint8>, k: nat)
    requires k <= |ws|
    ensures Sum(ws[..k]) <= Sum(ws)
    decreases |ws| - k
  {
    if k < |ws| {
      var longer := ws[..k + 1];
      assert longer[..k] == ws[..k];
      SumOfPrefix(ws, k + 1);
    } else {
      assert ws[..k] == ws;
    }
  }

  lemma TooLong(apiId: Uint16, ws: seq<Uint8>, tab: seq<Uint32>, i: nat, bytes: seq<Uint8>, sent: bool)
    requires i < |ws| && Encoded(apiId, ws, tab, i, bytes, sent)
    requires |bytes| + ws[i] > NBU_API_MAX_PARAM_LENGTH
    ensures Encoded(apiId, ws, tab, i, bytes, false)
  {
    if sent {
      var longer := ws[..i + 1];
      assert longer[..i] == ws[..i];
      SumOfPrefix(ws, i + 1);
    }
  }

  lemma OneMore(apiId: Uint16, ws: seq<Uint8>, tab: seq<Uint32>, i: nat, bytes: seq<Uint8>)
    requires i < |ws| && i < |tab| && Encoded(apiId, ws, tab, i, bytes, true) && InRange(tab[i], ws[i])
    requires |bytes| + ws[i] <= NBU_API_MAX_PARAM_LENGTH
    ensures Encoded(apiId, ws, tab, i + 1, bytes + LittleEndian(tab[i], ws[i]), true)
  {
    hide InRange, LittleEndian;
    var longer := ws[..i + 1];
    assert longer[..i] == ws[..i];
    forall k | 0 <= k < i + 1 ensures InRange(tab[k], longer[k]) {
      if k < i {
        assert longer[k] == ws[..i][k];
      }
    }
  }

  /** The unrolled stores of one argument. */
  method PutBytes(data: array<Uint8>, at: nat, param: Uint32, width: nat)
    requires width in {1, 2, 4} && at + width <= data.Length
    modifies data
    ensures data[..at + width] == old(data[..at]) + LittleEndian(param, width)
  {
    var p1 := param / 0x100;
    var p2 := p1 / 0x100;
    var p3 := p2 / 0x100;
    FourBytes(param, p1, p2, p3);
    hide LittleEndian;
    if width == 1 {
      data[at] := param % 0x100;
    } else if width == 2 {
      data[at], data[at + 1] := param % 0x100, p1 % 0x100;
    } else {
      data[at], data[at + 1], data[at + 2], data[at + 3] := param % 0x100, p1 % 0x100, p2 % 0x100, p3 % 0x100;
    }
  }

  lemma FourBytes(p: nat, p1: nat, p2: nat, p3: nat)
    requires p1 == p / 0x100 && p2 == p1 / 0x100 && p3 == p2 / 0x100
    ensures LittleEndian(p, 1) == [p % 0x100]
    ensures LittleEndian(p, 2) == [p % 0x100, p1 % 0x100]
    ensures LittleEndian(p, 4) == [p % 0x100, p1 % 0x100, p2 % 0x100, p3 % 0x100]
  {
    OneByte(p);
    OneByte(p1);
    OneByte(p3);
    assert LittleEndian(p, 2) == [p % 0x100] + LittleEndian(p1, 1);
    assert LittleEndian(p2, 2) == [p2 % 0x100] + LittleEndian(p3, 1);
    assert LittleEndian(p1, 3) == [p1 % 0x100] + LittleEndian(p2, 2);
  }

  lemma OneByte(p: nat)
    ensures LittleEndian(p, 1) == [p % 0x100]
  {
  }

  /** The encoding loop; sent tells whether the message was handed over, and data holds it. */
  method NbuApiReq(apiId: Uint16, fmt: seq<Uint8>, tab: seq<Uint32>, data: array<Uint8>)
    returns (sent: bool, dataLen: nat)
    requires fmt != [] && fmt[|fmt| - 1] == 0 && ReadsWithin(Widths(fmt), tab, 0, 0, 2)
    requires data.Length == 2 + NBU_API_MAX_PARAM_LENGTH
    modifies data
    ensures sent <==> Sendable(Widths(fmt), tab)
    ensures dataLen <= data.Length
    ensures sent ==> |Widths(fmt)| <= |tab| && data[..dataLen] == Payload(apiId, Widths(fmt), tab)
  {
    ghost var ws := Widths(fmt);
    data[0] := apiId % 0x100;
    data[1] := apiId / 0x100;
    dataLen := 2;
    sent := true;
    var i, j := 0, 0;
    FourBytes(apiId, apiId / 0x100, apiId / 0x100 / 0x100, apiId / 0x100 / 0x100 / 0x100);
    assert data[..2] == Payload(apiId, ws[..0], tab);
    NothingToSend(ws, tab);
    hide Encoded, InRange, LittleEndian, Sum, Sendable, Payload, ReadsWithin;
    while fmt[i] != 0
      invariant 0 <= j <= i <= |ws| < |fmt| && 2 <= dataLen <= NBU_API_MAX_PARAM_LENGTH
      invariant (sent ==> j == i) && ReadsWithin(ws, tab, i, j, dataLen)
      invariant Encoded(apiId, ws, tab, i, data[..dataLen], sent)
      decreases |ws| - i
    {
      if dataLen + fmt[i] > NBU_API_MAX_PARAM_LENGTH {
        TooLong(apiId, ws, tab, i, data[..dataLen], sent);
        sent := false;
        break;
      }
      sent, j, dataLen := EncodeArgument(fmt[i], tab, j, data, dataLen, sent, apiId, ws, i);
      i := i + 1;
    }
    EncodedAll(apiId, ws, tab, i, data[..dataLen], sent);
  }

  /** One round of the loop for an argument that does not go past the limit. */
  method EncodeArgument(width: Uint8, tab: seq<Uint32>, j: nat, data: array<Uint8>, dataLen: nat, sent: bool,
                        ghost apiId: Uint16, ghost ws: seq<Uint8>, ghost i: nat)
    returns (sent': bool, j': nat, dataLen': nat)
    requires i < |ws| && ws[i] == width && dataLen + width <= NBU_API_MAX_PARAM_LENGTH <= data.Length
    requires (sent ==> j == i) && j <= i && ReadsWithin(ws, tab, i, j, dataLen)
    requires Encoded(apiId, ws, tab, i, data[..dataLen], sent)
    modifies data
    ensures (sent' ==> j' == i + 1) && j' <= i + 1 && dataLen <= dataLen' <= NBU_API_MAX_PARAM_LENGTH
    ensures ReadsWithin(ws, tab, i + 1, j', dataLen')
    ensures Encoded(apiId, ws, tab, i + 1, data[..dataLen'], sent')
  {
    hide Encoded, InRange, LittleEndian, Sum, Sendable, Payload, ReadsWithin;
    ghost var before := data[..dataLen];
    ReadsOn(ws, tab, i, j, dataLen);
    var ok := false;
    j', dataLen' := j, dataLen;
    if width in {1, 2, 4} {
      var param := tab[j];
      j' := j + 1;
      ok := InRange(param, width);
      if ok {
        PutBytes(data, dataLen, param, width);
        dataLen' := dataLen + width;
      }
    }
    sent' := sent && ok;
    if sent' {
      OneMore(apiId, ws, tab, i, before);
    } else {
      BadArgument(apiId, ws, tab, i, before, sent, data[..dataLen']);
    }
  }

  /** The state of the loop at argument i: the bytes so far, or an argument or length that rules the message out. */
  ghost predicate Encoded(apiId: Uint16, ws: seq<Uint8>, tab: seq<Uint32>, i: nat, bytes: seq<Uint8>, sent: bool) {
    && i <= |ws|
    && if sent then Sendable(ws[..i], tab) && bytes == Payload(apiId, ws[..i], tab) else !Sendable(ws, tab)
  }

  lemma EncodedAll(apiId: Uint16, ws: seq<Uint8>, tab: seq<Uint32>, i: nat, bytes: seq<Uint8>, sent: bool)
    requires Encoded(apiId, ws, tab, i, bytes, sent) && (sent ==> i == |ws|)
    ensures sent <==> Sendable(ws, tab)
    ensures sent ==> |ws| <= |tab| && bytes == Payload(apiId, ws, tab)
  {
    assert sent ==> ws[..i] == ws;
  }

  lemma ReadsOn(ws: seq<Uint8>, tab: seq<Uint32>, i: nat, j: nat, len: nat)
    requires i < |ws| && ReadsWithin(ws, tab, i, j, len) && len + ws[i] <= NBU_API_MAX_PARAM_LENGTH
    ensures if ws[i] in {1, 2, 4} then
              j < |tab| && ReadsWithin(ws, tab, i + 1, j + 1, if InRange(tab[j], ws[i]) then len + ws[i] else len)
            else ReadsWithin(ws, tab, i + 1, j, len)
  {
  }

  lemma NothingToSend(ws: seq<Uint8>, tab: seq<Uint32>)
    ensures Sendable(ws[..0], tab)
  {
  }

  lemma BadArgument(apiId: Uint16, ws: seq<Uint8>, tab: seq<Uint32>, i: nat, bytes: seq<Uint8>, sent: bool,
                    more: seq<Uint8>)
    requires i < |ws| && Encoded(apiId, ws, tab, i, bytes, sent)
    requires sent ==> ws[i] !in {1, 2, 4} || (i < |tab| && !InRange(tab[i], ws[i]))
    ensures Encoded(apiId, ws, tab, i + 1, more, false)
  {
  }
}

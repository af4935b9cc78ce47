/** What reading accepts, whatever the sector holds: exactly the records, and nothing else. */
module HwParameterRead {
  import opened MachineWords
  import opened Arithmetic
  import opened ByteValue
  import opened Crc16
  import opened NorFlash
  import opened HwParameter

  // ----- the identifiers

  /** The bytes are the character codes of the text. */
  ghost predicate Spells(bytes: seq<Byte>, text: string) {
    |bytes| == |text| && forall i :: 0 <= i < |text| ==> FromByte(bytes[i]) == text[i] as int
  }

  lemma IdentifiersSpell()
    ensures Spells(PROD_DATA_IDENTIFIER, "PROD_DATA:")
    ensures Spells(APP_FACTORY_DATA_IDENTIFIER, "APP_FACT_DATA:  ")
  {
    LetterBytes();
    hide FromByte;
  }

  lemma LetterBytes()
    ensures FromByte(0x20) == 0x20 && FromByte(0x3A) == 0x3A && FromByte(0x41) == 0x41 && FromByte(0x43) == 0x43
    ensures FromByte(0x44) == 0x44 && FromByte(0x46) == 0x46 && FromByte(0x4F) == 0x4F && FromByte(0x50) == 0x50
    ensures FromByte(0x52) == 0x52 && FromByte(0x54) == 0x54 && FromByte(0x5F) == 0x5F
  {
  }

  // ----- production data

  /** A region passes the check exactly if it is the record of its own content, byte for byte. */
  lemma ProdValidExactly(prod: seq<Byte>)
    requires |prod| == PROD_DATA_LEN
    ensures ProdValid(prod) <==> prod == ProdRecord(prod[PROD_DATA_ID_STRING_SZ..HW_PARAM_CRC_OFFSET])
  {
    var content := prod[PROD_DATA_ID_STRING_SZ..HW_PARAM_CRC_OFFSET];
    var crc, rec := Crc(content), ProdRecord(content);
    StoredRoundTrip(crc, prod[HW_PARAM_CRC_OFFSET], prod[HW_PARAM_CRC_OFFSET + 1]);
    hide Crc, Stored, Low, High;
    var tail := prod[HW_PARAM_CRC_OFFSET..];
    assert prod == prod[..PROD_DATA_ID_STRING_SZ] + content + tail;
    assert rec[..PROD_DATA_ID_STRING_SZ] == PROD_DATA_IDENTIFIER && rec[HW_PARAM_CRC_OFFSET..] == CrcField(crc);
    assert tail == [prod[HW_PARAM_CRC_OFFSET], prod[HW_PARAM_CRC_OFFSET + 1]];
  }

  /** A read of a store not loaded before, told from the bytes of the region; any other read changes nothing. */
  lemma ReadExactly(st: State, hal: Hal)
    requires Sound(st)
    ensures var (t, status) := ReadHwParameters(st, hal);
            var prod := st.sector.prod;
            var record := ProdRecord(prod[PROD_DATA_ID_STRING_SZ..HW_PARAM_CRC_OFFSET]);
            var loads := !st.loaded && hal.initOk;
            && t.sector == st.sector && (t.loaded <==> st.loaded || loads)
            && (status == BlankFlash <==> loads && prod == Blanks(PROD_DATA_LEN))
            && (status == Success <==> !loads || prod == record)
            && (status == Error <==> loads && prod != Blanks(PROD_DATA_LEN) && prod != record)
            && t.ram == if loads && (prod == Blanks(PROD_DATA_LEN) || prod == record) then prod else st.ram
  {
    BlankIsBlanks(st.sector.prod);
    ProdValidExactly(st.sector.prod);
    BlankNoRecord(st.sector.prod[PROD_DATA_ID_STRING_SZ..HW_PARAM_CRC_OFFSET]);
    hide IsBlank, ProdValid, Crc, ProdRecord;
  }

  lemma BlankNoRecord(content: seq<Byte>)
    ensures ProdRecord(content)[0] == 0x50
  {
  }

  // ----- factory data

  lemma DigitsDecide(a: Byte, b: Byte)
    requires Digit(a, 0x01) == Digit(b, 0x01) && Digit(a, 0x02) == Digit(b, 0x02)
    requires Digit(a, 0x04) == Digit(b, 0x04) && Digit(a, 0x08) == Digit(b, 0x08)
    requires Digit(a, 0x10) == Digit(b, 0x10) && Digit(a, 0x20) == Digit(b, 0x20)
    requires Digit(a, 0x40) == Digit(b, 0x40) && Digit(a, 0x80) == Digit(b, 0x80)
    ensures a == b
  {
  }

  lemma FourBitsUnique(a0: nat, a1: nat, a2: nat, a3: nat, b0: nat, b1: nat, b2: nat, b3: nat, m: nat, n: nat)
    requires a0 <= 1 && a1 <= 1 && a2 <= 1 && a3 <= 1 && b0 <= 1 && b1 <= 1 && b2 <= 1 && b3 <= 1
    requires a0 + 2 * a1 + 4 * a2 + 8 * a3 + 16 * m == b0 + 2 * b1 + 4 * b2 + 8 * b3 + 16 * n
    ensures a0 == b0 && a1 == b1 && a2 == b2 && a3 == b3 && m == n
  {
    assert a0 == b0;
    assert a1 == b1;
    assert a2 == b2;
  }

  lemma FromByteInjective(a: Byte, b: Byte)
    requires FromByte(a) == FromByte(b)
    ensures a == b
  {
    hide Digit;
    DigitsAreBits(a);
    DigitsAreBits(b);
    FourBitsUnique(Digit(a, 0x01), Digit(a, 0x02), Digit(a, 0x04), Digit(a, 0x08),
                   Digit(b, 0x01), Digit(b, 0x02), Digit(b, 0x04), Digit(b, 0x08),
                   Digit(a, 0x10) + 2 * Digit(a, 0x20) + 4 * Digit(a, 0x40) + 8 * Digit(a, 0x80),
                   Digit(b, 0x10) + 2 * Digit(b, 0x20) + 4 * Digit(b, 0x40) + 8 * Digit(b, 0x80));
    FourBitsUnique(Digit(a, 0x10), Digit(a, 0x20), Digit(a, 0x40), Digit(a, 0x80),
                   Digit(b, 0x10), Digit(b, 0x20), Digit(b, 0x40), Digit(b, 0x80), 0, 0);
    DigitsDecide(a, b);
  }

  lemma DigitsAreBits(b: Byte)
    ensures Digit(b, 0x01) <= 1 && Digit(b, 0x02) <= 1 && Digit(b, 0x04) <= 1 && Digit(b, 0x08) <= 1
    ensures Digit(b, 0x10) <= 1 && Digit(b, 0x20) <= 1 && Digit(b, 0x40) <= 1 && Digit(b, 0x80) <= 1
  {
  }

  lemma FourBytesUnique(a0: Uint8, a1: Uint8, a2: Uint8, a3: Uint8, b0: Uint8, b1: Uint8, b2: Uint8, b3: Uint8)
    requires a0 + 0x100 * a1 + 0x1_0000 * a2 + 0x100_0000 * a3 == b0 + 0x100 * b1 + 0x1_0000 * b2 + 0x100_0000 * b3
    ensures a0 == b0 && a1 == b1 && a2 == b2 && a3 == b3
  {
    FourBytes(a0, a1, a2, a3);
    FourBytes(b0, b1, b2, b3);
  }

  lemma SameValues(s: seq<Byte>, t: seq<Byte>)
    requires |s| == |t| == 4 && FromLe32(s) == FromLe32(t)
    ensures FromByte(s[0]) == FromByte(t[0]) && FromByte(s[1]) == FromByte(t[1])
    ensures FromByte(s[2]) == FromByte(t[2]) && FromByte(s[3]) == FromByte(t[3])
  {
    hide FromByte;
    var a0: Uint8, a1: Uint8, a2: Uint8, a3: Uint8 := FromByte(s[0]), FromByte(s[1]), FromByte(s[2]), FromByte(s[3]);
    var b0: Uint8, b1: Uint8, b2: Uint8, b3: Uint8 := FromByte(t[0]), FromByte(t[1]), FromByte(t[2]), FromByte(t[3]);
    FourBytesUnique(a0, a1, a2, a3, b0, b1, b2, b3);
  }

  lemma SameBytes(s: seq<Byte>, t: seq<Byte>)
    requires |s| == |t| == 4
    ensures (FromByte(s[0]) == FromByte(t[0]) && FromByte(s[1]) == FromByte(t[1])
             && FromByte(s[2]) == FromByte(t[2]) && FromByte(s[3]) == FromByte(t[3])) ==> s == t
  {
    hide FromByte;
    if FromByte(s[0]) == FromByte(t[0]) && FromByte(s[1]) == FromByte(t[1])
       && FromByte(s[2]) == FromByte(t[2]) && FromByte(s[3]) == FromByte(t[3]) {
      FromByteInjective(s[0], t[0]);
      FromByteInjective(s[1], t[1]);
      FromByteInjective(s[2], t[2]);
      FromByteInjective(s[3], t[3]);
    }
  }

  lemma FromLe32Injective(s: seq<Byte>, t: seq<Byte>)
    requires |s| == |t| == 4 && FromLe32(s) == FromLe32(t)
    ensures s == t
  {
    hide FromByte, FromLe32;
    SameValues(s, t);
    SameBytes(s, t);
  }

  lemma Le32Values(n: nat)
    requires n < UINT32_RANGE
    ensures FromByte(Le32(n)[0]) == n % 0x100 && FromByte(Le32(n)[1]) == n / 0x100 % 0x100
    ensures FromByte(Le32(n)[2]) == n / 0x1_0000 % 0x100 && FromByte(Le32(n)[3]) == n / 0x100_0000
  {
    hide ToByte, FromByte;
    ByteRoundTrip(n % 256);
    ByteRoundTrip(n / 0x100 % 256);
    ByteRoundTrip(n / 0x1_0000 % 256);
    ByteRoundTrip(n / 0x100_0000);
  }

  /** A length field declares n exactly if it holds n, low byte first. */
  lemma DeclaresExactly(field: seq<Byte>, n: nat)
    requires |field| == 4 && n < UINT32_RANGE
    ensures FromLe32(field) == n <==> field == Le32(n)
    ensures FromLe32(field) == n <==>
              && FromByte(field[0]) == n % 0x100 && FromByte(field[1]) == n / 0x100 % 0x100
              && FromByte(field[2]) == n / 0x1_0000 % 0x100 && FromByte(field[3]) == n / 0x100_0000
  {
    hide FromLe32, Le32, FromByte;
    Le32RoundTrip(n);
    Le32Values(n);
    if FromLe32(field) == n {
      FromLe32Injective(field, Le32(n));
    }
    SameBytes(field, Le32(n));
  }

  /** The region holds the record of p, but for the six identifier bytes that are never compared. */
  ghost predicate HoldsRecord(app: seq<Byte>, p: seq<Byte>)
    requires |p| < UINT32_RANGE
  {
    var rec := AppRecord(p);
    && |rec| <= |app|
    && app[..PROD_DATA_ID_STRING_SZ] == rec[..PROD_DATA_ID_STRING_SZ]
    && app[16..|rec|] == rec[16..]
  }

  lemma SameParts(a: seq<Byte>, b: seq<Byte>, c: seq<Byte>, x: seq<Byte>, y: seq<Byte>, z: seq<Byte>)
    requires |a| == |x| && |b| == |y|
    ensures a + b + c == x + y + z <==> a == x && b == y && c == z
  {
    var l, r := a + b + c, x + y + z;
    assert a == l[..|a|] && b == l[|a|..|a| + |b|] && c == l[|a| + |b|..];
    assert x == r[..|a|] && y == r[|a|..|a| + |b|] && z == r[|a| + |b|..];
  }

  lemma RecordParts(p: seq<Byte>)
    requires |p| < UINT32_RANGE
    ensures AppRecord(p)[..PROD_DATA_ID_STRING_SZ] == APP_FACTORY_DATA_IDENTIFIER[..PROD_DATA_ID_STRING_SZ]
    ensures AppRecord(p)[16..] == Le32(|p|) + p + CrcField(Crc(p))
  {
    hide Crc, CrcField, Le32;
  }

  lemma HoldsParts(app: seq<Byte>, p: seq<Byte>)
    requires |p| < UINT32_RANGE && APP_DATA_OFFSET + |p| + 2 <= |app|
    ensures var n := APP_DATA_OFFSET + |p|;
            HoldsRecord(app, p) <==>
              && AppTagged(app)
              && app[16..APP_DATA_OFFSET] == Le32(|p|)
              && app[APP_DATA_OFFSET..n] == p
              && app[n] == Low(Crc(p)) && app[n + 1] == High(Crc(p))
  {
    var n := APP_DATA_OFFSET + |p|;
    RecordParts(p);
    SameParts(app[16..APP_DATA_OFFSET], app[APP_DATA_OFFSET..n], [app[n], app[n + 1]],
              Le32(|p|), p, CrcField(Crc(p)));
    hide Crc, Low, High, Le32, AppRecord;
    assert app[16..n + 2] == app[16..APP_DATA_OFFSET] + app[APP_DATA_OFFSET..n] + [app[n], app[n + 1]];
  }

  /** Reading factory data returns p exactly if the region holds the record of p and p has a readable length. */
  lemma GetExactly(st: State, p: seq<Byte>)
    requires Sound(st)
    ensures GetAppFactoryData(st) == Payload(p) <==> ReadableLength(|p|) && HoldsRecord(st.sector.app, p)
  {
    var app := st.sector.app;
    GetCases(st, p);
    if ReadableLength(|p|) {
      PassesExactly(app, p);
    }
    hide Crc, Stored, AppTagged, DeclaredLength, GetAppFactoryData, HoldsRecord;
  }

  lemma GetCases(st: State, p: seq<Byte>)
    requires Sound(st)
    ensures var app := st.sector.app;
            var n := APP_DATA_OFFSET + |p|;
            GetAppFactoryData(st) == Payload(p) <==>
              && ReadableLength(|p|) && AppTagged(app) && DeclaredLength(app) == |p| && app[APP_DATA_OFFSET..n] == p
              && Crc(p) == Stored(app[n], app[n + 1])
  {
    hide Crc, Stored, AppTagged, DeclaredLength, AppCheck, NoWrap;
    var app := st.sector.app;
    CheckCases(app);
    if AppTagged(app) && ReadableLength(DeclaredLength(app)) {
      assert GetAppFactoryData(st).Payload? <==> AppCheck(app) == Success;
    } else {
      assert !GetAppFactoryData(st).Payload?;
    }
  }

  lemma DeclaredExactly(app: seq<Byte>, n: nat)
    requires |app| >= APP_DATA_OFFSET && n < UINT32_RANGE
    ensures DeclaredLength(app) == n <==> app[16..APP_DATA_OFFSET] == Le32(n)
  {
    hide FromLe32, Le32;
    DeclaresExactly(app[16..APP_DATA_OFFSET], n);
  }

  lemma PassesExactly(app: seq<Byte>, p: seq<Byte>)
    requires |app| >= APP_FACTORY_DATA_MAX_LEN && ReadableLength(|p|)
    ensures var n := APP_DATA_OFFSET + |p|;
            HoldsRecord(app, p) <==>
              && AppTagged(app) && DeclaredLength(app) == |p| && app[APP_DATA_OFFSET..n] == p
              && Crc(p) == Stored(app[n], app[n + 1])
  {
    hide Crc, Stored, Low, High, Le32, AppTagged, DeclaredLength, HoldsRecord;
    var n := APP_DATA_OFFSET + |p|;
    HoldsParts(app, p);
    DeclaredExactly(app, |p|);
    StoredRoundTrip(Crc(p), app[n], app[n + 1]);
  }
}

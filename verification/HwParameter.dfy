/**
 * The production-data record and the application factory-data record, and what each
 * operation of HWParameter.c does to the flash sector they share and to the RAM copy.
 */
module HwParameter {
  import opened MachineWords
  import opened Arithmetic
  import opened ByteValue
  import opened Crc16
  import opened NorFlash

  const IFR_RSVD_SZ := 0x600
  const PROD_DATA_LEN := 0x80
  const PROD_DATA_ID_STRING_SZ := 10
  const HW_PARAM_CRC_OFFSET := 126
  const APP_FACTORY_DATA_MAX_LEN := 0x800
  const APP_DATA_OFFSET := 20

  /** "PROD_DATA:" */
  const PROD_DATA_IDENTIFIER: seq<Byte> := [0x50, 0x52, 0x4F, 0x44, 0x5F, 0x44, 0x41, 0x54, 0x41, 0x3A]

  /** "APP_FACT_DATA:  " */
  const APP_FACTORY_DATA_IDENTIFIER: seq<Byte> :=
    [0x41, 0x50, 0x50, 0x5F, 0x46, 0x41, 0x43, 0x54, 0x5F, 0x44, 0x41, 0x54, 0x41, 0x3A, 0x20, 0x20]

  /**
   * OutOfArea is no code the source returns: the call follows a record length out of the sector, where the model
   * knows no memory, and is taken to end there.
   */
  datatype Status = Success | Error | CrcError | LenError | BlankFlash | OutOfArea

  /** The sector: the reserved IFR area, the production data, and everything from the factory data on. */
  datatype Sector = Sector(rsvd: seq<Byte>, prod: seq<Byte>, app: seq<Byte>)

  predicate Formed(s: Sector) {
    && |s.rsvd| == IFR_RSVD_SZ
    && |s.prod| == PROD_DATA_LEN
    && APP_FACTORY_DATA_MAX_LEN <= |s.app| < UINT32_RANGE
  }

  function Erased(s: Sector): Sector {
    Sector(Blanks(|s.rsvd|), Blanks(|s.prod|), Blanks(|s.app|))
  }

  /** Flash, the RAM copy gHardwareParameters, and whether gHardwareParameters_p points at it. */
  datatype State = State(sector: Sector, ram: seq<Byte>, loaded: bool)

  predicate Sound(st: State) {
    Formed(st.sector) && |st.ram| == PROD_DATA_LEN
  }

  // ----- record formats

  function Le32(n: nat): (s: seq<Byte>)
    requires n < UINT32_RANGE
    ensures |s| == 4
  {
    [ToByte(n % 256), ToByte(n / 0x100 % 256), ToByte(n / 0x1_0000 % 256), ToByte(n / 0x100_0000)]
  }

  function FromLe32(s: seq<Byte>): (n: nat)
    requires |s| == 4
    ensures n < UINT32_RANGE
  {
    hide FromByte;
    FromByte(s[0]) + 0x100 * FromByte(s[1]) + 0x1_0000 * FromByte(s[2]) + 0x100_0000 * FromByte(s[3])
  }

  lemma FourBytes(b0: Uint8, b1: Uint8, b2: Uint8, b3: Uint8)
    ensures var n := b0 + 0x100 * b1 + 0x1_0000 * b2 + 0x100_0000 * b3;
            n % 0x100 == b0 && n / 0x100 % 0x100 == b1 && n / 0x1_0000 % 0x100 == b2 && n / 0x100_0000 == b3
  {
    var n := b0 + 0x100 * b1 + 0x1_0000 * b2 + 0x100_0000 * b3;
    DivUnique(n, 0x100, b1 + 0x100 * b2 + 0x1_0000 * b3, b0);
    DivUnique(b1 + 0x100 * b2 + 0x1_0000 * b3, 0x100, b2 + 0x100 * b3, b1);
    DivUnique(n, 0x1_0000, b2 + 0x100 * b3, b0 + 0x100 * b1);
    DivUnique(b2 + 0x100 * b3, 0x100, b3, b2);
    DivUnique(n, 0x100_0000, b3, b0 + 0x100 * b1 + 0x1_0000 * b2);
  }

  lemma FourDigits(n: nat)
    requires n < UINT32_RANGE
    ensures n == n % 256 + 0x100 * (n / 0x100 % 256) + 0x1_0000 * (n / 0x1_0000 % 256) + 0x100_0000 * (n / 0x100_0000)
  {
    var q1 := n / 0x100;
    var q2 := q1 / 0x100;
    var q3 := q2 / 0x100;
    assert n == q1 * 0x100 + n % 0x100 && q1 == q2 * 0x100 + q1 % 0x100 && q2 == q3 * 0x100 + q2 % 0x100;
    FourBytes(n % 0x100, q1 % 0x100, q2 % 0x100, q3);
  }

  lemma Le32RoundTrip(n: nat)
    requires n < UINT32_RANGE
    ensures FromLe32(Le32(n)) == n
  {
    hide ToByte, FromByte;
    ByteRoundTrip(n % 256);
    ByteRoundTrip(n / 0x100 % 256);
    ByteRoundTrip(n / 0x1_0000 % 256);
    ByteRoundTrip(n / 0x100_0000);
    FourDigits(n);
  }

  function CrcField(crc: bv16): (s: seq<Byte>)
    ensures |s| == 2
  {
    [Low(crc), High(crc)]
  }

  function ProdRecord(content: seq<Byte>): seq<Byte> {
    PROD_DATA_IDENTIFIER + content + CrcField(Crc(content))
  }

  function AppRecord(payload: seq<Byte>): (r: seq<Byte>)
    requires |payload| < UINT32_RANGE
    ensures |r| == APP_DATA_OFFSET + |payload| + 2
  {
    APP_FACTORY_DATA_IDENTIFIER + Le32(|payload|) + payload + CrcField(Crc(payload))
  }

  // ----- the checks made before a record is believed

  /** NV_VerifyCrcOverHWParameters together with the identifier comparison that precedes it. */
  predicate ProdValid(prod: seq<Byte>)
    requires |prod| == PROD_DATA_LEN
  {
    && prod[..PROD_DATA_ID_STRING_SZ] == PROD_DATA_IDENTIFIER
    && Crc(prod[PROD_DATA_ID_STRING_SZ..HW_PARAM_CRC_OFFSET])
       == Stored(prod[HW_PARAM_CRC_OFFSET], prod[HW_PARAM_CRC_OFFSET + 1])
  }

  function DeclaredLength(app: seq<Byte>): (n: nat)
    requires |app| >= APP_DATA_OFFSET
    ensures n < UINT32_RANGE
  {
    FromLe32(app[16..APP_DATA_OFFSET])
  }

  /** Only as many identifier characters as the production identifier has are compared. */
  predicate AppTagged(app: seq<Byte>)
    requires |app| >= APP_DATA_OFFSET
  {
    app[..PROD_DATA_ID_STRING_SZ] == APP_FACTORY_DATA_IDENTIFIER[..PROD_DATA_ID_STRING_SZ]
  }

  lemma AppBlankNotTagged(app: seq<Byte>)
    requires APP_DATA_OFFSET <= |app| && app[0] == 0xFF
    ensures !AppTagged(app)
  {
    assert app[..PROD_DATA_ID_STRING_SZ][0] == 0xFF;
    assert APP_FACTORY_DATA_IDENTIFIER[..PROD_DATA_ID_STRING_SZ][0] == 0x41;
  }

  lemma AppTaggedNotBlank(app: seq<Byte>, n: nat)
    requires APP_DATA_OFFSET <= |app| && AppTagged(app) && 1 <= n <= |app|
    ensures !IsBlank(app[..n])
  {
    assert app[..PROD_DATA_ID_STRING_SZ][0] == 0x41;
    assert app[..n][0] == app[0];
  }

  /** The 32-bit total length of a tagged record does not wrap. */
  predicate NoWrap(app: seq<Byte>)
    requires |app| >= APP_DATA_OFFSET
  {
    AppTagged(app) ==> DeclaredLength(app) < UINT32_RANGE - (APP_DATA_OFFSET + 2)
  }

  /** NvExtendedFactoryDataValid; the total length is a 32-bit sum. */
  function AppCheck(app: seq<Byte>): Status
    requires |app| >= APP_FACTORY_DATA_MAX_LEN
  {
    var len := DeclaredLength(app);
    if !AppTagged(app) then Error
    else if len == 0 || (len + APP_DATA_OFFSET + 2) % UINT32_RANGE > APP_FACTORY_DATA_MAX_LEN then LenError
    else if APP_DATA_OFFSET + len + 2 > |app| then OutOfArea
    else if Crc(app[APP_DATA_OFFSET..APP_DATA_OFFSET + len])
            != Stored(app[APP_DATA_OFFSET + len], app[APP_DATA_OFFSET + len + 1]) then CrcError
    else Success
  }

  /** A length the reader is meant to accept. */
  predicate ReadableLength(n: nat) { 1 <= n && APP_DATA_OFFSET + n + 2 <= APP_FACTORY_DATA_MAX_LEN }

  /**
   * The length guard lets a record through exactly when its length is readable or so large that the total wraps;
   * only then does the check leave the area.
   */
  lemma CheckCases(app: seq<Byte>)
    requires APP_FACTORY_DATA_MAX_LEN <= |app| < UINT32_RANGE
    ensures AppCheck(app) == OutOfArea <==> !NoWrap(app)
    ensures !NoWrap(app) <==> AppTagged(app) && DeclaredLength(app) >= UINT32_RANGE - (APP_DATA_OFFSET + 2)
    ensures AppCheck(app) == Error <==> !AppTagged(app)
    ensures AppCheck(app) == LenError <==> AppTagged(app) && NoWrap(app) && !ReadableLength(DeclaredLength(app))
    ensures AppTagged(app) && ReadableLength(DeclaredLength(app)) ==>
              var n := APP_DATA_OFFSET + DeclaredLength(app);
              AppCheck(app) == if Crc(app[APP_DATA_OFFSET..n]) == Stored(app[n], app[n + 1]) then Success else CrcError
  {
    hide AppTagged, DeclaredLength, Crc, Stored;
    var len := DeclaredLength(app);
    if len + APP_DATA_OFFSET + 2 >= UINT32_RANGE {
      assert (len + APP_DATA_OFFSET + 2) % UINT32_RANGE == len + APP_DATA_OFFSET + 2 - UINT32_RANGE;
    }
  }

  lemma OutOfAreaNotBlank(app: seq<Byte>)
    requires APP_FACTORY_DATA_MAX_LEN <= |app| && AppCheck(app) == OutOfArea
    ensures !IsBlank(app[..APP_FACTORY_DATA_MAX_LEN])
  {
    AppTaggedNotBlank(app, APP_FACTORY_DATA_MAX_LEN);
  }

  function AppTotal(app: seq<Byte>): nat
    requires |app| >= APP_DATA_OFFSET
  {
    DeclaredLength(app) + APP_DATA_OFFSET + 2
  }

  // ----- what each operation does

  /** How an erase ended; a failing one may have raised any bits of the sector, given as masks of the regions. */
  datatype Erasure = Complete | Torn(mask: Sector)

  function AfterErase(s: Sector, erasure: Erasure): Sector {
    match erasure
    case Complete => Erased(s)
    case Torn(m) => Sector(Raised(s.rsvd, m.rsvd), Raised(s.prod, m.prod), Raised(s.app, m.app))
  }

  /** How the flash driver and the allocator answer during one operation. */
  datatype Hal = Hal(initOk: bool, rsvdAllocOk: bool, appAllocOk: bool, erase: Erasure,
                     program: Outcome, restoreRsvd: Outcome, restore: Outcome)

  const NO_FAULT := Hal(true, true, true, Complete, Done, Done, Done)

  function StatusOf(outcome: Outcome): Status { if outcome.Done? then Success else Error }

  function Worse(st: Status, outcome: Outcome): Status { if outcome.Done? then st else Error }

  /** What NvWriteProdData puts aside before erasing: the factory data, when it is a valid record. */
  function SavedApp(s: Sector): seq<Byte>
    requires Formed(s)
  {
    if !IsBlank(s.app[..APP_FACTORY_DATA_MAX_LEN]) && AppCheck(s.app) == Success
    then s.app[..AppTotal(s.app)] else []
  }

  function SavedRsvd(s: Sector): seq<Byte> { if IsBlank(s.rsvd) then [] else s.rsvd }

  /** Outcomes of restores that never happen do not matter: programming [] is no call at all. */
  function Restore(s: Sector, rsvd: seq<Byte>, app: seq<Byte>, st: Status, hal: Hal): (Sector, Status)
    requires |rsvd| <= |s.rsvd| && |app| <= |s.app|
  {
    var s1 := s.(rsvd := Programmed(s.rsvd, Reached(rsvd, hal.restoreRsvd)));
    var st1 := if rsvd == [] then st else Worse(st, hal.restoreRsvd);
    var s2 := s1.(app := Programmed(s1.app, Reached(app, hal.restore)));
    (s2, if app == [] then st1 else Worse(st1, hal.restore))
  }

  function WriteProd(s: Sector, rec: seq<Byte>, hal: Hal): (Sector, Status)
    requires Formed(s) && |rec| == PROD_DATA_LEN
  {
    if !hal.initOk then (s, Error)
    else if s.prod == rec then (s, Success)
    else if IsBlank(s.prod) then
      (s.(prod := Programmed(s.prod, Reached(rec, hal.program))), StatusOf(hal.program))
    else
      var rsvd, app := SavedRsvd(s), SavedApp(s);
      if rsvd != [] && !hal.rsvdAllocOk then (s, Error)
      else if AppCheck(s.app) == OutOfArea then (s, OutOfArea)
      else if app != [] && !hal.appAllocOk then Restore(s, rsvd, [], Error, hal)
      else if hal.erase.Torn? then Restore(AfterErase(s, hal.erase), rsvd, app, Error, hal)
      else
        var e := Erased(s);
        Restore(e.(prod := Programmed(e.prod, Reached(rec, hal.program))), rsvd, app, StatusOf(hal.program), hal)
  }

  /** The image NV_WriteHWParameters programs: identifier, the RAM content, its CRC. */
  function Sealed(ram: seq<Byte>): (r: seq<Byte>)
    requires |ram| == PROD_DATA_LEN
    ensures |r| == PROD_DATA_LEN
  {
    ProdRecord(ram[PROD_DATA_ID_STRING_SZ..HW_PARAM_CRC_OFFSET])
  }

  /** NV_WriteHWParameters. */
  function WriteHwParameters(st: State, hal: Hal): (State, Status)
    requires Sound(st) && st.loaded
  {
    if !hal.initOk then (st, Error)
    else if st.ram[..HW_PARAM_CRC_OFFSET] == st.sector.prod[..HW_PARAM_CRC_OFFSET] then (st, Success)
    else
      var rec := Sealed(st.ram);
      var (sector, status) := WriteProd(st.sector, rec, hal);
      (State(sector, rec, true), status)
  }

  /** HWParametersErase; it ignores the status of the write, if the write returns. */
  function EraseHwParameters(st: State, hal: Hal): (State, Status)
    requires Sound(st)
  {
    var blank := Blanks(PROD_DATA_LEN);
    var (sector, status) := WriteProd(st.sector, blank, hal);
    (State(sector, blank, true), if status == OutOfArea then OutOfArea else Success)
  }

  /** HWParametersReset. */
  function Reset(st: State): State { State(st.sector, Blanks(PROD_DATA_LEN), false) }

  /** NV_ReadHWParameters; the caller gets a null pointer when the resulting state is not loaded. */
  function ReadHwParameters(st: State, hal: Hal): (State, Status)
    requires Sound(st)
  {
    if st.loaded || !hal.initOk then (st, Success)
    else if IsBlank(st.sector.prod) then (State(st.sector, Blanks(PROD_DATA_LEN), true), BlankFlash)
    else if ProdValid(st.sector.prod) then (State(st.sector, st.sector.prod, true), Success)
    else (st.(loaded := true), Error)
  }

  /** What Nv_GetAppFactoryData returns: a pointer to a payload, or null; or it does not return. */
  datatype Reading = Payload(bytes: seq<Byte>) | Null | Outside

  /** Nv_GetAppFactoryData. */
  function GetAppFactoryData(st: State): Reading
    requires Sound(st)
  {
    match AppCheck(st.sector.app)
    case Success => Payload(st.sector.app[APP_DATA_OFFSET..APP_DATA_OFFSET + DeclaredLength(st.sector.app)])
    case OutOfArea => Outside
    case _ => Null
  }

  /** The production record Nv_WriteAppFactoryData puts aside, or []. */
  function SavedProd(s: Sector): seq<Byte>
    requires Formed(s)
  {
    if !IsBlank(s.prod) && ProdValid(s.prod) then s.prod else []
  }

  /** The payload is already stored as a valid record. */
  predicate SameApp(s: Sector, p: seq<Byte>)
    requires Formed(s)
  {
    && AppCheck(s.app) == Success && DeclaredLength(s.app) == |p|
    && s.app[APP_DATA_OFFSET..APP_DATA_OFFSET + |p|] == p
  }

  /** Nv_WriteAppFactoryData. */
  function WriteAppFactoryData(st: State, payload: seq<Byte>, hal: Hal): (State, Status)
    requires Sound(st) && APP_DATA_OFFSET + |payload| + 2 <= |st.sector.app|
  {
    var s, rec := st.sector, AppRecord(payload);
    if !hal.initOk then (st, Error)
    else if IsBlank(s.app[..|rec|]) then
      (st.(sector := s.(app := Programmed(s.app, Reached(rec, hal.program)))), StatusOf(hal.program))
    else if AppCheck(s.app) == OutOfArea then (st, OutOfArea)
    else if SameApp(s, payload) then (st, Success)
    else
      var prod := SavedProd(s);
      var ram, loaded := if prod == [] then st.ram else prod, st.loaded || prod != [];
      var e := AfterErase(s, hal.erase);
      var e1 := if hal.erase.Complete? then e.(app := Programmed(e.app, Reached(rec, hal.program))) else e;
      var e2 := e1.(prod := Programmed(e1.prod, Reached(prod, hal.restore)));
      var status := if hal.erase.Complete? then StatusOf(hal.program) else Error;
      (State(e2, ram, loaded), if prod == [] then status else Worse(status, hal.restore))
  }
}

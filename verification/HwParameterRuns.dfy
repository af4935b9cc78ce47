/**
 * Runs in which any driver call or allocation may fail. What a torn write can do to later
 * operations is to leave a record header whose length wraps 32 bits: here is exactly when that
 * happens, and that without it every operation stays inside the sector.
 */
module HwParameterRuns {
  import opened MachineWords
  import opened Arithmetic
  import opened ByteValue
  import opened Crc16
  import opened NorFlash
  import opened HwParameter
  import opened TwoSlotStore
  import opened HwParameterFaults

  // ----- torn headers

  /**
   * A record of declared length len, torn after k bytes on blank flash, reads as a tagged record whose total length
   * wraps: its ten compared identifier characters are there, and the length bytes not reached read 0xFF.
   */
  predicate TornLength(len: nat, k: nat) {
    && PROD_DATA_ID_STRING_SZ <= k < APP_DATA_OFFSET
    && (k > 16 ==> len % 0x100 >= 0xEA)
    && (k > 17 ==> len / 0x100 % 0x100 == 0xFF)
    && (k > 18 ==> len / 0x1_0000 % 0x100 == 0xFF)
  }

  /** Byte j of a length field torn after k bytes of the record. */
  function LengthByte(len: nat, k: nat, j: nat): nat {
    if 16 + j >= k then 0xFF
    else match j
      case 0 => len % 0x100
      case 1 => len / 0x100 % 0x100
      case 2 => len / 0x1_0000 % 0x100
      case _ => len / 0x100_0000
  }

  lemma TornSum(len: nat, k: nat)
    requires len < UINT32_RANGE - (APP_DATA_OFFSET + 2) && k >= PROD_DATA_ID_STRING_SZ
    ensures var n := LengthByte(len, k, 0) + 0x100 * LengthByte(len, k, 1)
                     + 0x1_0000 * LengthByte(len, k, 2) + 0x100_0000 * LengthByte(len, k, 3);
            n < UINT32_RANGE - (APP_DATA_OFFSET + 2)
            <==> !TornLength(len, k)
  {
    FourDigits(len);
  }

  lemma FieldDigits(s: seq<Byte>)
    requires |s| == 4
    ensures var n := FromLe32(s);
            && FromByte(s[0]) == n % 0x100 && FromByte(s[1]) == n / 0x100 % 0x100
            && FromByte(s[2]) == n / 0x1_0000 % 0x100 && FromByte(s[3]) == n / 0x100_0000
  {
    hide FromByte;
    FourBytes(FromByte(s[0]), FromByte(s[1]), FromByte(s[2]), FromByte(s[3]));
  }

  lemma BlankDigit()
    ensures FromByte(0xFF) == 0xFF
  {
  }

  lemma IdentifierNotBlank(k: nat)
    requires k < PROD_DATA_ID_STRING_SZ
    ensures APP_FACTORY_DATA_IDENTIFIER[k] != 0xFF
  {
  }

  /** The header read after a record was programmed onto blank flash as far as byte k. */
  lemma TornHeader(region: seq<Byte>, rec: seq<Byte>, k: nat)
    requires APP_FACTORY_DATA_MAX_LEN <= |region| < UINT32_RANGE && APP_DATA_OFFSET + 2 <= |rec| <= |region|
    requires AppTagged(rec) && DeclaredLength(rec) + APP_DATA_OFFSET + 2 <= |region|
    requires IsBlank(region[..|rec|]) && k <= |rec|
    ensures NoWrap(Programmed(region, rec[..k])) <==> !TornLength(DeclaredLength(rec), k)
  {
    var torn, len := Programmed(region, rec[..k]), DeclaredLength(rec);
    TornBytes(region, rec, k);
    if k < PROD_DATA_ID_STRING_SZ {
      IdentifierNotBlank(k);
      assert torn[..PROD_DATA_ID_STRING_SZ][k] == 0xFF;
      assert !AppTagged(torn);
    } else {
      assert AppTagged(torn) by {
        assert torn[..PROD_DATA_ID_STRING_SZ] == rec[..PROD_DATA_ID_STRING_SZ];
      }
      TornField(torn, rec, k);
      TornSum(len, k);
    }
    hide Programmed, AppTagged, DeclaredLength, LengthByte;
  }

  lemma TornBytes(region: seq<Byte>, rec: seq<Byte>, k: nat)
    requires |rec| <= |region| && IsBlank(region[..|rec|]) && k <= |rec|
    ensures var torn := Programmed(region, rec[..k]);
            forall i :: 0 <= i < |rec| ==> torn[i] == if i < k then rec[i] else 0xFF
  {
    forall i | 0 <= i < |rec| ensures region[i] == 0xFF {
      assert region[i] == region[..|rec|][i];
    }
    forall i | 0 <= i < k ensures And(region[i], rec[i]) == rec[i] {
      AndLaws(rec[i]);
    }
  }

  lemma TornField(torn: seq<Byte>, rec: seq<Byte>, k: nat)
    requires |rec| <= |torn| && APP_DATA_OFFSET <= |rec|
    requires forall i :: 0 <= i < |rec| ==> torn[i] == if i < k then rec[i] else 0xFF
    ensures var len := DeclaredLength(rec);
            DeclaredLength(torn) == LengthByte(len, k, 0) + 0x100 * LengthByte(len, k, 1)
                                    + 0x1_0000 * LengthByte(len, k, 2) + 0x100_0000 * LengthByte(len, k, 3)
  {
    hide FromByte;
    FieldDigits(rec[16..APP_DATA_OFFSET]);
    BlankDigit();
    var f, g := torn[16..APP_DATA_OFFSET], rec[16..APP_DATA_OFFSET];
    assert f[0] == torn[16] && f[1] == torn[17] && f[2] == torn[18] && f[3] == torn[19];
    assert g[0] == rec[16] && g[1] == rec[17] && g[2] == rec[18] && g[3] == rec[19];
  }

  // ----- which operations leave such a header

  /** Header byte i after a torn erase, the first k bytes having been put back. */
  function HeaderByte(region: seq<Byte>, mask: seq<Byte>, k: nat, i: nat): Byte
    requires i < |region|
  {
    if i < k then region[i] else Raised(region, mask)[i]
  }

  /** After a torn erase and k restored bytes the header is that of a record whose total length wraps. */
  predicate HeaderWraps(region: seq<Byte>, mask: seq<Byte>, k: nat)
    requires APP_DATA_OFFSET <= |region|
  {
    && (forall i :: 0 <= i < PROD_DATA_ID_STRING_SZ ==>
          HeaderByte(region, mask, k, i) == APP_FACTORY_DATA_IDENTIFIER[i])
    && FromByte(HeaderByte(region, mask, k, 16)) >= 0xEA
    && HeaderByte(region, mask, k, 17) == HeaderByte(region, mask, k, 18) == HeaderByte(region, mask, k, 19) == 0xFF
  }

  /** A wrapping length, byte by byte. */
  lemma WrapsByBytes(region: seq<Byte>)
    requires APP_DATA_OFFSET <= |region|
    ensures !NoWrap(region) <==>
              && (forall i :: 0 <= i < PROD_DATA_ID_STRING_SZ ==> region[i] == APP_FACTORY_DATA_IDENTIFIER[i])
              && FromByte(region[16]) >= 0xEA && region[17] == region[18] == region[19] == 0xFF
  {
    hide FromByte;
    FullByte(region[17]);
    FullByte(region[18]);
    FullByte(region[19]);
    TaggedByBytes(region);
    hide AppTagged;
    var field := region[16..APP_DATA_OFFSET];
    assert field[0] == region[16] && field[1] == region[17] && field[2] == region[18] && field[3] == region[19];
  }

  lemma TaggedByBytes(region: seq<Byte>)
    requires APP_DATA_OFFSET <= |region|
    ensures AppTagged(region)
            <==> forall i :: 0 <= i < PROD_DATA_ID_STRING_SZ ==> region[i] == APP_FACTORY_DATA_IDENTIFIER[i]
  {
    var id, tag := APP_FACTORY_DATA_IDENTIFIER[..PROD_DATA_ID_STRING_SZ], region[..PROD_DATA_ID_STRING_SZ];
    assert tag == id <==> forall i :: 0 <= i < PROD_DATA_ID_STRING_SZ ==> tag[i] == id[i];
    assert forall i :: 0 <= i < PROD_DATA_ID_STRING_SZ ==> tag[i] == region[i] && id[i] == APP_FACTORY_DATA_IDENTIFIER[i];
  }

  lemma PatchedWraps(region: seq<Byte>, mask: seq<Byte>, saved: seq<Byte>)
    requires APP_DATA_OFFSET <= |region| && saved <= region
    ensures !NoWrap(Patched(region, mask, saved)) <==> HeaderWraps(region, mask, |saved|)
  {
    hide NoWrap, FromByte, Raised;
    var patched := Patched(region, mask, saved);
    WrapsByBytes(patched);
    assert forall i :: 0 <= i < |region| ==> patched[i] == HeaderByte(region, mask, |saved|, i);
  }

  /** A production write that leaves a wrapping header: its erase or its restore of the saved record is torn so. */
  predicate TearsHeader(s: Sector, rec: seq<Byte>, hal: Hal)
    requires Formed(s) && |rec| == PROD_DATA_LEN
  {
    SavedPrefix(s);
    && ReachesErase(s, rec, hal)
    && match hal.erase
       case Complete => AppCheck(s.app) == Success && hal.restore.Failed?
                        && TornLength(DeclaredLength(s.app), hal.restore.reached)
       case Torn(m) => HeaderWraps(s.app, m.app, |Reached(SavedApp(s), hal.restore)|)
  }

  /** Exactly the calls that leave a wrapping record length where there was none. */
  predicate LeavesWrap(st: State, op: Op, hal: Hal)
    requires Sound(st) && Callable(op, st)
  {
    match op
    case Write => st.ram[..HW_PARAM_CRC_OFFSET] != st.sector.prod[..HW_PARAM_CRC_OFFSET]
                  && TearsHeader(st.sector, Sealed(st.ram), hal)
    case Erase => TearsHeader(st.sector, Blanks(PROD_DATA_LEN), hal)
    case WriteApp(p) =>
      var programs := hal.initOk && (IsBlank(st.sector.app[..APP_DATA_OFFSET + |p| + 2])
                                     || (NeedsErase(st, p, hal) && hal.erase.Complete?));
      || (programs && hal.program.Failed? && TornLength(|p|, hal.program.reached))
      || (NeedsErase(st, p, hal) && hal.erase.Torn? && HeaderWraps(st.sector.app, hal.erase.mask.app, 0))
    case _ => false
  }

  /** What becomes of the factory-data region in a production write. */
  lemma WriteProdApp(s: Sector, rec: seq<Byte>, hal: Hal)
    requires Formed(s) && |rec| == PROD_DATA_LEN
    ensures |SavedApp(s)| <= |s.app|
    ensures var s', reached := WriteProd(s, rec, hal).0, Reached(SavedApp(s), hal.restore);
            && Formed(s')
            && s'.app == if !ReachesErase(s, rec, hal) then s.app
                         else if hal.erase.Complete? then Programmed(Blanks(|s.app|), reached)
                         else Patched(s.app, hal.erase.mask.app, reached)
  {
    hide AppCheck, Programmed, SavedApp, IsBlank, Blanks, Patched;
    SavedPrefix(s);
    WriteProdFormed(s, rec, hal);
    if !ReachesErase(s, rec, hal) {
      NoEraseKeeps(s, rec, hal);
    } else if hal.erase.Torn? {
      TornErase(s, rec, hal);
    }
  }

  lemma SavedHeader(s: Sector)
    requires Formed(s)
    ensures if AppCheck(s.app) == Success then
              var rec := SavedApp(s);
              && APP_DATA_OFFSET + 2 <= |rec| <= |s.app| && AppTagged(rec)
              && DeclaredLength(rec) == DeclaredLength(s.app)
              && DeclaredLength(rec) + APP_DATA_OFFSET + 2 == |rec|
            else SavedApp(s) == []
  {
    SavedPrefix(s);
    if AppCheck(s.app) == Success {
      var rec := SavedApp(s);
      assert rec[..PROD_DATA_ID_STRING_SZ] == s.app[..PROD_DATA_ID_STRING_SZ];
      assert rec[16..APP_DATA_OFFSET] == s.app[16..APP_DATA_OFFSET];
    }
    hide FromLe32, Crc, Stored;
  }

  lemma BlankNoWrap(n: nat)
    requires n >= APP_DATA_OFFSET
    ensures NoWrap(Blanks(n))
  {
    AppBlankNotTagged(Blanks(n));
  }

  /** The factory data programmed back after an erase, as far as the calls got. */
  lemma ProdWrapsExactly(s: Sector, rec: seq<Byte>, hal: Hal)
    requires Formed(s) && |rec| == PROD_DATA_LEN && NoWrap(s.app)
    ensures NoWrap(WriteProd(s, rec, hal).0.app) <==> !TearsHeader(s, rec, hal)
  {
    hide AppCheck, Programmed, SavedApp, IsBlank, Blanks, AppTagged, DeclaredLength, NoWrap, WriteProd, TornLength,
         Patched, HeaderWraps;
    WriteProdApp(s, rec, hal);
    SavedPrefix(s);
    if ReachesErase(s, rec, hal) {
      var saved, reached := SavedApp(s), Reached(SavedApp(s), hal.restore);
      if hal.erase.Torn? {
        PatchedWraps(s.app, hal.erase.mask.app, reached);
      } else {
        SavedHeader(s);
        BlankNoWrap(|s.app|);
        ProgramNothing(Blanks(|s.app|));
        if AppCheck(s.app) == Success {
          RestoredHeader(s, reached);
          LateTear(DeclaredLength(s.app), |saved|);
          if hal.restore.Failed? {
            LateTear(DeclaredLength(s.app), hal.restore.reached);
          }
        }
      }
    }
  }

  lemma LateTear(len: nat, k: nat)
    ensures k >= APP_DATA_OFFSET ==> !TornLength(len, k)
  {
  }

  lemma RestoredHeader(s: Sector, reached: seq<Byte>)
    requires Formed(s) && AppCheck(s.app) == Success && reached <= SavedApp(s)
    requires |reached| <= |s.app|
    ensures NoWrap(Programmed(Blanks(|s.app|), reached)) <==> !TornLength(DeclaredLength(s.app), |reached|)
  {
    hide AppCheck, Programmed, SavedApp, AppTagged, DeclaredLength, NoWrap, TornLength;
    SavedHeader(s);
    TornHeader(Blanks(|s.app|), SavedApp(s), |reached|);
    assert SavedApp(s)[..|reached|] == reached;
  }

  lemma AppRecordHeader(p: seq<Byte>)
    requires |p| < UINT32_RANGE
    ensures AppTagged(AppRecord(p)) && DeclaredLength(AppRecord(p)) == |p|
  {
    hide Le32, FromLe32, Crc;
    var rec := AppRecord(p);
    Le32RoundTrip(|p|);
    assert rec[..16] == APP_FACTORY_DATA_IDENTIFIER && rec[16..APP_DATA_OFFSET] == Le32(|p|);
    assert rec[..PROD_DATA_ID_STRING_SZ] == rec[..16][..PROD_DATA_ID_STRING_SZ];
  }

  /** What becomes of the factory-data region in a factory-data write. */
  lemma WriteAppApp(st: State, p: seq<Byte>, hal: Hal)
    requires Sound(st) && APP_DATA_OFFSET + |p| + 2 <= |st.sector.app|
    ensures var s, reached := st.sector, Reached(AppRecord(p), hal.program);
            WriteAppFactoryData(st, p, hal).0.sector.app
            == if hal.initOk && IsBlank(s.app[..APP_DATA_OFFSET + |p| + 2]) then Programmed(s.app, reached)
               else if !NeedsErase(st, p, hal) then s.app
               else if hal.erase.Complete? then Programmed(Blanks(|s.app|), reached)
               else Patched(s.app, hal.erase.mask.app, [])
  {
    hide AppCheck, AppRecord, Programmed, ProdValid, IsBlank, Blanks, SameApp;
  }

  lemma AppWrapsExactly(st: State, p: seq<Byte>, hal: Hal)
    requires Sound(st) && APP_DATA_OFFSET + |p| + 2 <= |st.sector.app| && NoWrap(st.sector.app)
    ensures NoWrap(WriteAppFactoryData(st, p, hal).0.sector.app) <==> !LeavesWrap(st, WriteApp(p), hal)
  {
    hide AppRecord, Programmed, IsBlank, Blanks, AppTagged, DeclaredLength, NoWrap, WriteAppFactoryData, TornLength,
         AppCheck, SameApp, Patched, HeaderWraps;
    var region, rec := st.sector.app, AppRecord(p);
    var reached := Reached(rec, hal.program);
    WriteAppApp(st, p, hal);
    AppRecordHeader(p);
    assert rec[..|reached|] == reached;
    LateTear(|p|, |rec|);
    if hal.program.Failed? {
      LateTear(|p|, hal.program.reached);
    }
    BlankRegion(|region|, |rec|);
    if IsBlank(region[..|rec|]) {
      TornHeader(region, rec, |reached|);
    } else if NeedsErase(st, p, hal) {
      if hal.erase.Complete? {
        TornHeader(Blanks(|region|), rec, |reached|);
      } else {
        PatchedWraps(region, hal.erase.mask.app, []);
      }
    }
  }

  lemma BlankRegion(n: nat, k: nat)
    requires k <= n
    ensures IsBlank(Blanks(n)[..k])
  {
  }

  // ----- what follows

  /** Where no length wraps, an operation leaves one that does exactly in the listed cases, whatever else fails. */
  lemma StepWrapsExactly(st: State, op: Op, hal: Hal)
    requires Sound(st) && Callable(op, st)
    ensures var st' := FlashStep(st, op, hal).0;
            && Sound(st') && |st'.sector.app| == |st.sector.app|
            && (NoWrap(st.sector.app) ==> (NoWrap(st'.sector.app) <==> !LeavesWrap(st, op, hal)))
  {
    hide AppCheck, AppRecord, Programmed, ProdValid, IsBlank, Blanks, NoWrap, WriteProd, TornLength, Sealed,
         TearsHeader, WriteAppFactoryData;
    match op
    case Edit(_) =>
    case Read =>
    case Reset =>
    case Write =>
      WriteProdFormed(st.sector, Sealed(st.ram), hal);
      if NoWrap(st.sector.app) {
        ProdWrapsExactly(st.sector, Sealed(st.ram), hal);
      }
      TearsOnlyInitialised(st.sector, Sealed(st.ram), hal);
    case Erase =>
      WriteProdFormed(st.sector, Blanks(PROD_DATA_LEN), hal);
      if NoWrap(st.sector.app) {
        ProdWrapsExactly(st.sector, Blanks(PROD_DATA_LEN), hal);
      }
    case WriteApp(p) =>
      WriteAppSound(st, p, hal);
      if NoWrap(st.sector.app) {
        AppWrapsExactly(st, p, hal);
      }
  }

  lemma TearsOnlyInitialised(s: Sector, rec: seq<Byte>, hal: Hal)
    requires Formed(s) && |rec| == PROD_DATA_LEN
    ensures TearsHeader(s, rec, hal) ==> hal.initOk
  {
  }

  lemma WriteAppSound(st: State, p: seq<Byte>, hal: Hal)
    requires Sound(st) && APP_DATA_OFFSET + |p| + 2 <= |st.sector.app|
    ensures var st' := WriteAppFactoryData(st, p, hal).0;
            Sound(st') && |st'.sector.app| == |st.sector.app|
  {
    hide AppCheck, AppRecord, Programmed, ProdValid, IsBlank, SameApp;
  }

  /** A wrapping length stays: no operation can get past it to the erase that would remove it. */
  lemma WrapSticks(st: State, op: Op, hal: Hal)
    requires Sound(st) && Callable(op, st) && !NoWrap(st.sector.app)
    ensures FlashStep(st, op, hal).0.sector.app == st.sector.app
  {
    hide AppRecord, Programmed, ProdValid, Blanks, NoWrap, AppCheck, WriteProd, WriteAppFactoryData;
    CheckCases(st.sector.app);
    match op
    case Write => WriteProdApp(st.sector, Sealed(st.ram), hal);
    case Erase => WriteProdApp(st.sector, Blanks(PROD_DATA_LEN), hal);
    case WriteApp(p) =>
      WriteAppApp(st, p, hal);
      AppTaggedNotBlank(st.sector.app, APP_DATA_OFFSET + |p| + 2);
    case _ =>
  }

  /** Operations that consult the factory-data record in flash. */
  predicate Consults(st: State, op: Op, hal: Hal)
    requires Sound(st) && Callable(op, st)
  {
    var s := st.sector;
    match op
    case Write => st.ram[..HW_PARAM_CRC_OFFSET] != s.prod[..HW_PARAM_CRC_OFFSET] && ConsultsFor(s, Sealed(st.ram), hal)
    case Erase => ConsultsFor(s, Blanks(PROD_DATA_LEN), hal)
    case WriteApp(p) => hal.initOk
    case _ => false
  }

  predicate ConsultsFor(s: Sector, rec: seq<Byte>, hal: Hal)
    requires Formed(s) && |rec| == PROD_DATA_LEN
  {
    hal.initOk && s.prod != rec && !IsBlank(s.prod) && (IsBlank(s.rsvd) || hal.rsvdAllocOk)
  }

  /** An operation leaves the sector exactly when it consults a record whose length wraps. */
  lemma OutOfAreaExactly(st: State, op: Op, hal: Hal)
    requires Sound(st) && Callable(op, st)
    ensures FlashStep(st, op, hal).1 == OutOfArea <==> !NoWrap(st.sector.app) && Consults(st, op, hal)
  {
    hide ProdValid, NoWrap, AppCheck, IsBlank, WriteProd, WriteAppFactoryData, ConsultsFor, Sealed;
    CheckCases(st.sector.app);
    match op
    case Write => ProdOutOfArea(st.sector, Sealed(st.ram), hal);
    case Erase => ProdOutOfArea(st.sector, Blanks(PROD_DATA_LEN), hal);
    case WriteApp(p) => AppOutOfArea(st, p, hal);
    case _ => OthersStayInside(st, op, hal);
  }

  lemma OthersStayInside(st: State, op: Op, hal: Hal)
    requires Sound(st) && (op.Edit? ==> |op.ram| == PROD_DATA_LEN)
    requires op.Edit? || op.Read? || op.Reset?
    ensures FlashStep(st, op, hal).1 != OutOfArea
  {
    hide ProdValid, IsBlank;
  }

  /** So does reading the factory data. */
  lemma GetOutOfAreaExactly(st: State)
    requires Sound(st)
    ensures GetAppFactoryData(st) == Outside <==> !NoWrap(st.sector.app)
  {
    hide NoWrap, AppCheck;
    CheckCases(st.sector.app);
  }

  lemma ProdOutOfArea(s: Sector, rec: seq<Byte>, hal: Hal)
    requires Formed(s) && |rec| == PROD_DATA_LEN
    ensures WriteProd(s, rec, hal).1 == OutOfArea <==> AppCheck(s.app) == OutOfArea && ConsultsFor(s, rec, hal)
    ensures WriteProd(s, rec, hal).1 == OutOfArea ==> hal.initOk
  {
    SavedPrefix(s);
    hide AppCheck, Programmed, IsBlank, SavedApp;
  }

  lemma AppOutOfArea(st: State, p: seq<Byte>, hal: Hal)
    requires Sound(st) && APP_DATA_OFFSET + |p| + 2 <= |st.sector.app|
    ensures WriteAppFactoryData(st, p, hal).1 == OutOfArea <==> AppCheck(st.sector.app) == OutOfArea && hal.initOk
  {
    if AppCheck(st.sector.app) == OutOfArea {
      AppTaggedNotBlank(st.sector.app, APP_DATA_OFFSET + |p| + 2);
    }
    hide AppRecord, Programmed, ProdValid, AppCheck, SameApp, IsBlank;
  }

  /** No operation of the run was one of those that leave a wrapping length. */
  ghost predicate NoneLeavesWrap(states: seq<State>, ops: seq<Op>, hals: seq<Hal>)
    requires IsRunUnder(states, ops, hals)
  {
    forall i :: 0 <= i < |ops| ==> !LeavesWrap(states[i], ops[i], hals[i])
  }

  lemma NoneLeavesWrapSplit(states: seq<State>, ops: seq<Op>, hals: seq<Hal>, n: nat)
    requires IsRunUnder(states, ops, hals) && |ops| == n + 1 && IsRunUnder(states[..n + 1], ops[..n], hals[..n])
    requires Sound(states[n]) && Callable(ops[n], states[n])
    ensures NoneLeavesWrap(states, ops, hals)
            <==> NoneLeavesWrap(states[..n + 1], ops[..n], hals[..n]) && !LeavesWrap(states[n], ops[n], hals[n])
  {
    hide LeavesWrap, FlashStep;
    var states', ops', hals' := states[..n + 1], ops[..n], hals[..n];
    assert forall i :: 0 <= i < n ==> states'[i] == states[i] && ops'[i] == ops[i] && hals'[i] == hals[i];
  }

  /**
   * Over every run from flash without a wrapping length, whatever fails on the way: lengths are still
   * in order at the end exactly if no operation of the run was one of those that leave a wrapping one.
   */
  lemma {:induction false} RunWrapsExactly(states: seq<State>, ops: seq<Op>, hals: seq<Hal>)
    requires IsRunUnder(states, ops, hals) && Sound(states[0]) && NoWrap(states[0].sector.app)
    ensures Sound(states[|ops|])
    ensures NoWrap(states[|ops|].sector.app) <==> NoneLeavesWrap(states, ops, hals)
  {
    if ops != [] {
      var n := |ops| - 1;
      RunPrefix(states, ops, hals, n);
      NoneLeavesWrapSplit(states, ops, hals, n);
      assert states[..n + 1][0] == states[0];
      hide IsRunUnder, Sound, NoWrap, FlashStep, Callable, LeavesWrap, NoneLeavesWrap;
      RunWrapsExactly(states[..n + 1], ops[..n], hals[..n]);
      StepWrapsExactly(states[n], ops[n], hals[n]);
      if !NoWrap(states[n].sector.app) {
        WrapSticks(states[n], ops[n], hals[n]);
      }
    }
  }

  /** From a wrapping length no run recovers: the region never changes and reading it always leaves the sector. */
  lemma {:induction false} RunStuck(states: seq<State>, ops: seq<Op>, hals: seq<Hal>)
    requires IsRunUnder(states, ops, hals) && Sound(states[0]) && !NoWrap(states[0].sector.app)
    ensures Sound(states[|ops|]) && states[|ops|].sector.app == states[0].sector.app
    ensures GetAppFactoryData(states[|ops|]) == Outside
  {
    GetOutOfAreaExactly(states[0]);
    if ops != [] {
      var n := |ops| - 1;
      RunPrefix(states, ops, hals, n);
      assert states[..n + 1][0] == states[0];
      hide IsRunUnder, Sound, NoWrap, FlashStep, Callable, GetAppFactoryData;
      RunStuck(states[..n + 1], ops[..n], hals[..n]);
      StepWrapsExactly(states[n], ops[n], hals[n]);
      WrapSticks(states[n], ops[n], hals[n]);
      GetOutOfAreaExactly(states[n + 1]);
    }
  }

  /** One way there: the first factory-data write of a board, torn right behind the identifier. */
  lemma FirstWriteTorn(st: State, p: seq<Byte>)
    requires Sound(st) && APP_DATA_OFFSET + |p| + 2 <= |st.sector.app| && IsBlank(st.sector.app)
    ensures var (st', status) := WriteAppFactoryData(st, p, NO_FAULT.(program := Failed(16)));
            status == Error && Sound(st') && !NoWrap(st'.sector.app)
  {
    hide NoWrap, AppRecord, Programmed, AppCheck, ProdValid;
    var hal := NO_FAULT.(program := Failed(16));
    AppBlankNotTagged(st.sector.app);
    CheckNoWrap(st.sector.app);
    assert IsBlank(st.sector.app[..APP_DATA_OFFSET + |p| + 2]);
    AppWrapsExactly(st, p, hal);
    WriteAppSound(st, p, hal);
  }

  /** Another: an erase torn when it has raised the length field of a record but none of its identifier. */
  lemma LengthErased(st: State, p: seq<Byte>, hal: Hal)
    requires Sound(st) && APP_DATA_OFFSET + |p| + 2 <= |st.sector.app| && NoWrap(st.sector.app)
    requires AppTagged(st.sector.app) && NeedsErase(st, p, hal) && hal.erase.Torn?
    requires var mask := hal.erase.mask.app;
             && |mask| == APP_DATA_OFFSET
             && (forall i :: 0 <= i < 16 ==> mask[i] == 0) && (forall i :: 16 <= i < APP_DATA_OFFSET ==> mask[i] == 0xFF)
    ensures Sound(WriteAppFactoryData(st, p, hal).0) && !NoWrap(WriteAppFactoryData(st, p, hal).0.sector.app)
  {
    hide NoWrap, AppRecord, Programmed, AppCheck, ProdValid, WriteAppFactoryData, NeedsErase;
    var region, mask := st.sector.app, hal.erase.mask.app;
    TaggedByBytes(region);
    BlankDigit();
    forall i | 0 <= i < APP_DATA_OFFSET
      ensures HeaderByte(region, mask, 0, i) == if i < 16 then region[i] else 0xFF
    {
      OrLaws(region[i], mask[i]);
      OrBlank(region[i]);
    }
    AppWrapsExactly(st, p, hal);
    WriteAppSound(st, p, hal);
  }

  lemma OrBlank(a: Byte)
    ensures Or(a, 0xFF) == 0xFF
  {
  }

  lemma CheckNoWrap(app: seq<Byte>)
    requires |app| >= APP_DATA_OFFSET && !AppTagged(app)
    ensures NoWrap(app)
  {
  }

  // ----- what survives a run of failures

  /** Over every run of production writes, erases, reads and edits, whatever fails but the restores of the factory
      data: a valid factory-data record is read back at the end as at the start. */
  lemma {:induction false} FactoryDataSurvives(states: seq<State>, ops: seq<Op>, hals: seq<Hal>)
    requires IsRunUnder(states, ops, hals) && Sound(states[0]) && GetAppFactoryData(states[0]).Payload?
    requires forall i :: 0 <= i < |ops| ==> !ops[i].WriteApp? && hals[i].restore.Done?
    ensures Sound(states[|ops|]) && GetAppFactoryData(states[|ops|]) == GetAppFactoryData(states[0])
  {
    if ops != [] {
      var n := |ops| - 1;
      RunPrefix(states, ops, hals, n);
      assert states[..n + 1][0] == states[0];
      assert forall i :: 0 <= i < n ==> ops[..n][i] == ops[i] && hals[..n][i] == hals[i];
      hide IsRunUnder, Sound, FlashStep, Callable, GetAppFactoryData;
      FactoryDataSurvives(states[..n + 1], ops[..n], hals[..n]);
      StepKeepsFactoryData(states[n], ops[n], hals[n]);
    }
  }

  lemma StepKeepsFactoryData(st: State, op: Op, hal: Hal)
    requires Sound(st) && Callable(op, st) && GetAppFactoryData(st).Payload?
    requires !op.WriteApp? && hal.restore.Done?
    ensures var st' := FlashStep(st, op, hal).0; Sound(st') && GetAppFactoryData(st') == GetAppFactoryData(st)
  {
    hide AppCheck, WriteProd, AppKept, DeclaredLength, AppTagged, Sealed, ProdValid, IsBlank;
    StepWrapsExactly(st, op, hal);
    match op
    case Write => ProdWriteKeepsFactoryData(st.sector, Sealed(st.ram), hal);
    case Erase => ProdWriteKeepsFactoryData(st.sector, Blanks(PROD_DATA_LEN), hal);
    case _ =>
  }

  lemma ProdWriteKeepsFactoryData(s: Sector, rec: seq<Byte>, hal: Hal)
    requires Formed(s) && |rec| == PROD_DATA_LEN && AppCheck(s.app) == Success && hal.restore.Done?
    ensures var s' := WriteProd(s, rec, hal).0;
            && Formed(s') && AppCheck(s'.app) == Success
            && DeclaredLength(s.app) == DeclaredLength(s'.app) <= |s.app| - APP_DATA_OFFSET
            && |s'.app| == |s.app|
            && var end := APP_DATA_OFFSET + DeclaredLength(s.app);
               s'.app[APP_DATA_OFFSET..end] == s.app[APP_DATA_OFFSET..end]
  {
    hide WriteProd, AppKept, DeclaredLength, AppTagged;
    WriteProdFormed(s, rec, hal);
    WriteProdKeepsApp(s, rec, hal);
    KeptStillValid(s, WriteProd(s, rec, hal).0);
  }

  /** Over every run without production writes and erases, whatever fails but the restores of the production data:
      a valid production record stays in flash byte for byte. */
  lemma {:induction false} ProdDataSurvives(states: seq<State>, ops: seq<Op>, hals: seq<Hal>)
    requires IsRunUnder(states, ops, hals) && Sound(states[0]) && ProdValid(states[0].sector.prod)
    requires forall i :: 0 <= i < |ops| ==> !ops[i].Write? && !ops[i].Erase? && hals[i].restore.Done?
    ensures states[|ops|].sector.prod == states[0].sector.prod
  {
    if ops != [] {
      var n := |ops| - 1;
      RunPrefix(states, ops, hals, n);
      assert states[..n + 1][0] == states[0];
      assert forall i :: 0 <= i < n ==> ops[..n][i] == ops[i] && hals[..n][i] == hals[i];
      hide IsRunUnder, ProdValid, WriteAppFactoryData;
      ProdDataSurvives(states[..n + 1], ops[..n], hals[..n]);
      if ops[n].WriteApp? {
        WriteAppKeepsProd(states[n], ops[n].payload, hals[n]);
      }
    }
  }
}

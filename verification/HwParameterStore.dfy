/** HWParameter.c on a flash sector and a RAM buffer, updated in place. */
module HwParameterStore {
  import opened MachineWords
  import opened ByteValue
  import opened Crc16
  import opened NorFlash
  import opened HwParameter

  const PROD_DATA_ADDR := IFR_RSVD_SZ
  const APP_FACTORY_DATA_ADDR := IFR_RSVD_SZ + PROD_DATA_LEN

  /** A flash image cut at the two record addresses. */
  function Cut(image: seq<Byte>): Sector
    requires |image| >= APP_FACTORY_DATA_ADDR
  {
    Sector(image[..PROD_DATA_ADDR], image[PROD_DATA_ADDR..APP_FACTORY_DATA_ADDR], image[APP_FACTORY_DATA_ADDR..])
  }

  /** Programming data at one of the three addresses programs that region and no other. */
  lemma CutProgrammed(before: seq<Byte>, after: seq<Byte>, addr: nat, data: seq<Byte>)
    requires |before| == |after| >= APP_FACTORY_DATA_ADDR
    requires addr == 0 ==> |data| <= IFR_RSVD_SZ
    requires addr == PROD_DATA_ADDR ==> |data| <= PROD_DATA_LEN
    requires addr in {0, PROD_DATA_ADDR, APP_FACTORY_DATA_ADDR} && addr + |data| <= |before|
    requires forall i :: 0 <= i < |before| ==>
      after[i] == if addr <= i < addr + |data| then And(before[i], data[i - addr]) else before[i]
    ensures var s, s' := Cut(before), Cut(after);
            && (addr == 0 ==> s' == s.(rsvd := Programmed(s.rsvd, data)))
            && (addr == PROD_DATA_ADDR ==> s' == s.(prod := Programmed(s.prod, data)))
            && (addr == APP_FACTORY_DATA_ADDR ==> s' == s.(app := Programmed(s.app, data)))
  {
    hide And;
  }

  /** Likewise for raised bits. */
  lemma CutRaised(before: seq<Byte>, after: seq<Byte>, addr: nat, length: nat, mask: seq<Byte>)
    requires |before| == |after| >= APP_FACTORY_DATA_ADDR
    requires addr == 0 ==> length == IFR_RSVD_SZ
    requires addr == PROD_DATA_ADDR ==> length == PROD_DATA_LEN
    requires addr == APP_FACTORY_DATA_ADDR ==> length == |before| - addr
    requires addr in {0, PROD_DATA_ADDR, APP_FACTORY_DATA_ADDR}
    requires forall i :: 0 <= i < |before| ==>
      after[i] == if addr <= i < addr + length && i - addr < |mask| then Or(before[i], mask[i - addr]) else before[i]
    ensures var s, s' := Cut(before), Cut(after);
            && (addr == 0 ==> s' == s.(rsvd := Raised(s.rsvd, mask)))
            && (addr == PROD_DATA_ADDR ==> s' == s.(prod := Raised(s.prod, mask)))
            && (addr == APP_FACTORY_DATA_ADDR ==> s' == s.(app := Raised(s.app, mask)))
  {
    hide Or;
  }

  lemma CutSlices(image: seq<Byte>, lo: nat, hi: nat)
    requires |image| >= APP_FACTORY_DATA_ADDR && lo <= hi
    ensures hi <= |image| - APP_FACTORY_DATA_ADDR ==>
      Cut(image).app[lo..hi] == image[APP_FACTORY_DATA_ADDR + lo..APP_FACTORY_DATA_ADDR + hi]
    ensures hi <= PROD_DATA_LEN ==> Cut(image).prod[lo..hi] == image[PROD_DATA_ADDR + lo..PROD_DATA_ADDR + hi]
  {
    if hi <= |image| - APP_FACTORY_DATA_ADDR {
      SliceOfSlice(image, APP_FACTORY_DATA_ADDR, |image|, lo, hi);
    }
    if hi <= PROD_DATA_LEN {
      SliceOfSlice(image, PROD_DATA_ADDR, APP_FACTORY_DATA_ADDR, lo, hi);
    }
  }

  lemma CutHeader(image: seq<Byte>)
    requires |image| >= APP_FACTORY_DATA_ADDR + APP_DATA_OFFSET
    ensures var app, region := APP_FACTORY_DATA_ADDR, Cut(image).app;
            && DeclaredLength(region) == FromLe32(image[app + 16..app + APP_DATA_OFFSET])
            && (AppTagged(region) <==>
                 image[app..app + PROD_DATA_ID_STRING_SZ] == APP_FACTORY_DATA_IDENTIFIER[..PROD_DATA_ID_STRING_SZ])
  {
    hide FromLe32;
    CutSlices(image, 16, APP_DATA_OFFSET);
    CutSlices(image, 0, PROD_DATA_ID_STRING_SZ);
    assert Cut(image).app[0..PROD_DATA_ID_STRING_SZ] == Cut(image).app[..PROD_DATA_ID_STRING_SZ];
  }

  lemma ErasedWhole(s: Sector)
    ensures AfterErase(s, Complete) == Erased(s)
  {
  }

  lemma SavedPrefixes(s: Sector)
    requires Formed(s)
    ensures |SavedRsvd(s)| <= |s.rsvd| && |SavedApp(s)| <= |s.app| && |SavedProd(s)| <= |s.prod|
  {
  }

  lemma RestoreNothing(s: Sector, st: Status, hal: Hal)
    ensures Restore(s, [], [], st, hal) == (s, st)
  {
    ProgramNothing(s.rsvd);
    ProgramNothing(s.app);
  }

  function Overwritten(s: seq<Byte>, at: nat, data: seq<Byte>): seq<Byte>
    requires at + |data| <= |s|
  {
    s[..at] + data + s[at + |data|..]
  }

  lemma Assembled(before: seq<Byte>, after: seq<Byte>, header: seq<Byte>, payload: seq<Byte>, tail: seq<Byte>)
    requires var n := |header| + |payload|;
             && n + |tail| <= |before|
             && before[|header|..n] == payload && before[n..n + |tail|] == tail
             && after == Overwritten(before, 0, header)
    ensures after[..|header| + |payload| + |tail|] == header + payload + tail
  {
    var h, n := |header|, |header| + |payload|;
    assert after[..h] == header;
    assert after[h..n] == before[h..n] && after[n..n + |tail|] == before[n..n + |tail|];
  }

  class Store {
    const flash: array<Byte>
    const gHardwareParameters: array<Byte>
    /** gHardwareParameters_p points at gHardwareParameters; it is null otherwise. */
    var loaded: bool

    ghost predicate Valid() {
      && flash != gHardwareParameters
      && APP_FACTORY_DATA_ADDR + APP_FACTORY_DATA_MAX_LEN <= flash.Length < UINT32_RANGE
      && gHardwareParameters.Length == PROD_DATA_LEN
    }

    ghost function View(): State
      reads this, flash, gHardwareParameters
      requires flash.Length >= APP_FACTORY_DATA_ADDR
    {
      State(Cut(flash[..]), gHardwareParameters[..], loaded)
    }

    constructor (sectorSize: nat)
      requires APP_FACTORY_DATA_ADDR + APP_FACTORY_DATA_MAX_LEN <= sectorSize < UINT32_RANGE
      ensures Valid() && fresh(flash) && fresh(gHardwareParameters)
      ensures View() == State(Sector(Blanks(IFR_RSVD_SZ), Blanks(PROD_DATA_LEN),
                                     Blanks(sectorSize - APP_FACTORY_DATA_ADDR)), Blanks(PROD_DATA_LEN), false)
    {
      flash := new Byte[sectorSize](_ => 0xFF);
      gHardwareParameters := new Byte[PROD_DATA_LEN](_ => 0xFF);
      loaded := false;
    }

    // ----- the flash driver

    method HalFlashEraseSector(erasure: Erasure)
      requires flash.Length >= APP_FACTORY_DATA_ADDR
      modifies flash
      ensures Cut(flash[..]) == AfterErase(old(Cut(flash[..])), erasure)
    {
      match erasure
      case Complete =>
        forall i | 0 <= i < flash.Length {
          flash[i] := 0xFF;
        }
      case Torn(mask) =>
        RaiseBits(0, IFR_RSVD_SZ, mask.rsvd);
        RaiseBits(PROD_DATA_ADDR, PROD_DATA_LEN, mask.prod);
        RaiseBits(APP_FACTORY_DATA_ADDR, flash.Length - APP_FACTORY_DATA_ADDR, mask.app);
    }

    /** Raises the bits of the mask in the region at addr. */
    method RaiseBits(addr: nat, length: nat, mask: seq<Byte>)
      requires flash.Length >= APP_FACTORY_DATA_ADDR
      requires addr == 0 ==> length == IFR_RSVD_SZ
      requires addr == PROD_DATA_ADDR ==> length == PROD_DATA_LEN
      requires addr == APP_FACTORY_DATA_ADDR ==> length == flash.Length - addr
      requires addr in {0, PROD_DATA_ADDR, APP_FACTORY_DATA_ADDR}
      modifies flash
      ensures var s, s' := old(Cut(flash[..])), Cut(flash[..]);
              && (addr == 0 ==> s' == s.(rsvd := Raised(s.rsvd, mask)))
              && (addr == PROD_DATA_ADDR ==> s' == s.(prod := Raised(s.prod, mask)))
              && (addr == APP_FACTORY_DATA_ADDR ==> s' == s.(app := Raised(s.app, mask)))
    {
      ghost var before := flash[..];
      forall i | addr <= i < addr + length {
        flash[i] := if i - addr < |mask| then flash[i] | mask[i - addr] else flash[i];
      }
      CutRaised(before, flash[..], addr, length, mask);
    }

    method HalFlashProgram(addr: nat, data: seq<Byte>, outcome: Outcome)
      requires flash.Length >= APP_FACTORY_DATA_ADDR
      requires addr == 0 ==> |data| <= IFR_RSVD_SZ
      requires addr == PROD_DATA_ADDR ==> |data| <= PROD_DATA_LEN
      requires addr in {0, PROD_DATA_ADDR, APP_FACTORY_DATA_ADDR} && addr + |data| <= flash.Length
      modifies flash
      ensures var s, s', r := old(Cut(flash[..])), Cut(flash[..]), Reached(data, outcome);
              && (addr == 0 ==> s' == s.(rsvd := Programmed(s.rsvd, r)))
              && (addr == PROD_DATA_ADDR ==> s' == s.(prod := Programmed(s.prod, r)))
              && (addr == APP_FACTORY_DATA_ADDR ==> s' == s.(app := Programmed(s.app, r)))
    {
      var reached := Reached(data, outcome);
      ghost var before := flash[..];
      forall i | addr <= i < addr + |reached| {
        flash[i] := flash[i] & reached[i - addr];
      }
      CutProgrammed(before, flash[..], addr, reached);
    }

    // ----- the checks

    method NvExtendedFactoryDataValid() returns (st: Status, totalLength: nat)
      requires Valid()
      ensures st == AppCheck(View().sector.app)
      ensures totalLength == if st == Success then AppTotal(View().sector.app) else 0
      ensures totalLength <= APP_FACTORY_DATA_MAX_LEN
    {
      hide FromLe32, Crc, Stored, AppTagged, DeclaredLength;
      var app := APP_FACTORY_DATA_ADDR;
      totalLength := 0;
      ghost var region := View().sector.app;
      CutHeader(flash[..]);
      var len := FromLe32(flash[app + 16..app + APP_DATA_OFFSET]);
      if flash[app..app + PROD_DATA_ID_STRING_SZ] != APP_FACTORY_DATA_IDENTIFIER[..PROD_DATA_ID_STRING_SZ] {
        return Error, 0;
      }
      var total := (len + APP_DATA_OFFSET + 2) % UINT32_RANGE;
      if len == 0 || total > APP_FACTORY_DATA_MAX_LEN {
        return LenError, 0;
      }
      if app + APP_DATA_OFFSET + len + 2 > flash.Length {
        return OutOfArea, 0;
      }
      var matches := AppCrcMatches(len);
      if !matches {
        return CrcError, 0;
      }
      return Success, total;
    }

    method AppCrcMatches(len: nat) returns (matches: bool)
      requires Valid() && APP_FACTORY_DATA_ADDR + APP_DATA_OFFSET + len + 2 <= flash.Length
      ensures var region, n := View().sector.app, APP_DATA_OFFSET + len;
              matches == (Crc(region[APP_DATA_OFFSET..n]) == Stored(region[n], region[n + 1]))
    {
      hide Crc, Stored;
      var app := APP_FACTORY_DATA_ADDR;
      var flashCrc := Stored(flash[app + APP_DATA_OFFSET + len], flash[app + APP_DATA_OFFSET + len + 1]);
      CutSlices(flash[..], APP_DATA_OFFSET, APP_DATA_OFFSET + len);
      var computedCrc := ComputeCrc(flash, app + APP_DATA_OFFSET, len);
      matches := computedCrc == flashCrc;
    }

    method ProdDataValid() returns (valid: bool)
      requires Valid()
      ensures valid == ProdValid(View().sector.prod)
    {
      var prod := PROD_DATA_ADDR;
      ghost var region := View().sector.prod;
      assert flash[prod..prod + PROD_DATA_ID_STRING_SZ] == region[..PROD_DATA_ID_STRING_SZ];
      CutSlices(flash[..], PROD_DATA_ID_STRING_SZ, HW_PARAM_CRC_OFFSET);
      if flash[prod..prod + PROD_DATA_ID_STRING_SZ] != PROD_DATA_IDENTIFIER {
        return false;
      }
      var crc := ComputeCrc(flash, prod + PROD_DATA_ID_STRING_SZ, HW_PARAM_CRC_OFFSET - PROD_DATA_ID_STRING_SZ);
      valid := crc == Stored(flash[prod + HW_PARAM_CRC_OFFSET], flash[prod + HW_PARAM_CRC_OFFSET + 1]);
    }

    // ----- the operations

    /** The tail of NvWriteProdData: whatever was put aside is programmed back, success or not. */
    method RestoreSaved(saveRsvdArea: seq<Byte>, saveAppFactoryData: seq<Byte>, status: Status, hal: Hal)
      returns (st: Status)
      requires flash.Length >= APP_FACTORY_DATA_ADDR
      requires |saveRsvdArea| <= IFR_RSVD_SZ && APP_FACTORY_DATA_ADDR + |saveAppFactoryData| <= flash.Length
      modifies flash
      ensures (Cut(flash[..]), st)
           == Restore(old(Cut(flash[..])), saveRsvdArea, saveAppFactoryData, status, hal)
    {
      st := status;
      ProgramNothing(Cut(flash[..]).rsvd);
      ProgramNothing(Cut(flash[..]).app);
      if saveRsvdArea != [] {
        HalFlashProgram(0, saveRsvdArea, hal.restoreRsvd);
        if hal.restoreRsvd.Failed? {
          st := Error;
        }
      }
      if saveAppFactoryData != [] {
        HalFlashProgram(APP_FACTORY_DATA_ADDR, saveAppFactoryData, hal.restore);
        if hal.restore.Failed? {
          st := Error;
        }
      }
    }

    /** What NvWriteProdData puts aside before the erase; Success when the erase may go ahead. */
    method SaveNeighbours(hal: Hal) returns (st: Status, saveRsvdArea: seq<Byte>, saveAppFactoryData: seq<Byte>)
      requires Valid()
      ensures var s, rsvdFails := View().sector, SavedRsvd(View().sector) != [] && !hal.rsvdAllocOk;
              && st == (if rsvdFails then Error
                        else if AppCheck(s.app) == OutOfArea then OutOfArea
                        else if SavedApp(s) != [] && !hal.appAllocOk then Error
                        else Success)
              && saveRsvdArea == (if rsvdFails then [] else SavedRsvd(s))
              && saveAppFactoryData == (if st == Success then SavedApp(s) else [])
    {
      hide AppCheck, AppTagged, DeclaredLength, IsBlank;
      ghost var s := View().sector;
      assert flash[..IFR_RSVD_SZ] == s.rsvd && s.rsvd != [];
      CutSlices(flash[..], 0, APP_FACTORY_DATA_MAX_LEN);
      if AppCheck(s.app) == OutOfArea {
        OutOfAreaNotBlank(s.app);
      }
      st, saveRsvdArea, saveAppFactoryData := Success, [], [];
      if !IsBlank(flash[..IFR_RSVD_SZ]) {
        if !hal.rsvdAllocOk {
          return Error, [], [];
        }
        saveRsvdArea := flash[..IFR_RSVD_SZ];
      }
      if !IsBlank(flash[APP_FACTORY_DATA_ADDR..APP_FACTORY_DATA_ADDR + APP_FACTORY_DATA_MAX_LEN]) {
        var check, totalLength := NvExtendedFactoryDataValid();
        if check == OutOfArea {
          return OutOfArea, saveRsvdArea, [];
        }
        if check == Success {
          assert SavedApp(s) == s.app[..totalLength];
          if !hal.appAllocOk {
            return Error, saveRsvdArea, [];
          }
          saveAppFactoryData := flash[APP_FACTORY_DATA_ADDR..APP_FACTORY_DATA_ADDR + totalLength];
          CutSlices(flash[..], 0, totalLength);
        }
      }
    }

    method NvWriteProdData(hal: Hal) returns (st: Status)
      requires Valid()
      modifies flash
      ensures Valid()
      ensures (Cut(flash[..]), st) == WriteProd(old(View().sector), gHardwareParameters[..], hal)
    {
      hide AppCheck, NoWrap, Programmed, AppTagged, DeclaredLength, IsBlank, Blanks, Restore, SavedApp, SavedRsvd,
           AfterErase;
      ghost var s := View().sector;
      SavedPrefixes(s);
      ErasedWhole(s);
      assert flash[PROD_DATA_ADDR..APP_FACTORY_DATA_ADDR] == s.prod;
      if !hal.initOk {
        return Error;
      }
      if flash[PROD_DATA_ADDR..APP_FACTORY_DATA_ADDR] == gHardwareParameters[..] {
        return Success;
      }
      var saveRsvdArea, saveAppFactoryData, proceed := [], [], true;
      st := Error;
      if !IsBlank(flash[PROD_DATA_ADDR..APP_FACTORY_DATA_ADDR]) {
        var saved;
        saved, saveRsvdArea, saveAppFactoryData := SaveNeighbours(hal);
        if saved == OutOfArea {
          return OutOfArea;
        }
        proceed := saved == Success;
        if proceed {
          HalFlashEraseSector(hal.erase);
          proceed := hal.erase.Complete?;
        }
      }
      if proceed {
        HalFlashProgram(PROD_DATA_ADDR, gHardwareParameters[..], hal.program);
        if hal.program.Done? {
          st := Success;
        }
      }
      RestoreNothing(Cut(flash[..]), st, hal);
      st := RestoreSaved(saveRsvdArea, saveAppFactoryData, st, hal);
    }

    /** PROD_DATA and CRC are sealed into the RAM copy before it is programmed. */
    method NV_WriteHWParameters(hal: Hal) returns (status: Status)
      requires Valid() && loaded
      modifies flash, gHardwareParameters
      ensures Valid() && loaded
      ensures (View(), status) == WriteHwParameters(old(View()), hal)
    {
      hide AppCheck, NoWrap, Programmed, AppTagged, DeclaredLength, IsBlank, Blanks, Restore, WriteProd;
      ghost var st := View();
      if !hal.initOk {
        return Error;
      }
      CutSlices(flash[..], 0, HW_PARAM_CRC_OFFSET);
      assert gHardwareParameters[..HW_PARAM_CRC_OFFSET] == st.ram[..HW_PARAM_CRC_OFFSET];
      if gHardwareParameters[..HW_PARAM_CRC_OFFSET] == flash[PROD_DATA_ADDR..PROD_DATA_ADDR + HW_PARAM_CRC_OFFSET] {
        return Success;
      }
      SealRam();
      status := NvWriteProdData(hal);
    }

    method SealRam()
      requires Valid()
      modifies gHardwareParameters
      ensures gHardwareParameters[..] == Sealed(old(gHardwareParameters[..]))
      ensures flash[..] == old(flash[..])
    {
      ghost var ram := gHardwareParameters[..];
      ghost var content := ram[PROD_DATA_ID_STRING_SZ..HW_PARAM_CRC_OFFSET];
      assert gHardwareParameters[PROD_DATA_ID_STRING_SZ..HW_PARAM_CRC_OFFSET] == content;
      var crc := ComputeCrc(gHardwareParameters, PROD_DATA_ID_STRING_SZ, HW_PARAM_CRC_OFFSET - PROD_DATA_ID_STRING_SZ);
      gHardwareParameters[HW_PARAM_CRC_OFFSET] := Low(crc);
      gHardwareParameters[HW_PARAM_CRC_OFFSET + 1] := High(crc);
      forall i | 0 <= i < PROD_DATA_ID_STRING_SZ {
        gHardwareParameters[i] := PROD_DATA_IDENTIFIER[i];
      }
      hide Crc, Low, High;
      assert gHardwareParameters[..PROD_DATA_ID_STRING_SZ] == PROD_DATA_IDENTIFIER;
      assert gHardwareParameters[PROD_DATA_ID_STRING_SZ..HW_PARAM_CRC_OFFSET] == content;
      assert gHardwareParameters[HW_PARAM_CRC_OFFSET..] == CrcField(crc);
    }

    method ClearRam()
      requires Valid()
      modifies gHardwareParameters
      ensures gHardwareParameters[..] == Blanks(PROD_DATA_LEN)
      ensures flash[..] == old(flash[..])
    {
      forall i | 0 <= i < PROD_DATA_LEN {
        gHardwareParameters[i] := 0xFF;
      }
    }

    method HWParametersReset()
      requires Valid()
      modifies this, gHardwareParameters
      ensures Valid() && View() == Reset(old(View()))
    {
      loaded := false;
      ClearRam();
    }

    /** The status tells only whether the call returns. */
    method HWParametersErase(hal: Hal) returns (status: Status)
      requires Valid()
      modifies this, flash, gHardwareParameters
      ensures Valid() && (View(), status) == EraseHwParameters(old(View()), hal)
    {
      hide AppCheck, DeclaredLength, AppTagged, NoWrap, WriteProd, Blanks;
      ClearRam();
      loaded := true;
      var written := NvWriteProdData(hal);
      status := if written == OutOfArea then OutOfArea else Success;
    }

    /** The out-pointer is null exactly when the store is not loaded afterwards. */
    method NV_ReadHWParameters(hal: Hal) returns (status: Status)
      requires Valid()
      modifies this, gHardwareParameters
      ensures Valid() && (View(), status) == ReadHwParameters(old(View()), hal)
    {
      if loaded || !hal.initOk {
        return Success;
      }
      hide AppCheck, DeclaredLength, AppTagged, NoWrap, ProdValid, Blanks;
      CutSlices(flash[..], 0, PROD_DATA_LEN);
      if IsBlank(flash[PROD_DATA_ADDR..APP_FACTORY_DATA_ADDR]) {
        ClearRam();
        loaded := true;
        return BlankFlash;
      }
      var valid := ProdDataValid();
      if valid {
        CopyProdData();
        return Success;
      }
      loaded := true;
      status := Error;
    }

    method CopyProdData()
      requires Valid()
      modifies this, gHardwareParameters
      ensures loaded && gHardwareParameters[..] == Cut(flash[..]).prod
      ensures flash[..] == old(flash[..])
    {
      forall i | 0 <= i < PROD_DATA_LEN {
        gHardwareParameters[i] := flash[PROD_DATA_ADDR + i];
      }
      loaded := true;
    }

    method Nv_GetAppFactoryData() returns (reading: Reading)
      requires Valid()
      ensures reading == GetAppFactoryData(View())
    {
      hide AppCheck, DeclaredLength, AppTagged, NoWrap;
      var st, totalLength := NvExtendedFactoryDataValid();
      if st == Success {
        CutSlices(flash[..], APP_DATA_OFFSET, totalLength - 2);
        reading := Payload(flash[APP_FACTORY_DATA_ADDR + APP_DATA_OFFSET..APP_FACTORY_DATA_ADDR + totalLength - 2]);
      } else {
        reading := if st == OutOfArea then Outside else Null;
      }
    }

    /** The caller's buffer holds the payload from APP_DATA_OFFSET on; identifier, length and CRC are filled in. */
    method Nv_WriteAppFactoryData(srcData: array<Byte>, extendedDataLen: nat, hal: Hal) returns (st: Status)
      requires Valid() && srcData != flash && srcData != gHardwareParameters
      requires APP_DATA_OFFSET + extendedDataLen + 2 <= srcData.Length
      requires APP_FACTORY_DATA_ADDR + APP_DATA_OFFSET + extendedDataLen + 2 <= flash.Length
      modifies this, flash, gHardwareParameters, srcData
      ensures Valid()
      ensures (View(), st)
           == WriteAppFactoryData(old(View()), old(srcData[APP_DATA_OFFSET..APP_DATA_OFFSET + extendedDataLen]), hal)
    {
      hide AppCheck, NoWrap, Programmed, AppTagged, DeclaredLength, IsBlank, Blanks, ProdValid, SameApp, AppRecord,
           AfterErase, SavedProd;
      var app, payloadEnd := APP_FACTORY_DATA_ADDR, APP_DATA_OFFSET + extendedDataLen;
      ghost var s := View().sector;
      var prodData := [];
      if !hal.initOk {
        return Error;
      }
      CutSlices(flash[..], 0, payloadEnd + 2);
      if !IsBlank(flash[app..app + payloadEnd + 2]) {
        var check, same := AlreadyStored(srcData, extendedDataLen);
        if check == OutOfArea {
          return OutOfArea;
        }
        if same {
          return Success;
        }
        prodData := SaveProdData();
        HalFlashEraseSector(hal.erase);
        if hal.erase.Torn? {
          st := RestoreProd(prodData, Error, hal);
          return;
        }
      }
      SealAppData(srcData, extendedDataLen);
      HalFlashProgram(app, srcData[..payloadEnd + 2], hal.program);
      st := if hal.program.Done? then Success else Error;
      ProgramNothing(Cut(flash[..]).prod);
      st := RestoreProd(prodData, st, hal);
    }

    /** A valid production record is put aside, in the RAM copy. */
    method SaveProdData() returns (prodData: seq<Byte>)
      requires Valid()
      modifies this, gHardwareParameters
      ensures prodData == SavedProd(View().sector) && flash[..] == old(flash[..])
      ensures gHardwareParameters[..] == if prodData == [] then old(gHardwareParameters[..]) else prodData
      ensures loaded == (old(loaded) || prodData != [])
    {
      hide ProdValid, IsBlank;
      ghost var s := View().sector;
      prodData := [];
      CutSlices(flash[..], 0, PROD_DATA_LEN);
      assert s.prod[0..PROD_DATA_LEN] == s.prod;
      var valid := ProdDataValid();
      if !IsBlank(flash[PROD_DATA_ADDR..APP_FACTORY_DATA_ADDR]) && valid {
        CopyProdData();
        prodData := gHardwareParameters[..];
      }
    }

    method AlreadyStored(srcData: array<Byte>, extendedDataLen: nat) returns (check: Status, same: bool)
      requires Valid() && APP_DATA_OFFSET + extendedDataLen + 2 <= srcData.Length
      requires APP_FACTORY_DATA_ADDR + APP_DATA_OFFSET + extendedDataLen + 2 <= flash.Length
      ensures check == AppCheck(View().sector.app)
      ensures same == SameApp(View().sector, srcData[APP_DATA_OFFSET..APP_DATA_OFFSET + extendedDataLen])
    {
      hide AppCheck, NoWrap, AppTagged, DeclaredLength;
      var app, payloadEnd := APP_FACTORY_DATA_ADDR, APP_DATA_OFFSET + extendedDataLen;
      CutSlices(flash[..], APP_DATA_OFFSET, payloadEnd);
      var totalLength;
      check, totalLength := NvExtendedFactoryDataValid();
      same := && check == Success && totalLength == payloadEnd + 2
              && flash[app + APP_DATA_OFFSET..app + payloadEnd] == srcData[APP_DATA_OFFSET..payloadEnd];
    }

    method SealAppData(srcData: array<Byte>, extendedDataLen: nat)
      requires APP_DATA_OFFSET + extendedDataLen + 2 <= srcData.Length && extendedDataLen < UINT32_RANGE
      modifies srcData
      ensures srcData[..APP_DATA_OFFSET + extendedDataLen + 2]
           == AppRecord(old(srcData[APP_DATA_OFFSET..APP_DATA_OFFSET + extendedDataLen]))
    {
      ghost var payload := srcData[APP_DATA_OFFSET..APP_DATA_OFFSET + extendedDataLen];
      var crc := ComputeCrc(srcData, APP_DATA_OFFSET, extendedDataLen);
      var header := APP_FACTORY_DATA_IDENTIFIER + Le32(extendedDataLen);
      hide Le32, Crc, Low, High;
      Put(srcData, APP_DATA_OFFSET + extendedDataLen, CrcField(crc));
      label L:
      Put(srcData, 0, header);
      Assembled(old@L(srcData[..]), srcData[..], header, payload, CrcField(crc));
    }

    static method Put(dst: array<Byte>, at: nat, data: seq<Byte>)
      requires at + |data| <= dst.Length
      modifies dst
      ensures dst[..] == Overwritten(old(dst[..]), at, data)
    {
      forall i | 0 <= i < |data| {
        dst[at + i] := data[i];
      }
    }

    /** The tail of Nv_WriteAppFactoryData. */
    method RestoreProd(prodData: seq<Byte>, status: Status, hal: Hal) returns (st: Status)
      requires Valid() && |prodData| <= PROD_DATA_LEN
      modifies flash
      ensures var s := old(Cut(flash[..]));
              Cut(flash[..]) == s.(prod := Programmed(s.prod, Reached(prodData, hal.restore)))
      ensures st == if prodData == [] then status else Worse(status, hal.restore)
    {
      st := status;
      ProgramNothing(Cut(flash[..]).prod);
      if prodData != [] {
        HalFlashProgram(PROD_DATA_ADDR, prodData, hal.restore);
        if hal.restore.Failed? {
          st := Error;
        }
      }
    }
  }
}

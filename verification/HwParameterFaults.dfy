/**
 * What the two records are worth when something goes wrong: failing driver calls, failing
 * allocations, and corrupted bytes. Flash may hold anything to begin with.
 */
module HwParameterFaults {
  import opened MachineWords
  import opened ByteValue
  import opened Crc16
  import opened Crc16Detection
  import opened NorFlash
  import opened HwParameter
  import opened TwoSlotStore
  import opened HwParameterRead

  // ----- failing driver calls

  /** The factory-data record of s is in s', byte for byte, and behind it bits were at most raised. */
  ghost predicate AppKept(s: Sector, s': Sector)
    requires Formed(s) && Formed(s')
  {
    AppCheck(s.app) == Success ==> var n := AppTotal(s.app);
                                   n <= |s.app| && Gained(s.app, s'.app) && s'.app[..n] == s.app[..n]
  }

  lemma WriteProdFormed(s: Sector, rec: seq<Byte>, hal: Hal)
    requires Formed(s) && |rec| == PROD_DATA_LEN
    ensures var s' := WriteProd(s, rec, hal).0; Formed(s') && |s'.app| == |s.app|
  {
    hide AppCheck, NoWrap, Programmed;
  }

  /** Programming again what is there already changes nothing, however the call ends. */
  lemma RestoreUnerased(s: Sector, rsvd: seq<Byte>, app: seq<Byte>, st: Status, hal: Hal)
    requires rsvd <= s.rsvd && app <= s.app
    ensures Restore(s, rsvd, app, st, hal).0 == s
    ensures st == Error ==> Restore(s, rsvd, app, st, hal).1 == Error
  {
    ProgramAgain(s.rsvd, Reached(rsvd, hal.restoreRsvd));
    ProgramAgain(s.app, Reached(app, hal.restore));
  }

  /**
   * A failed initialisation or allocation, or an erase that fails without touching a bit, leaves the whole sector as
   * it was and is reported, unless a wrapping record length ends the call before; that leaves the sector too.
   */
  lemma WriteProdUntouched(s: Sector, rec: seq<Byte>, hal: Hal)
    requires Formed(s) && |rec| == PROD_DATA_LEN
    requires s.prod != rec && !IsBlank(s.prod)
    requires || !hal.initOk || (hal.erase.Torn? && AfterErase(s, hal.erase) == s)
             || (!hal.rsvdAllocOk && !IsBlank(s.rsvd))
             || (!hal.appAllocOk && AppCheck(s.app) == Success)
             || !NoWrap(s.app)
    ensures var wrapRead := hal.initOk && (hal.rsvdAllocOk || IsBlank(s.rsvd)) && !NoWrap(s.app);
            WriteProd(s, rec, hal) == (s, if wrapRead then OutOfArea else Error)
  {
    CheckCases(s.app);
    SavedPrefix(s);
    RestoreUnerased(s, SavedRsvd(s), SavedApp(s), Error, hal);
    RestoreUnerased(s, SavedRsvd(s), [], Error, hal);
    hide AppCheck, NoWrap, Programmed, SavedApp, IsBlank, Restore, AfterErase;
  }

  /** A production write that gets as far as the erase. */
  predicate ReachesErase(s: Sector, rec: seq<Byte>, hal: Hal)
    requires Formed(s) && |rec| == PROD_DATA_LEN
  {
    && hal.initOk && s.prod != rec && !IsBlank(s.prod) && (IsBlank(s.rsvd) || hal.rsvdAllocOk)
    && AppCheck(s.app) != OutOfArea && (AppCheck(s.app) == Success ==> hal.appAllocOk)
  }

  /** A region after a torn erase and a restore that came as far as the first k bytes of what was saved. */
  function Patched(region: seq<Byte>, mask: seq<Byte>, saved: seq<Byte>): seq<Byte>
    requires |saved| <= |region|
  {
    saved + Raised(region, mask)[|saved|..]
  }

  /** The whole outcome of an erase that fails halfway: what was saved comes back, elsewhere the raised bits stay. */
  lemma TornErase(s: Sector, rec: seq<Byte>, hal: Hal)
    requires Formed(s) && |rec| == PROD_DATA_LEN && ReachesErase(s, rec, hal) && hal.erase.Torn?
    ensures |SavedApp(s)| <= |s.app|
    ensures var m := hal.erase.mask;
            WriteProd(s, rec, hal)
            == (Sector(Patched(s.rsvd, m.rsvd, Reached(SavedRsvd(s), hal.restoreRsvd)), Raised(s.prod, m.prod),
                       Patched(s.app, m.app, Reached(SavedApp(s), hal.restore))), Error)
  {
    var m := hal.erase.mask;
    SavedPrefix(s);
    ProgramRaised(s.rsvd, m.rsvd, Reached(SavedRsvd(s), hal.restoreRsvd));
    ProgramRaised(s.app, m.app, Reached(SavedApp(s), hal.restore));
    hide AppCheck, Programmed, SavedApp, SavedRsvd, IsBlank, Raised;
  }

  lemma PatchedGains(region: seq<Byte>, mask: seq<Byte>, saved: seq<Byte>)
    requires saved <= region
    ensures Gained(region, Patched(region, mask, saved)) && saved <= Patched(region, mask, saved)
    ensures saved == region || IsBlank(region) ==> Patched(region, mask, saved) == region
  {
    RaisedGains(region, mask);
    var p := Patched(region, mask, saved);
    forall i | 0 <= i < |region| ensures And(region[i], p[i]) == region[i] {
      AndLaws(region[i]);
    }
  }

  /** Whatever else fails, a torn erase loses no bit of the sector, and nothing at all of what is restored. */
  lemma TornEraseGains(s: Sector, rec: seq<Byte>, hal: Hal)
    requires Formed(s) && |rec| == PROD_DATA_LEN && ReachesErase(s, rec, hal) && hal.erase.Torn?
    ensures var s' := WriteProd(s, rec, hal).0;
            && Gained(s.rsvd, s'.rsvd) && Gained(s.prod, s'.prod) && Gained(s.app, s'.app)
            && Reached(SavedApp(s), hal.restore) <= s'.app
            && (hal.restoreRsvd.Done? ==> s'.rsvd == s.rsvd)
  {
    var m := hal.erase.mask;
    TornErase(s, rec, hal);
    SavedPrefix(s);
    PatchedGains(s.rsvd, m.rsvd, Reached(SavedRsvd(s), hal.restoreRsvd));
    PatchedGains(s.app, m.app, Reached(SavedApp(s), hal.restore));
    RaisedGains(s.prod, m.prod);
    hide AppCheck, WriteProd, SavedApp, Raised, Gained, Patched;
  }

  lemma SavedIsKept(s: Sector, s': Sector)
    requires Formed(s) && Formed(s')
    requires SavedApp(s) <= s.app && SavedApp(s) <= s'.app && Gained(s.app, s'.app)
    ensures AppKept(s, s')
  {
    SavedPrefix(s);
    hide AppCheck, NoWrap, SavedApp, DeclaredLength, Gained;
    assert s'.app[..|SavedApp(s)|] == SavedApp(s);
  }

  lemma BlankedGains(region: seq<Byte>, saved: seq<Byte>)
    requires saved <= region
    ensures Gained(region, saved + Blanks(|region| - |saved|))
  {
    forall i | 0 <= i < |region| ensures And(region[i], (saved + Blanks(|region| - |saved|))[i]) == region[i] {
      AndLaws(region[i]);
    }
  }

  /**
   * As long as its own restore goes through, the factory-data record survives a production-data
   * write, whatever else fails; so does the reserved area.
   */
  lemma WriteProdKeepsApp(s: Sector, rec: seq<Byte>, hal: Hal)
    requires Formed(s) && |rec| == PROD_DATA_LEN
    ensures var s' := WriteProd(s, rec, hal).0;
            && Formed(s')
            && (hal.restore.Done? ==> AppKept(s, s'))
            && (hal.restoreRsvd.Done? ==> s'.rsvd == s.rsvd)
  {
    hide AppCheck, NoWrap, Programmed, SavedApp, IsBlank, Blanks, Restore, AppKept, Raised, Gained;
    SavedPrefix(s);
    WriteProdFormed(s, rec, hal);
    var s' := WriteProd(s, rec, hal).0;
    if !ReachesErase(s, rec, hal) {
      NoEraseKeeps(s, rec, hal);
      UntouchedIsKept(s, s');
    } else if hal.erase.Torn? {
      TornEraseGains(s, rec, hal);
      if hal.restore.Done? {
        SavedIsKept(s, s');
      }
    } else {
      CompleteErase(s, rec, hal);
      BlankedGains(s.app, SavedApp(s));
      if hal.restore.Done? {
        SavedIsKept(s, s');
      }
    }
  }

  lemma CompleteErase(s: Sector, rec: seq<Byte>, hal: Hal)
    requires Formed(s) && |rec| == PROD_DATA_LEN && ReachesErase(s, rec, hal) && hal.erase.Complete?
    ensures |SavedApp(s)| <= |s.app|
    ensures var app, (s', st') := SavedApp(s), WriteProd(s, rec, hal);
            && s'.prod == Programmed(Blanks(PROD_DATA_LEN), Reached(rec, hal.program)) && |s'.app| == |s.app|
            && (hal.restoreRsvd.Done? ==> s'.rsvd == s.rsvd)
            && (hal.restore.Done? ==> s'.app == app + Blanks(|s.app| - |app|))
            && (st' == Success ==> hal.program.Done? && s'.rsvd == s.rsvd && s'.app == app + Blanks(|s.app| - |app|))
  {
    hide AppCheck, Programmed, SavedApp, IsBlank, Blanks, Restore;
    SavedPrefix(s);
    RestoreErased(s, Programmed(Erased(s).prod, Reached(rec, hal.program)), StatusOf(hal.program), hal);
  }

  lemma SuccessMeansErased(s: Sector, rec: seq<Byte>, hal: Hal)
    requires Formed(s) && |rec| == PROD_DATA_LEN && WriteProd(s, rec, hal).1 == Success
    requires s.prod != rec && !IsBlank(s.prod)
    ensures ReachesErase(s, rec, hal) && hal.erase.Complete?
  {
    SavedPrefix(s);
    hide AppCheck, Programmed, SavedApp, IsBlank, Blanks, AfterErase;
  }

  /** Short of the erase at most the production record is programmed. */
  lemma NoEraseKeeps(s: Sector, rec: seq<Byte>, hal: Hal)
    requires Formed(s) && |rec| == PROD_DATA_LEN && !ReachesErase(s, rec, hal)
    ensures var s' := WriteProd(s, rec, hal).0; s'.app == s.app && s'.rsvd == s.rsvd
  {
    SavedPrefix(s);
    RestoreUnerased(s, SavedRsvd(s), [], Error, hal);
    hide AppCheck, Programmed, SavedApp, IsBlank, Blanks, Restore;
  }

  lemma UntouchedIsKept(s: Sector, s': Sector)
    requires Formed(s) && Formed(s') && s'.app == s.app
    ensures AppKept(s, s')
  {
    hide Crc, Stored;
    RaisedGains(s.app, []);
    assert Raised(s.app, []) == s.app;
  }

  /** A kept record still passes the check and reads back the same. */
  lemma KeptStillValid(s: Sector, s': Sector)
    requires Formed(s) && Formed(s') && AppKept(s, s') && AppCheck(s.app) == Success
    ensures NoWrap(s'.app) && AppCheck(s'.app) == Success && DeclaredLength(s'.app) == DeclaredLength(s.app)
    ensures var n := DeclaredLength(s.app);
            s'.app[APP_DATA_OFFSET..APP_DATA_OFFSET + n] == s.app[APP_DATA_OFFSET..APP_DATA_OFFSET + n]
  {
    hide FromLe32, Crc, Stored, Gained;
    var a, b, n := s.app, s'.app, AppTotal(s.app);
    CheckCases(a);
    SameSlice(a, b, n, 0, PROD_DATA_ID_STRING_SZ);
    SameSlice(a, b, n, 16, APP_DATA_OFFSET);
    SameSlice(a, b, n, APP_DATA_OFFSET, n - 2);
    SameSlice(a, b, n, n - 2, n);
    assert a[n - 2] == a[n - 2..n][0] && a[n - 1] == a[n - 2..n][1];
    assert b[n - 2] == b[n - 2..n][0] && b[n - 1] == b[n - 2..n][1];
  }

  lemma SameSlice(a: seq<Byte>, b: seq<Byte>, n: nat, lo: nat, hi: nat)
    requires lo <= hi <= n <= |a| && n <= |b| && a[..n] == b[..n]
    ensures a[lo..hi] == b[lo..hi]
  {
    SliceOfSlice(a, 0, n, lo, hi);
    SliceOfSlice(b, 0, n, lo, hi);
    assert a[0..n] == a[..n] && b[0..n] == b[..n];
  }

  /** Success is only ever reported when the record is in place and everything else was kept. */
  lemma WriteProdHonest(s: Sector, rec: seq<Byte>, hal: Hal)
    requires Formed(s) && |rec| == PROD_DATA_LEN
    requires WriteProd(s, rec, hal).1 == Success
    ensures var s' := WriteProd(s, rec, hal).0;
            Formed(s') && s'.prod == rec && s'.rsvd == s.rsvd && AppKept(s, s')
  {
    hide AppCheck, NoWrap, Programmed, SavedApp, IsBlank, Blanks, AppKept, Restore, Gained, AfterErase;
    SavedPrefix(s);
    WriteProdFormed(s, rec, hal);
    var s' := WriteProd(s, rec, hal).0;
    if s.prod == rec {
      UntouchedIsKept(s, s');
    } else if IsBlank(s.prod) {
      FreshProd(s, rec);
      UntouchedIsKept(s, s');
    } else {
      SuccessMeansErased(s, rec, hal);
      CompleteErase(s, rec, hal);
      ProgramErased(s.prod, rec);
      BlanksFrom(PROD_DATA_LEN, PROD_DATA_LEN);
      assert rec + [] == rec;
      BlankedGains(s.app, SavedApp(s));
      SavedIsKept(s, s');
    }
  }

  /** As long as its own restore goes through, a valid production record survives a factory-data write. */
  lemma WriteAppKeepsProd(st: State, p: seq<Byte>, hal: Hal)
    requires Sound(st) && APP_DATA_OFFSET + |p| + 2 <= |st.sector.app|
    requires ProdValid(st.sector.prod) && hal.restore.Done?
    ensures WriteAppFactoryData(st, p, hal).0.sector.prod == st.sector.prod
  {
    var prod := st.sector.prod;
    assert !IsBlank(prod) by {
      assert prod[..PROD_DATA_ID_STRING_SZ][0] == 0x50;
    }
    ProdComesBack(st.sector, hal.erase);
    hide AppCheck, AppRecord, Programmed, ProdValid, IsBlank, AfterErase, SameApp;
  }

  lemma ProdComesBack(s: Sector, erasure: Erasure)
    requires Formed(s)
    ensures Formed(AfterErase(s, erasure)) && Programmed(AfterErase(s, erasure).prod, s.prod) == s.prod
  {
    match erasure
    case Complete =>
      ProgramErased(s.prod, s.prod);
      BlanksFrom(PROD_DATA_LEN, PROD_DATA_LEN);
      assert s.prod + [] == s.prod;
    case Torn(m) =>
      ProgramRaised(s.prod, m.prod, s.prod);
      assert s.prod + Raised(s.prod, m.prod)[|s.prod|..] == s.prod;
  }

  /** Success is only ever reported when the payload can be read back or is unreadable by its length. */
  lemma WriteAppHonest(st: State, p: seq<Byte>, hal: Hal)
    requires Sound(st) && APP_DATA_OFFSET + |p| + 2 <= |st.sector.app|
    requires WriteAppFactoryData(st, p, hal).1 == Success
    ensures var st' := WriteAppFactoryData(st, p, hal).0;
            && (AppRecord(p) <= st'.sector.app || SameApp(st.sector, p))
            && (ProdValid(st.sector.prod) ==> st'.sector.prod == st.sector.prod)
  {
    var s, rec := st.sector, AppRecord(p);
    if ProdValid(s.prod) && hal.restore.Done? {
      WriteAppKeepsProd(st, p, hal);
    }
    ProgramErased(s.app, rec);
    if IsBlank(s.app[..|rec|]) {
      ProgramBlank(s.app, rec);
    }
    assert ProdValid(s.prod) ==> !IsBlank(s.prod) by {
      if ProdValid(s.prod) {
        assert s.prod[..PROD_DATA_ID_STRING_SZ][0] == 0x50;
      }
    }
    hide AppCheck, AppRecord, NoWrap, Programmed, ProdValid, IsBlank, Blanks;
  }

  /**
   * What a reported success of NV_WriteHWParameters is worth: the flash holds the RAM content, and as a valid
   * record exactly when the record was written anew or was valid before. The CRC is not part of the comparison
   * that skips the write.
   */
  lemma WriteReportsTruth(st: State, hal: Hal)
    requires Sound(st) && st.loaded && WriteHwParameters(st, hal).1 == Success
    ensures var prod := WriteHwParameters(st, hal).0.sector.prod;
            && |prod| == PROD_DATA_LEN && Content(prod) == Content(st.ram)
            && (ProdValid(prod) <==>
                 st.ram[..HW_PARAM_CRC_OFFSET] != st.sector.prod[..HW_PARAM_CRC_OFFSET] || ProdValid(st.sector.prod))
  {
    hide ProdValid, WriteProd, NoWrap, AppCheck, AppKept;
    if st.ram[..HW_PARAM_CRC_OFFSET] == st.sector.prod[..HW_PARAM_CRC_OFFSET] {
      PrefixContent(st.ram, st.sector.prod);
    } else {
      WriteProdHonest(st.sector, Sealed(st.ram), hal);
      SealedIsImage(st.ram);
      ProdImageFacts(Some(Content(st.ram)));
    }
  }

  /**
   * A first write torn after k bytes is reported, but when the rest of the content is 0xFF, as unused padding is,
   * the retry reports success without writing; the record is then invalid unless its CRC is that of blank flash.
   */
  lemma RetryAfterTornWrite(st: State, k: nat)
    requires Sound(st) && st.loaded && IsBlank(st.sector.prod) && !IsBlank(st.ram[..HW_PARAM_CRC_OFFSET])
    requires PROD_DATA_ID_STRING_SZ <= k <= HW_PARAM_CRC_OFFSET && IsBlank(st.ram[k..HW_PARAM_CRC_OFFSET])
    ensures var (st1, status1) := WriteHwParameters(st, NO_FAULT.(program := Failed(k)));
            && status1 == Error && Sound(st1) && st1.loaded
            && WriteHwParameters(st1, NO_FAULT) == (st1, Success)
            && (ProdValid(st1.sector.prod) <==> Crc(Content(st.ram)) == 0xFFFF)
  {
    var rec, prod, last := Sealed(st.ram), st.sector.prod, HW_PARAM_CRC_OFFSET;
    SealedIsImage(st.ram);
    assert IsBlank(rec[k..last]) by {
      assert rec[k..last] == st.ram[k..last];
    }
    TornRecord(Content(st.ram), prod, k);
    assert IsBlank(prod[..last]);
    hide ProdValid, Crc, Sealed, NoWrap, AppCheck, Programmed;
  }

  lemma TornRecord(c: seq<Byte>, prod: seq<Byte>, k: nat)
    requires |c| == CONTENT_LEN && |prod| == PROD_DATA_LEN && IsBlank(prod)
    requires PROD_DATA_ID_STRING_SZ <= k <= HW_PARAM_CRC_OFFSET && IsBlank(ProdRecord(c)[k..HW_PARAM_CRC_OFFSET])
    ensures var torn := Programmed(prod, ProdRecord(c)[..k]);
            && torn[..HW_PARAM_CRC_OFFSET] == ProdRecord(c)[..HW_PARAM_CRC_OFFSET]
            && (ProdValid(torn) <==> Crc(c) == 0xFFFF)
  {
    var rec, last := ProdRecord(c), HW_PARAM_CRC_OFFSET;
    var torn := Programmed(prod, rec[..k]);
    ProgramBlank(prod, rec[..k]);
    forall i | k <= i < last ensures rec[i] == 0xFF {
      assert rec[i] == rec[k..last][i - k];
    }
    assert torn[..last] == rec[..last];
    assert torn[PROD_DATA_ID_STRING_SZ..last] == torn[..last][PROD_DATA_ID_STRING_SZ..] == c;
    assert torn[..PROD_DATA_ID_STRING_SZ] == torn[..last][..PROD_DATA_ID_STRING_SZ] == PROD_DATA_IDENTIFIER;
    assert torn[last] == 0xFF && torn[last + 1] == 0xFF;
    BlankCrc();
    hide Crc, Stored, Programmed, ProdRecord;
  }

  lemma BlankCrc()
    ensures Stored(0xFF, 0xFF) == 0xFFFF
  {
  }

  /**
   * However NV_WriteHWParameters ends, the RAM copy keeps its content; it becomes the sealed record exactly as soon
   * as the flash is not known to hold that content already.
   */
  lemma WriteKeepsEdits(st: State, hal: Hal)
    requires Sound(st) && st.loaded
    ensures var t := WriteHwParameters(st, hal).0;
            && t.loaded && |t.ram| == PROD_DATA_LEN && Content(t.ram) == Content(st.ram)
            && (t.ram == ProdRecord(Content(st.ram))
                <==> ProdValid(st.ram)
                     || (hal.initOk && st.ram[..HW_PARAM_CRC_OFFSET] != st.sector.prod[..HW_PARAM_CRC_OFFSET]))
            && (t.ram == st.ram || t.ram == ProdRecord(Content(st.ram)))
  {
    ProdValidExactly(st.ram);
    hide ProdValid, WriteProd, ProdRecord, AppCheck;
    SealedKeeps(st.ram);
  }

  lemma SealedKeeps(ram: seq<Byte>)
    requires |ram| == PROD_DATA_LEN
    ensures Sealed(ram) == ProdRecord(Content(ram)) && |Sealed(ram)| == PROD_DATA_LEN
    ensures Content(Sealed(ram)) == Content(ram)
  {
    hide Crc;
  }

  /**
   * HWParametersErase never tells a failure: RAM is blank whatever the driver does, but the production region only if
   * it was before, or the call got as far as an erase that blanked it.
   */
  lemma EraseErasesExactly(st: State, hal: Hal)
    requires Sound(st)
    ensures var (t, status) := EraseHwParameters(st, hal);
            var blank := Blanks(PROD_DATA_LEN);
            && t.ram == blank && t.loaded
            && (NoWrap(st.sector.app) ==> status == Success)
            && (t.sector.prod == blank <==>
                 IsBlank(st.sector.prod)
                 || (ReachesErase(st.sector, blank, hal)
                     && (hal.erase.Complete? || Raised(st.sector.prod, hal.erase.mask.prod) == blank)))
  {
    var s, blank := st.sector, Blanks(PROD_DATA_LEN);
    hide AppCheck, NoWrap, Programmed, SavedApp, SavedRsvd, IsBlank, Raised, Blanks, WriteProd, ReachesErase;
    BlankIsBlanks(s.prod);
    if !ReachesErase(s, blank, hal) {
      UnerasedProd(s, blank, hal);
    } else {
      if hal.erase.Complete? {
        CompleteErase(s, blank, hal);
        ProgramBlanks(Reached(blank, hal.program));
      } else {
        TornErase(s, blank, hal);
      }
      ReachesNotBlank(s, blank, hal);
    }
    OutOfAreaWraps(s, blank, hal);
  }

  lemma ReachesNotBlank(s: Sector, rec: seq<Byte>, hal: Hal)
    requires Formed(s) && |rec| == PROD_DATA_LEN && ReachesErase(s, rec, hal)
    ensures !IsBlank(s.prod)
  {
  }

  lemma OutOfAreaWraps(s: Sector, rec: seq<Byte>, hal: Hal)
    requires Formed(s) && |rec| == PROD_DATA_LEN
    ensures NoWrap(s.app) ==> WriteProd(s, rec, hal).1 != OutOfArea
  {
    CheckCases(s.app);
    hide AppCheck, NoWrap, Programmed, SavedApp, SavedRsvd, IsBlank, AfterErase;
  }

  /** Without an erase a production region that is not blank stays. */
  lemma UnerasedProd(s: Sector, rec: seq<Byte>, hal: Hal)
    requires Formed(s) && |rec| == PROD_DATA_LEN && !ReachesErase(s, rec, hal)
    ensures !IsBlank(s.prod) || s.prod == rec ==> WriteProd(s, rec, hal).0.prod == s.prod
  {
    hide AppCheck, Programmed, IsBlank, AfterErase;
    SavedPrefix(s);
  }

  lemma ProgramBlanks(data: seq<Byte>)
    requires data <= Blanks(PROD_DATA_LEN)
    ensures Programmed(Blanks(PROD_DATA_LEN), data) == Blanks(PROD_DATA_LEN)
  {
    ProgramAgain(Blanks(PROD_DATA_LEN), data);
  }

  // ----- what a factory-data write costs its neighbours

  /** Whether writing p gets as far as erasing the sector. */
  predicate NeedsErase(st: State, p: seq<Byte>, hal: Hal)
    requires Sound(st) && APP_DATA_OFFSET + |p| + 2 <= |st.sector.app|
  {
    && hal.initOk && !IsBlank(st.sector.app[..APP_DATA_OFFSET + |p| + 2])
    && AppCheck(st.sector.app) != OutOfArea && !SameApp(st.sector, p)
  }

  /** The reserved IFR area survives exactly when nothing is erased, it was blank, or a torn erase spares it. */
  lemma ReservedAreaSurvives(st: State, p: seq<Byte>, hal: Hal)
    requires Sound(st) && APP_DATA_OFFSET + |p| + 2 <= |st.sector.app|
    ensures WriteAppFactoryData(st, p, hal).0.sector.rsvd == st.sector.rsvd
            <==> !NeedsErase(st, p, hal) || IsBlank(st.sector.rsvd)
                 || (hal.erase.Torn? && Raised(st.sector.rsvd, hal.erase.mask.rsvd) == st.sector.rsvd)
  {
    BlankIsBlanks(st.sector.rsvd);
    if hal.erase.Torn? {
      RaisedGains(st.sector.rsvd, hal.erase.mask.rsvd);
    }
    hide AppCheck, Programmed, ProdValid, IsBlank, Blanks, SameApp, Raised, Gained;
  }

  /** Unsaved edits of the RAM copy survive exactly when no erase is needed, the production region holds no valid
      record, or the RAM copy is that record. */
  lemma PendingEditSurvives(st: State, p: seq<Byte>, hal: Hal)
    requires Sound(st) && APP_DATA_OFFSET + |p| + 2 <= |st.sector.app|
    ensures WriteAppFactoryData(st, p, hal).0.ram == st.ram
            <==> !NeedsErase(st, p, hal) || !ProdValid(st.sector.prod) || st.ram == st.sector.prod
  {
    ValidNotBlank(st.sector.prod);
    hide AppCheck, Programmed, ProdValid, IsBlank, Blanks, SameApp;
  }

  lemma ValidNotBlank(prod: seq<Byte>)
    requires |prod| == PROD_DATA_LEN
    ensures ProdValid(prod) ==> !IsBlank(prod)
  {
    if ProdValid(prod) {
      assert prod[..PROD_DATA_ID_STRING_SZ][0] == 0x50;
    }
  }

  /** So replacing factory data loses both a programmed reserved area and edits of the RAM copy. */
  lemma NeighboursLost(a: Slots, room: nat, p: seq<Byte>)
    requires Fits(a, room) && Allowed(WriteApp(p), a, room) && a.prod.Some? && a.app.Some? && a.app != Some(p)
    requires !IsBlank(a.rsvd) && a.ram != ProdImage(a.prod)
    ensures Sound(Image(a, room))
    ensures var st := WriteAppFactoryData(Image(a, room), p, NO_FAULT).0;
            IsBlank(st.sector.rsvd) && st.ram == ProdImage(a.prod)
  {
    hide ProdImage, AppImage, NoWrap, WriteAppFactoryData, AppCheck;
    ImageSound(a, room);
    WriteAppIs(a, room, p);
  }

  // ----- corrupted bytes

  /** A production record in whose content an odd number of bits, two bits, or a burst of at most 16 bits was flipped
      is rejected on the next read. */
  lemma CorruptProdRejected(st: State, content: seq<Byte>, error: seq<Byte>)
    requires Sound(st) && !st.loaded && |content| == |error| == CONTENT_LEN && IsDetectable(error)
    requires st.sector.prod == PROD_DATA_IDENTIFIER + XorBytes(content, error) + CrcField(Crc(content))
    ensures !ProdValid(st.sector.prod) && ReadHwParameters(st, NO_FAULT) == (st.(loaded := true), Error)
  {
    var prod, x := st.sector.prod, XorBytes(content, error);
    DetectableChangesCrc(content, error);
    StoredRoundTrip(Crc(content), Low(Crc(content)), High(Crc(content)));
    assert prod[PROD_DATA_ID_STRING_SZ..HW_PARAM_CRC_OFFSET] == x;
    assert prod[0] == 0x50;
    hide Crc, Bits, Stored, Low, High, IsDetectable;
  }

  /** So is a factory-data record whose payload was hit. */
  lemma CorruptAppRejected(app: seq<Byte>, p: seq<Byte>, error: seq<Byte>)
    requires APP_FACTORY_DATA_MAX_LEN <= |app| < UINT32_RANGE && |p| == |error| && IsDetectable(error)
    requires ReadableLength(|p|)
    requires APP_FACTORY_DATA_IDENTIFIER + Le32(|p|) + XorBytes(p, error) + CrcField(Crc(p)) <= app
    ensures NoWrap(app) && AppCheck(app) == CrcError
  {
    hide Crc, Bits, Stored, Low, High, IsDetectable, Le32, FromLe32, AppTagged, DeclaredLength, XorBytes;
    var x := XorBytes(p, error);
    XorLength(p, error);
    DetectableChangesCrc(p, error);
    StoredRoundTrip(Crc(p), Low(Crc(p)), High(Crc(p)));
    AppPrefixFacts(app, x, Crc(p));
  }

  lemma XorLength(a: seq<Byte>, b: seq<Byte>)
    requires |a| == |b|
    ensures |XorBytes(a, b)| == |a|
  {
  }
}

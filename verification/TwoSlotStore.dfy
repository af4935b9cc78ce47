/**
 * The store as its callers think of it: two slots and a RAM copy, no erase anywhere.
 * The fault-free flash operations of HwParameter refine it.
 */
module TwoSlotStore {
  import opened MachineWords
  import opened ByteValue
  import opened Crc16
  import opened NorFlash
  import opened HwParameter

  datatype Option<+T> = None | Some(value: T)

  const CONTENT_LEN := HW_PARAM_CRC_OFFSET - PROD_DATA_ID_STRING_SZ

  /** app holds the last payload written, readable or not. */
  datatype Slots = Slots(rsvd: seq<Byte>, prod: Option<seq<Byte>>, app: Option<seq<Byte>>,
                         ram: seq<Byte>, loaded: bool)

  /** Fits a sector with room bytes from the factory data on. */
  ghost predicate Fits(a: Slots, room: nat) {
    && APP_FACTORY_DATA_MAX_LEN <= room < UINT32_RANGE
    && |a.rsvd| == IFR_RSVD_SZ
    && (a.prod.Some? ==> |a.prod.value| == CONTENT_LEN)
    && (a.app.Some? ==> APP_DATA_OFFSET + |a.app.value| + 2 <= room)
    && |a.ram| == PROD_DATA_LEN
    && (!a.loaded ==> a.ram == Blanks(PROD_DATA_LEN))
  }

  function ProdImage(prod: Option<seq<Byte>>): seq<Byte> {
    if prod.Some? then ProdRecord(prod.value) else Blanks(PROD_DATA_LEN)
  }

  function AppImage(app: Option<seq<Byte>>, room: nat): seq<Byte>
    requires app.Some? ==> APP_DATA_OFFSET + |app.value| + 2 <= room < UINT32_RANGE
  {
    if app.Some?
    then AppRecord(app.value) + Blanks(room - (APP_DATA_OFFSET + |app.value| + 2))
    else Blanks(room)
  }

  /** The one flash image and RAM content that hold the slots. */
  ghost function Image(a: Slots, room: nat): State
    requires Fits(a, room)
  {
    State(Sector(a.rsvd, ProdImage(a.prod), AppImage(a.app, room)), a.ram, a.loaded)
  }

  /** A record that cannot be read back does not survive an erase. */
  function Kept(app: Option<seq<Byte>>): Option<seq<Byte>> {
    if app.Some? && ReadableLength(|app.value|) then app else None
  }

  /** Write the production slot; an erase is needed only over an existing, different record. */
  function SetProd(a: Slots, prod: Option<seq<Byte>>): Slots {
    if a.prod == prod then a
    else a.(prod := prod, app := if a.prod.None? then a.app else Kept(a.app))
  }

  datatype Op =
    | Edit(ram: seq<Byte>)
    | Read
    | Write
    | Reset
    | Erase
    | WriteApp(payload: seq<Byte>)

  ghost predicate Allowed(op: Op, a: Slots, room: nat) {
    match op
    case Edit(ram) => a.loaded && |ram| == PROD_DATA_LEN
    case Write => a.loaded
    case WriteApp(p) => APP_DATA_OFFSET + |p| + 2 <= room
    case _ => true
  }

  function Content(ram: seq<Byte>): seq<Byte>
    requires |ram| == PROD_DATA_LEN
  {
    ram[PROD_DATA_ID_STRING_SZ..HW_PARAM_CRC_OFFSET]
  }

  ghost function Step(a: Slots, op: Op, room: nat): (Slots, Status)
    requires Fits(a, room) && Allowed(op, a, room)
  {
    match op
    case Edit(ram) => (a.(ram := ram), Success)
    case Read =>
      if a.loaded then (a, Success)
      else (a.(ram := ProdImage(a.prod), loaded := true), if a.prod.Some? then Success else BlankFlash)
    case Write =>
      if a.ram[..HW_PARAM_CRC_OFFSET] == ProdImage(a.prod)[..HW_PARAM_CRC_OFFSET] then (a, Success)
      else (SetProd(a, Some(Content(a.ram))).(ram := Sealed(a.ram)), Success)
    case Reset => (a.(ram := Blanks(PROD_DATA_LEN), loaded := false), Success)
    case Erase => (SetProd(a, None).(ram := Blanks(PROD_DATA_LEN), loaded := true), Success)
    case WriteApp(p) =>
      if a.app.None? then (a.(app := Some(p)), Success)
      else if a.app == Some(p) && ReadableLength(|p|) then (a, Success)
      else
        var b := a.(app := Some(p), rsvd := Blanks(IFR_RSVD_SZ));
        (if a.prod.None? then b else b.(ram := ProdImage(a.prod), loaded := true), Success)
  }

  /** The same operation on flash. */
  ghost function FlashStep(st: State, op: Op, hal: Hal): (State, Status)
    requires Sound(st)
    requires op.Edit? ==> |op.ram| == PROD_DATA_LEN
    requires op.Write? ==> st.loaded
    requires op.WriteApp? ==> APP_DATA_OFFSET + |op.payload| + 2 <= |st.sector.app|
  {
    match op
    case Edit(ram) => (st.(ram := ram), Success)
    case Read => ReadHwParameters(st, hal)
    case Write => WriteHwParameters(st, hal)
    case Reset => (HwParameter.Reset(st), Success)
    case Erase => EraseHwParameters(st, hal)
    case WriteApp(p) => WriteAppFactoryData(st, p, hal)
  }

  // ----- reading the images back

  lemma ProdImageFacts(prod: Option<seq<Byte>>)
    requires prod.Some? ==> |prod.value| == CONTENT_LEN
    ensures |ProdImage(prod)| == PROD_DATA_LEN
    ensures IsBlank(ProdImage(prod)) <==> prod.None?
    ensures prod.None? ==> ProdImage(prod) == Blanks(PROD_DATA_LEN)
    ensures ProdValid(ProdImage(prod)) <==> prod.Some?
    ensures prod.Some? ==> Content(ProdImage(prod)) == prod.value
    ensures prod.Some? ==> Sealed(ProdImage(prod)) == ProdImage(prod)
  {
    var r := ProdImage(prod);
    if prod.Some? {
      var c := prod.value;
      assert r[..PROD_DATA_ID_STRING_SZ] == PROD_DATA_IDENTIFIER;
      assert r[PROD_DATA_ID_STRING_SZ..HW_PARAM_CRC_OFFSET] == c;
      assert r[HW_PARAM_CRC_OFFSET] == Low(Crc(c)) && r[HW_PARAM_CRC_OFFSET + 1] == High(Crc(c));
      StoredRoundTrip(Crc(c), Low(Crc(c)), High(Crc(c)));
      assert r[0] == 0x50;
    } else {
      assert r[..PROD_DATA_ID_STRING_SZ][0] == 0xFF;
      assert PROD_DATA_IDENTIFIER[0] == 0x50;
    }
  }

  /** A region that starts with identifier, length, body and CRC field is read that way. */
  lemma AppPrefixFacts(app: seq<Byte>, body: seq<Byte>, crc: bv16)
    requires APP_FACTORY_DATA_MAX_LEN <= |app| < UINT32_RANGE && |body| < UINT32_RANGE
    requires APP_FACTORY_DATA_IDENTIFIER + Le32(|body|) + body + CrcField(crc) <= app
    ensures AppTagged(app) && DeclaredLength(app) == |body|
    ensures app[APP_DATA_OFFSET..APP_DATA_OFFSET + |body|] == body
    ensures Stored(app[APP_DATA_OFFSET + |body|], app[APP_DATA_OFFSET + |body| + 1]) == crc
  {
    hide Le32, FromLe32, Stored, Low, High;
    var id, len, tail := APP_FACTORY_DATA_IDENTIFIER, Le32(|body|), CrcField(crc);
    Le32RoundTrip(|body|);
    StoredRoundTrip(crc, Low(crc), High(crc));
    Parts(app, id, len, body, tail);
    assert app[..PROD_DATA_ID_STRING_SZ] == app[..16][..PROD_DATA_ID_STRING_SZ];
    var n := APP_DATA_OFFSET + |body|;
    assert app[n] == app[n..n + 2][0] && app[n + 1] == app[n..n + 2][1];
  }

  lemma AppImageFacts(app: Option<seq<Byte>>, room: nat)
    requires APP_FACTORY_DATA_MAX_LEN <= room < UINT32_RANGE
    requires app.Some? ==> APP_DATA_OFFSET + |app.value| + 2 <= room
    ensures var r := AppImage(app, room);
            && |r| == room && NoWrap(r)
            && (AppTagged(r) <==> app.Some?)
            && (forall n {:trigger r[..n]} :: 1 <= n <= room ==> (IsBlank(r[..n]) <==> app.None?))
            && (app.Some? ==>
                 && DeclaredLength(r) == |app.value|
                 && r[APP_DATA_OFFSET..APP_DATA_OFFSET + |app.value|] == app.value
                 && AppRecord(app.value) <= r && r[..AppTotal(r)] == AppRecord(app.value))
            && (AppCheck(r) == Success <==> app.Some? && ReadableLength(|app.value|))
            && AppCheck(r) != OutOfArea
  {
    hide Le32, Crc, Stored, Low, High, AppTagged, DeclaredLength, AppRecord, AppCheck;
    var r := AppImage(app, room);
    CheckCases(r);
    if app.Some? {
      RecordImageFacts(app.value, room);
      forall n {:trigger r[..n]} | 1 <= n <= room ensures !IsBlank(r[..n]) {
        AppTaggedNotBlank(r, n);
      }
    } else {
      AppBlankNotTagged(r);
    }
  }

  lemma RecordImageFacts(p: seq<Byte>, room: nat)
    requires APP_DATA_OFFSET + |p| + 2 <= room < UINT32_RANGE && APP_FACTORY_DATA_MAX_LEN <= room
    ensures var r := AppImage(Some(p), room);
            && |r| == room && AppTagged(r) && DeclaredLength(r) == |p| && NoWrap(r)
            && r[APP_DATA_OFFSET..APP_DATA_OFFSET + |p|] == p
            && Stored(r[APP_DATA_OFFSET + |p|], r[APP_DATA_OFFSET + |p| + 1]) == Crc(p)
            && AppRecord(p) <= r && r[..AppTotal(r)] == AppRecord(p)
  {
    hide Le32, Crc, Stored, Low, High, AppTagged, DeclaredLength;
    AppPrefixFacts(AppImage(Some(p), room), p, Crc(p));
  }

  lemma ImageSound(a: Slots, room: nat)
    requires Fits(a, room)
    ensures Sound(Image(a, room))
    ensures NoWrap(Image(a, room).sector.app) && AppCheck(Image(a, room).sector.app) != OutOfArea
  {
    hide AppCheck, NoWrap;
    ProdImageFacts(a.prod);
    AppImageFacts(a.app, room);
  }

  // ----- refinement, one operation at a time

  lemma ProgramErased(region: seq<Byte>, data: seq<Byte>)
    requires |data| <= |region|
    ensures Programmed(Blanks(|region|), data) == data + Blanks(|region| - |data|)
  {
    ProgramBlank(Blanks(|region|), data);
  }

  lemma BlanksFrom(n: nat, k: nat)
    requires k <= n
    ensures Blanks(n)[k..] == Blanks(n - k) && [] + Blanks(n) == Blanks(n) && Blanks(0) == []
  {
  }

  lemma SavedPrefix(s: Sector)
    requires Formed(s)
    ensures SavedApp(s) <= s.app
    ensures AppCheck(s.app) == Success ==> SavedApp(s) == s.app[..AppTotal(s.app)] && SavedApp(s) != []
    ensures AppCheck(s.app) != Success ==> SavedApp(s) == []
  {
    hide FromLe32, Crc, Stored;
    if AppCheck(s.app) == Success {
      AppTaggedNotBlank(s.app, APP_FACTORY_DATA_MAX_LEN);
    }
  }

  /** The two restores after an erase, however the production record fared. */
  lemma RestoreErased(s: Sector, prod: seq<Byte>, st: Status, hal: Hal)
    requires Formed(s)
    ensures |SavedApp(s)| <= |s.app|
    ensures var app := SavedApp(s);
            var (s', st') := Restore(Erased(s).(prod := prod), SavedRsvd(s), app, st, hal);
            var rsvdOk, appOk := SavedRsvd(s) == [] || hal.restoreRsvd.Done?, app == [] || hal.restore.Done?;
            && s'.prod == prod && |s'.rsvd| == |s.rsvd| && |s'.app| == |s.app|
            && (rsvdOk ==> s'.rsvd == s.rsvd)
            && (appOk ==> s'.app == app + Blanks(|s.app| - |app|))
            && (rsvdOk && appOk ==> st' == st)
            && (st' == Success ==> st == Success && rsvdOk && appOk)
  {
    hide AppCheck, NoWrap, Programmed, SavedApp, IsBlank, Blanks;
    SavedPrefix(s);
    ProgramErased(s.app, SavedApp(s));
    ProgramErased(s.rsvd, SavedRsvd(s));
    BlankIsBlanks(s.rsvd);
    BlanksFrom(|s.rsvd|, 0);
    BlanksFrom(|s.rsvd|, |s.rsvd|);
    assert s.rsvd + [] == s.rsvd;
  }

  /** An erase-and-restore rewrite of the production record, in closed form. */
  lemma RewriteProd(s: Sector, rec: seq<Byte>)
    requires Formed(s) && |rec| == PROD_DATA_LEN
    requires s.prod != rec && !IsBlank(s.prod) && AppCheck(s.app) != OutOfArea
    ensures |SavedApp(s)| <= |s.app|
    ensures WriteProd(s, rec, NO_FAULT)
         == (Sector(s.rsvd, rec, SavedApp(s) + Blanks(|s.app| - |SavedApp(s)|)), Success)
  {
    hide AppCheck, NoWrap, Programmed, SavedApp, IsBlank, Blanks, Restore;
    var e := Erased(s);
    RestoreErased(s, Programmed(e.prod, rec), Success, NO_FAULT);
    ProgramErased(s.prod, rec);
    BlanksFrom(PROD_DATA_LEN, PROD_DATA_LEN);
    assert rec + [] == rec;
  }

  lemma FreshProd(s: Sector, rec: seq<Byte>)
    requires Formed(s) && |rec| == PROD_DATA_LEN
    requires s.prod != rec && IsBlank(s.prod)
    ensures WriteProd(s, rec, NO_FAULT) == (s.(prod := rec), Success)
  {
    assert s.prod[..|rec|] == s.prod;
    ProgramBlank(s.prod, rec);
    assert rec + s.prod[|rec|..] == rec;
    hide AppCheck, NoWrap, Programmed;
  }

  lemma SavedAppOfImage(a: Slots, room: nat)
    requires Fits(a, room)
    ensures Sound(Image(a, room))
    ensures var app := SavedApp(Image(a, room).sector);
            && |Image(a, room).sector.app| == room
            && |app| <= room && app + Blanks(room - |app|) == AppImage(Kept(a.app), room)
  {
    hide AppCheck, AppRecord, ProdImage, AppTagged, DeclaredLength, IsBlank, NoWrap;
    ImageSound(a, room);
    AppImageFacts(a.app, room);
  }

  lemma UnchangedProd(s: Sector)
    requires Formed(s)
    ensures WriteProd(s, s.prod, NO_FAULT) == (s, Success)
  {
    hide AppCheck, NoWrap, Programmed, IsBlank;
  }

  /** Fault-free NvWriteProdData on the image of some slots. */
  lemma WriteProdIs(a: Slots, room: nat, prod: Option<seq<Byte>>)
    requires Fits(a, room) && (prod.Some? ==> |prod.value| == CONTENT_LEN)
    ensures Sound(Image(a, room)) && |ProdImage(prod)| == PROD_DATA_LEN
    ensures WriteProd(Image(a, room).sector, ProdImage(prod), NO_FAULT)
         == (Image(SetProd(a, prod), room).sector, Success)
  {
    hide ProdImage, AppImage, NoWrap, WriteProd, SavedApp, IsBlank, AppCheck;
    ImageSound(a, room);
    ProdImageFacts(a.prod);
    ProdImageFacts(prod);
    SameProdImage(a.prod, prod);
    var s, rec := Image(a, room).sector, ProdImage(prod);
    if a.prod == prod {
      UnchangedProd(s);
    } else if a.prod.None? {
      FreshProd(s, rec);
    } else {
      RewriteProd(s, rec);
      SavedAppOfImage(a, room);
    }
  }

  lemma SameProdImage(p: Option<seq<Byte>>, q: Option<seq<Byte>>)
    requires p.Some? ==> |p.value| == CONTENT_LEN
    requires q.Some? ==> |q.value| == CONTENT_LEN
    ensures ProdImage(p) == ProdImage(q) <==> p == q
  {
    ProdImageFacts(p);
    ProdImageFacts(q);
  }

  /** An erase-and-restore rewrite of the factory data, in closed form. */
  lemma RewriteApp(st: State, p: seq<Byte>)
    requires Sound(st) && APP_DATA_OFFSET + |p| + 2 <= |st.sector.app|
    requires !IsBlank(st.sector.app[..|AppRecord(p)|]) && !SameApp(st.sector, p)
    requires AppCheck(st.sector.app) != OutOfArea
    ensures var s, prod := st.sector, SavedProd(st.sector);
            WriteAppFactoryData(st, p, NO_FAULT)
            == (State(Sector(Blanks(IFR_RSVD_SZ), prod + Blanks(PROD_DATA_LEN - |prod|),
                             AppRecord(p) + Blanks(|s.app| - |AppRecord(p)|)),
                      if prod == [] then st.ram else prod, st.loaded || prod != []), Success)
  {
    hide AppCheck, AppRecord, NoWrap, Programmed, ProdValid, IsBlank, Blanks, SameApp, AppTagged, DeclaredLength;
    var s, rec, prod := st.sector, AppRecord(p), SavedProd(st.sector);
    ProgramErased(s.app, rec);
    ProgramErased(s.prod, prod);
  }

  lemma FreshApp(st: State, p: seq<Byte>)
    requires Sound(st) && APP_DATA_OFFSET + |p| + 2 <= |st.sector.app|
    requires IsBlank(st.sector.app[..|AppRecord(p)|])
    ensures var app := AppRecord(p) + st.sector.app[|AppRecord(p)|..];
            WriteAppFactoryData(st, p, NO_FAULT) == (st.(sector := st.sector.(app := app)), Success)
  {
    ProgramBlank(st.sector.app, AppRecord(p));
    hide AppCheck, AppRecord, NoWrap, Programmed, ProdValid, IsBlank;
  }

  lemma SameAppIsNoOp(st: State, p: seq<Byte>)
    requires Sound(st) && APP_DATA_OFFSET + |p| + 2 <= |st.sector.app|
    requires SameApp(st.sector, p) && !IsBlank(st.sector.app[..|AppRecord(p)|])
    ensures WriteAppFactoryData(st, p, NO_FAULT) == (st, Success)
  {
    hide AppCheck, AppRecord, NoWrap, Programmed, ProdValid, IsBlank;
  }

  /** Fault-free Nv_WriteAppFactoryData on the image of some slots. */
  lemma WriteAppIs(a: Slots, room: nat, p: seq<Byte>)
    requires Fits(a, room) && Allowed(WriteApp(p), a, room)
    ensures Sound(Image(a, room))
    ensures WriteAppFactoryData(Image(a, room), p, NO_FAULT)
         == (Image(Step(a, WriteApp(p), room).0, room), Success)
  {
    hide ProdImage, AppCheck, Programmed, ProdValid, AppRecord, DeclaredLength, WriteAppFactoryData, IsBlank, NoWrap,
         Blanks, AppTagged;
    ImageSound(a, room);
    ProdImageFacts(a.prod);
    AppImageFacts(a.app, room);
    var st, n := Image(a, room), |AppRecord(p)|;
    BlanksFrom(room, n);
    BlanksFrom(PROD_DATA_LEN, 0);
    if a.app.None? {
      FreshApp(st, p);
    } else if a.app == Some(p) && ReadableLength(|p|) {
      SameAppIsNoOp(st, p);
    } else {
      RewriteApp(st, p);
      assert st.sector.prod + [] == st.sector.prod;
    }
  }

  /** Every fault-free operation on the image of some slots is the slot operation. */
  lemma StepRefines(a: Slots, op: Op, room: nat)
    requires Fits(a, room) && Allowed(op, a, room)
    ensures Sound(Image(a, room))
    ensures var (b, status) := Step(a, op, room);
            Fits(b, room) && FlashStep(Image(a, room), op, NO_FAULT) == (Image(b, room), status)
  {
    hide AppImage, ProdImage, NoWrap, WriteProd, WriteAppFactoryData, AppCheck, IsBlank, ProdValid, Sealed;
    ImageSound(a, room);
    ProdImageFacts(a.prod);
    match op
    case Edit(_) =>
    case Read =>
    case Write =>
      SealedIsImage(a.ram);
      WriteProdIs(a, room, Some(Content(a.ram)));
    case Reset =>
    case Erase =>
      NoImage();
      WriteProdIs(a, room, None);
    case WriteApp(p) =>
      WriteAppIs(a, room, p);
  }

  lemma SealedIsImage(ram: seq<Byte>)
    requires |ram| == PROD_DATA_LEN
    ensures Sealed(ram) == ProdImage(Some(Content(ram)))
  {
  }

  lemma NoImage()
    ensures ProdImage(None) == Blanks(PROD_DATA_LEN)
  {
  }

  // ----- whole runs

  /** What the flash driver must be asked for an operation to make sense: a loaded RAM copy, a payload that fits. */
  ghost predicate Callable(op: Op, st: State) {
    match op
    case Edit(ram) => st.loaded && |ram| == PROD_DATA_LEN
    case Write => st.loaded
    case WriteApp(p) => APP_DATA_OFFSET + |p| + 2 <= |st.sector.app|
    case _ => true
  }

  /** A run in which the driver and the allocator answer the i-th operation as hals[i] says. */
  ghost predicate IsRunUnder(states: seq<State>, ops: seq<Op>, hals: seq<Hal>) {
    && |states| == |ops| + 1 && |hals| == |ops|
    && forall i :: 0 <= i < |ops| ==>
         Sound(states[i]) && Callable(ops[i], states[i]) && states[i + 1] == FlashStep(states[i], ops[i], hals[i]).0
  }

  ghost predicate IsFlashRun(states: seq<State>, ops: seq<Op>) {
    IsRunUnder(states, ops, seq(|ops|, _ => NO_FAULT))
  }

  lemma RunPrefix(states: seq<State>, ops: seq<Op>, hals: seq<Hal>, n: nat)
    requires IsRunUnder(states, ops, hals) && n < |ops|
    ensures Sound(states[n]) && Callable(ops[n], states[n])
    ensures states[n + 1] == FlashStep(states[n], ops[n], hals[n]).0
    ensures IsRunUnder(states[..n + 1], ops[..n], hals[..n])
  {
    hide FlashStep, Sound, Callable;
  }

  lemma FlashRunPrefix(states: seq<State>, ops: seq<Op>, n: nat)
    requires IsFlashRun(states, ops) && n < |ops|
    ensures Sound(states[n]) && Callable(ops[n], states[n])
    ensures states[n + 1] == FlashStep(states[n], ops[n], NO_FAULT).0
    ensures IsFlashRun(states[..n + 1], ops[..n])
  {
    hide IsRunUnder, FlashStep, Sound, Callable;
    var hals := seq(|ops|, _ => NO_FAULT);
    RunPrefix(states, ops, hals, n);
    assert hals[..n] == seq(n, _ => NO_FAULT);
  }

  ghost function SlotsAfter(a: Slots, ops: seq<Op>, room: nat): (b: Slots)
    requires Fits(a, room)
    ensures Fits(b, room)
  {
    if ops == [] then a
    else
      var op, b := ops[|ops| - 1], SlotsAfter(a, ops[..|ops| - 1], room);
      if Allowed(op, b, room) then
        StepRefines(b, op, room);
        Step(b, op, room).0
      else b
  }

  /** Along every fault-free run the flash and RAM are exactly the image of the two slots. */
  lemma {:induction false} RunRefines(a: Slots, room: nat, states: seq<State>, ops: seq<Op>)
    requires Fits(a, room) && IsFlashRun(states, ops) && states[0] == Image(a, room)
    ensures states[|ops|] == Image(SlotsAfter(a, ops, room), room)
  {
    if ops != [] {
      var n := |ops| - 1;
      FlashRunPrefix(states, ops, n);
      hide IsFlashRun;
      RunRefines(a, room, states[..n + 1], ops[..n]);
      var b := SlotsAfter(a, ops[..n], room);
      AppImageFacts(b.app, room);
      hide ProdImage, AppImage, Sound, Step;
      StepRefines(b, ops[n], room);
    }
  }

  /** Each region is blank or holds the slot's record, and the factory-data read reports which. */
  ghost predicate HoldsRecords(st: State, b: Slots)
    requires Sound(st)
    requires b.app.Some? ==> |b.app.value| < UINT32_RANGE
  {
    && (b.prod.None? ==> IsBlank(st.sector.prod))
    && (b.prod.Some? ==> ProdValid(st.sector.prod) && st.sector.prod == ProdRecord(b.prod.value))
    && (b.app.None? ==> IsBlank(st.sector.app))
    && (b.app.Some? ==> AppRecord(b.app.value) <= st.sector.app)
    && GetAppFactoryData(st) == (if Kept(b.app).Some? then Payload(b.app.value) else Null)
  }

  lemma ImageHoldsRecords(b: Slots, room: nat)
    requires Fits(b, room)
    ensures Sound(Image(b, room)) && HoldsRecords(Image(b, room), b)
  {
    hide AppCheck, ProdRecord, AppRecord, AppTagged, DeclaredLength, NoWrap, AppImage, ProdValid, IsBlank;
    ImageSound(b, room);
    ProdImageFacts(b.prod);
    AppImageFacts(b.app, room);
    var app := Image(b, room).sector.app;
    assert app[..room] == app;
  }

  /** Along every fault-free run. */
  lemma RunKeepsRecords(a: Slots, room: nat, states: seq<State>, ops: seq<Op>)
    requires Fits(a, room) && IsFlashRun(states, ops) && states[0] == Image(a, room)
    ensures Sound(states[|ops|]) && HoldsRecords(states[|ops|], SlotsAfter(a, ops, room))
  {
    hide HoldsRecords, Sound, Image;
    RunRefines(a, room, states, ops);
    ImageHoldsRecords(SlotsAfter(a, ops, room), room);
  }

  /** Only Write and Erase ever change the production slot. */
  lemma {:induction false} ProdSlotIndependent(a: Slots, ops: seq<Op>, room: nat)
    requires Fits(a, room) && forall op :: op in ops ==> !op.Write? && !op.Erase?
    ensures SlotsAfter(a, ops, room).prod == a.prod
  {
    if ops != [] {
      var op, before := ops[|ops| - 1], SlotsAfter(a, ops[..|ops| - 1], room);
      ProdSlotIndependent(a, ops[..|ops| - 1], room);
      if Allowed(op, before, room) {
        StepKeepsProd(before, op, room);
      }
      hide Fits, Allowed, Step;
    }
  }

  lemma StepKeepsProd(a: Slots, op: Op, room: nat)
    requires Fits(a, room) && Allowed(op, a, room) && !op.Write? && !op.Erase?
    ensures Step(a, op, room).0.prod == a.prod
  {
    hide ProdImage;
  }

  /** Only WriteApp ever changes a readable factory-data slot. */
  lemma {:induction false} AppSlotIndependent(a: Slots, ops: seq<Op>, room: nat)
    requires Fits(a, room) && forall op :: op in ops ==> !op.WriteApp?
    ensures Kept(SlotsAfter(a, ops, room).app) == Kept(a.app)
  {
    if ops != [] {
      var op, before := ops[|ops| - 1], SlotsAfter(a, ops[..|ops| - 1], room);
      AppSlotIndependent(a, ops[..|ops| - 1], room);
      if Allowed(op, before, room) {
        StepKeepsApp(before, op, room);
      }
      hide Fits, Allowed, Step, Kept;
    }
  }

  lemma StepKeepsApp(a: Slots, op: Op, room: nat)
    requires Fits(a, room) && Allowed(op, a, room) && !op.WriteApp?
    ensures Kept(Step(a, op, room).0.app) == Kept(a.app)
  {
    hide ProdImage;
  }

  /** A factory-data write is read back exactly when its length is one the reader accepts. */
  lemma WriteAppThenGet(a: Slots, room: nat, p: seq<Byte>)
    requires Fits(a, room) && Allowed(WriteApp(p), a, room)
    ensures Sound(Image(a, room))
    ensures var (st, status) := FlashStep(Image(a, room), WriteApp(p), NO_FAULT);
            && status == Success && Sound(st) && st.sector.prod == ProdImage(a.prod)
            && GetAppFactoryData(st) == if ReadableLength(|p|) then Payload(p) else Null
  {
    hide Image, ProdImage, AppImage, NoWrap, AppCheck, Sound, GetAppFactoryData, FlashStep;
    ImageIs(a, room);
    StepRefines(a, WriteApp(p), room);
    var b := Step(a, WriteApp(p), room).0;
    ImageHoldsRecords(b, room);
    ImageIs(b, room);
  }

  lemma ImageIs(a: Slots, room: nat)
    requires Fits(a, room)
    ensures Sound(Image(a, room)) && Image(a, room).sector.prod == ProdImage(a.prod)
  {
    ImageSound(a, room);
  }

  /** A write, a reset and a read: the content comes back, and only an all-blank one reads as blank. */
  lemma WriteThenRead(a: Slots, room: nat)
    requires Fits(a, room) && a.loaded
    ensures Sound(Image(a, room))
    ensures var (st1, status1) := FlashStep(Image(a, room), Write, NO_FAULT);
            Sound(st1) && status1 == Success &&
            var st2 := FlashStep(st1, Op.Reset, NO_FAULT).0;
            Sound(st2) && !st2.loaded &&
            var (st3, status3) := FlashStep(st2, Read, NO_FAULT);
            && |st3.ram| == PROD_DATA_LEN && Content(st3.ram) == Content(a.ram)
            && (status3 == BlankFlash <==> a.prod.None? && IsBlank(a.ram[..HW_PARAM_CRC_OFFSET]))
            && (status3 == Success <==> status3 != BlankFlash)
  {
    hide ProdImage, AppImage, ProdValid, AppCheck, NoWrap, WriteProd;
    ImageSound(a, room);
    var b, c := Step(a, Write, room).0, Step(Step(a, Write, room).0, Op.Reset, room).0;
    StepRefines(a, Write, room);
    StepRefines(b, Op.Reset, room);
    StepRefines(c, Read, room);
    ImageSound(b, room);
    ImageSound(c, room);
    ProdImageFacts(a.prod);
    ProdImageFacts(b.prod);
    PrefixContent(a.ram, ProdImage(a.prod));
  }

  lemma PrefixContent(x: seq<Byte>, y: seq<Byte>)
    requires |x| == |y| == PROD_DATA_LEN
    ensures x[..HW_PARAM_CRC_OFFSET] == y[..HW_PARAM_CRC_OFFSET] ==> Content(x) == Content(y)
  {
    assert Content(x) == x[..HW_PARAM_CRC_OFFSET][PROD_DATA_ID_STRING_SZ..];
    assert Content(y) == y[..HW_PARAM_CRC_OFFSET][PROD_DATA_ID_STRING_SZ..];
  }
}

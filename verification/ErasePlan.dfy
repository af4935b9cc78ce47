/** PLATFORM_EraseExternalFlash: which sectors a range erase touches, and in how many driver calls. */
module ErasePlan {
  import opened MachineWords
  import opened Arithmetic
  import opened Intervals

  const SECTOR := 4096
  /** The sector after the last one a 32-bit address can name. */
  const SECTORS := UINT32_RANGE / SECTOR

  /** One driver call: count sectors from the first. */
  datatype Piece = Piece(first: nat, count: nat)

  function SectorsOf(p: Piece): set<nat> { Between(p.first, p.first + p.count) }

  function Covered(plan: seq<Piece>): set<nat> {
    if plan == [] then {} else SectorsOf(plan[0]) + Covered(plan[1..])
  }

  /** The sectors holding an address of [address, address + size), over unbounded addresses. */
  predicate Meets(k: nat, address: nat, size: nat) {
    size > 0 && k * SECTOR < address + size && address < (k + 1) * SECTOR
  }

  // ----- what the code computes

  function RoundedEnd(address: Uint32, size: Uint32): Uint32 {
    var endAddr := (address + size) % UINT32_RANGE;
    if endAddr % SECTOR != 0 then (endAddr / SECTOR + 1) * SECTOR % UINT32_RANGE else endAddr
  }

  function StartBlock(address: Uint32): nat { address / SECTOR }

  function EndBlock(address: Uint32, size: Uint32): nat { RoundedEnd(address, size) / SECTOR }

  /** The largest erase the part offers that fits the remaining sectors. */
  function PieceSize(remaining: nat): (n: nat)
    requires remaining > 0
    ensures 1 <= n <= remaining && (n == 1 || n == 8 || n == 16)
  {
    if remaining >= 16 then 16 else if remaining >= 8 then 8 else 1
  }

  function Plan(index: nat, end: nat): seq<Piece>
    decreases end - index
  {
    if index >= end then [] else
      var n := PieceSize(end - index);
      [Piece(index, n)] + Plan(index + n, end)
  }

  /** The flash driver: its calls in order, the sectors blanked by the successful ones, and the outcome of each call. */
  class Driver {
    const succeeds: nat -> bool
    ghost var calls: seq<Piece>
    ghost var erased: set<nat>
    var attempts: nat

    ghost predicate Valid()
      reads this
    {
      attempts == |calls|
    }

    constructor (succeeds: nat -> bool)
      ensures Valid() && calls == [] && erased == {} && this.succeeds == succeeds
    {
      this.succeeds := succeeds;
      calls, erased, attempts := [], {}, 0;
    }

    /** Nor_Flash_Erase: both arguments are multiples of the sector size, in bytes. */
    method NorFlashErase(address: Uint32, size: Uint32) returns (ok: bool)
      requires Valid() && size > 0 && address % SECTOR == 0 && size % SECTOR == 0 && address + size <= UINT32_RANGE
      modifies this
      ensures Valid()
      ensures var piece := Piece(address / SECTOR, size / SECTOR);
              && calls == old(calls) + [piece]
              && erased == old(erased) + if ok then SectorsOf(piece) else {}
      ensures ok == succeeds(|old(calls)|)
    {
      ghost var piece := Piece(address / SECTOR, size / SECTOR);
      ok := succeeds(attempts);
      calls, attempts := calls + [piece], attempts + 1;
      erased := erased + if ok then SectorsOf(piece) else {};
    }

    /** The calls numbered from..to all succeeded. */
    ghost predicate AllSucceeded(from: nat, to: nat) {
      forall i :: from <= i < to ==> succeeds(i)
    }

    /** The body of the loop below: one call for the largest piece that fits. */
    method EraseLargestPiece(index: nat, endBlock: nat) returns (ok: bool, nbSectors: int)
      requires Valid() && index < endBlock < SECTORS
      modifies this
      ensures Valid() && nbSectors > 0 && nbSectors == PieceSize(endBlock - index)
      ensures calls == old(calls) + [Piece(index, nbSectors)]
      ensures erased == old(erased) + if ok then SectorsOf(Piece(index, nbSectors)) else {}
      ensures ok == succeeds(|old(calls)|)
    {
      hide SectorsOf;
      var remainingSector := endBlock - index;
      var remainingSize := remainingSector * SECTOR % UINT32_RANGE;
      InBytes(remainingSector);
      if remainingSize >= 64 * 1024 {
        nbSectors := 64 * 1024 / SECTOR;
      } else if remainingSize >= 32 * 1024 {
        nbSectors := 32 * 1024 / SECTOR;
      } else if remainingSize >= 4 * 1024 {
        nbSectors := 4 * 1024 / SECTOR;
      } else {
        nbSectors := 1;
      }
      InBytes(index);
      InBytes(nbSectors);
      ok := NorFlashErase(index * SECTOR % UINT32_RANGE, nbSectors * SECTOR % UINT32_RANGE);
    }

    /** The range in whole sectors. */
    static method BlocksOf(address: Uint32, size: Uint32) returns (startBlock: nat, endBlock: nat)
      ensures startBlock == StartBlock(address) && endBlock == EndBlock(address, size) && endBlock < SECTORS
    {
      var endAddr := (address + size) % UINT32_RANGE;
      if endAddr % SECTOR != 0 {
        endAddr := (endAddr / SECTOR + 1) * SECTOR % UINT32_RANGE;
      }
      startBlock, endBlock := address / SECTOR, endAddr / SECTOR;
    }

    /** The calls made are the plan's, up to and including the first that fails. */
    method EraseExternalFlash(address: Uint32, size: Uint32) returns (ok: bool)
      requires Valid()
      modifies this
      ensures Valid()
      ensures var everything := old(calls) + Plan(StartBlock(address), EndBlock(address, size));
              && old(calls) <= calls <= everything
              && if ok then calls == everything && AllSucceeded(|old(calls)|, |calls|)
                 else old(calls) < calls && !succeeds(|calls| - 1) && AllSucceeded(|old(calls)|, |calls| - 1)
      ensures ok ==> erased == old(erased) + Between(StartBlock(address), EndBlock(address, size))
      ensures old(erased) <= erased <= old(erased) + Between(StartBlock(address), EndBlock(address, size))
    {
      hide Plan, Between, SectorsOf, StartBlock, EndBlock, PieceSize;
      ok := true;
      var startBlock, endBlock := BlocksOf(address, size);
      var index := startBlock;
      ghost var everything := calls + Plan(startBlock, endBlock);
      while index < endBlock
        invariant Valid() && ok && endBlock < SECTORS
        invariant startBlock <= index <= if endBlock < startBlock then startBlock else endBlock
        invariant old(calls) <= calls && calls + Plan(index, endBlock) == everything
        invariant AllSucceeded(|old(calls)|, |calls|)
        invariant erased == old(erased) + Between(startBlock, index)
        decreases endBlock - index
      {
        PlanStep(index, endBlock, calls, everything);
        var nbSectors;
        ok, nbSectors := EraseLargestPiece(index, endBlock);
        if !ok {
          break;
        }
        BetweenGrows(startBlock, index, nbSectors);
        index := index + nbSectors;
      }
      PlanEmpty(index, endBlock);
    }
  }

  lemma InBytes(k: nat)
    requires k < SECTORS
    ensures k * SECTOR % UINT32_RANGE == k * SECTOR && k * SECTOR / SECTOR == k && k * SECTOR % SECTOR == 0
  {
  }

  lemma BetweenGrows(first: nat, end: nat, count: nat)
    requires first <= end
    ensures Between(first, end) + SectorsOf(Piece(end, count)) == Between(first, end + count)
  {
  }

  lemma PlanEmpty(index: nat, end: nat)
    ensures index >= end ==> Plan(index, end) == []
  {
  }

  /** The next call of the plan can be made: what is left then is the rest of the plan. */
  lemma PlanStep(index: nat, end: nat, calls: seq<Piece>, everything: seq<Piece>)
    requires index < end && calls + Plan(index, end) == everything
    ensures var n := PieceSize(end - index);
            && calls + [Piece(index, n)] <= everything
            && calls + [Piece(index, n)] + Plan(index + n, end) == everything
  {
    var piece := Piece(index, PieceSize(end - index));
    Reassociate(calls, [piece], Plan(index + piece.count, end));
  }

  lemma Reassociate(a: seq<Piece>, b: seq<Piece>, c: seq<Piece>)
    ensures a + (b + c) == a + b + c && a + b <= a + (b + c)
  {
  }

  // ----- what the plan is worth

  predicate Offered(count: nat) { count == 1 || count == 8 || count == 16 }

  /** Consecutive erases of offered sizes from first up to end. */
  predicate Tiles(plan: seq<Piece>, first: nat, end: nat) {
    if plan == [] then first == end
    else
      && plan[0].first == first && Offered(plan[0].count)
      && Tiles(plan[1..], first + plan[0].count, end)
  }

  function MinCalls(n: nat): nat { n / 16 + n % 16 / 8 + n % 8 }

  /** The plan tiles the sectors from index to end in MinCalls pieces. */
  lemma {:induction false} PlanTiles(index: nat, end: nat)
    requires index <= end
    ensures Tiles(Plan(index, end), index, end) && |Plan(index, end)| == MinCalls(end - index)
    decreases end - index
  {
    hide MinCalls;
    MinCallsOf(0, 0, 0);
    if index < end {
      var n := PieceSize(end - index);
      PlanTiles(index + n, end);
      LargestFirst(end - index);
    }
  }

  /** With q whole groups of 16, then perhaps one of 8, and s single sectors. */
  lemma MinCallsOf(q: nat, eight: nat, s: nat)
    requires eight < 2 && s < 8
    ensures MinCalls(q * 16 + eight * 8 + s) == q + eight + s
  {
    var n := q * 16 + eight * 8 + s;
    DivUnique(n, 16, q, eight * 8 + s);
    DivUnique(eight * 8 + s, 8, eight, s);
    DivUnique(n, 8, q * 2 + eight, s);
  }

  lemma Groups(n: nat) returns (q: nat, eight: nat, s: nat)
    ensures eight < 2 && s < 8 && n == q * 16 + eight * 8 + s && MinCalls(n) == q + eight + s
  {
    q, eight, s := n / 16, n % 16 / 8, n % 16 % 8;
    MinCallsOf(q, eight, s);
  }

  lemma LargestFirst(n: nat)
    requires n > 0
    ensures MinCalls(n) == 1 + MinCalls(n - PieceSize(n))
  {
    hide MinCalls;
    var q, eight, s := Groups(n);
    if q > 0 {
      MinCallsOf(q - 1, eight, s);
    } else if eight > 0 {
      MinCallsOf(0, 0, s);
    } else {
      MinCallsOf(0, 0, s - 1);
    }
  }

  lemma OneMorePiece(n: nat, count: nat)
    requires Offered(count)
    ensures MinCalls(n + count) <= 1 + MinCalls(n)
  {
    hide MinCalls;
    var q, eight, s := Groups(n);
    if count == 16 {
      MinCallsOf(q + 1, eight, s);
    } else if count == 8 {
      MinCallsOf(q + eight, 1 - eight, s);
    } else if s < 7 {
      MinCallsOf(q, eight, s + 1);
    } else {
      MinCallsOf(q + eight, 1 - eight, 0);
    }
  }

  lemma {:induction false} TilesForward(plan: seq<Piece>, first: nat, end: nat)
    requires Tiles(plan, first, end)
    ensures first <= end
  {
    if plan != [] {
      TilesForward(plan[1..], first + plan[0].count, end);
    }
  }

  predicate AllOffered(plan: seq<Piece>) { forall i :: 0 <= i < |plan| ==> Offered(plan[i].count) }

  predicate PairwiseDisjoint(plan: seq<Piece>) {
    forall i, j :: 0 <= i < j < |plan| ==> SectorsOf(plan[i]) !! SectorsOf(plan[j])
  }

  /** Sectors named by a plan, with repetition. */
  function Size(plan: seq<Piece>): nat { if plan == [] then 0 else plan[0].count + Size(plan[1..]) }

  lemma {:induction false} CallsForSize(plan: seq<Piece>)
    requires AllOffered(plan)
    ensures |plan| >= MinCalls(Size(plan))
  {
    hide MinCalls;
    MinCallsOf(0, 0, 0);
    if plan != [] {
      CallsForSize(plan[1..]);
      OneMorePiece(Size(plan[1..]), plan[0].count);
    }
  }

  lemma {:induction false} BetweenSize(first: nat, end: nat)
    requires first <= end
    ensures |Between(first, end)| == end - first
    decreases end - first
  {
    if first < end {
      BetweenSize(first + 1, end);
      assert Between(first, end) == {first} + Between(first + 1, end);
    } else {
      assert Between(first, end) == {};
    }
  }

  lemma {:induction false} DisjointSize(plan: seq<Piece>)
    requires PairwiseDisjoint(plan)
    ensures |Covered(plan)| == Size(plan)
  {
    if plan != [] {
      var rest := plan[1..];
      assert forall i :: 0 <= i < |rest| ==> rest[i] == plan[i + 1] && SectorsOf(plan[0]) !! SectorsOf(rest[i]);
      DisjointSize(rest);
      BetweenSize(plan[0].first, plan[0].first + plan[0].count);
      ApartFromAll(SectorsOf(plan[0]), rest);
      hide SectorsOf, PairwiseDisjoint;
    }
  }

  lemma {:induction false} ApartFromAll(s: set<nat>, plan: seq<Piece>)
    requires forall i :: 0 <= i < |plan| ==> s !! SectorsOf(plan[i])
    ensures s !! Covered(plan)
  {
    if plan != [] {
      ApartFromAll(s, plan[1..]);
    }
  }

  /** No set of calls of the three sizes that erases exactly the range, and nothing twice, is smaller, in any order. */
  lemma NoFewerCalls(plan: seq<Piece>, first: nat, end: nat)
    requires first <= end && AllOffered(plan) && PairwiseDisjoint(plan) && Covered(plan) == Between(first, end)
    ensures |plan| >= MinCalls(end - first)
  {
    hide MinCalls, Size, Covered, Between, PairwiseDisjoint, AllOffered;
    DisjointSize(plan);
    BetweenSize(first, end);
    CallsForSize(plan);
  }

  /** A tiling covers exactly its range, each sector in one piece only. */
  lemma {:induction false} TilesOnce(plan: seq<Piece>, first: nat, end: nat)
    requires Tiles(plan, first, end)
    ensures first <= end && Covered(plan) == Between(first, end) && PairwiseDisjoint(plan)
  {
    TilesForward(plan, first, end);
    if plan != [] {
      var rest, middle := plan[1..], first + plan[0].count;
      TilesOnce(rest, middle, end);
      forall i, j | 0 <= i < j < |plan| ensures SectorsOf(plan[i]) !! SectorsOf(plan[j]) {
        if i == 0 {
          PieceWithinCovered(rest, j - 1);
        } else {
          assert plan[i] == rest[i - 1] && plan[j] == rest[j - 1];
        }
      }
    }
  }

  lemma {:induction false} PieceWithinCovered(plan: seq<Piece>, i: nat)
    requires i < |plan|
    ensures SectorsOf(plan[i]) <= Covered(plan)
  {
    if i > 0 {
      PieceWithinCovered(plan[1..], i - 1);
    }
  }

  // ----- the range erased

  /** For a positive size the planned sectors are those meeting the range exactly when the range ends at least a
      sector below 4 GiB; past that the rounded end wraps and sectors are missed. */
  lemma ErasesTheRange(address: Uint32, size: Uint32)
    requires size > 0
    ensures (forall k: nat :: InRange(k, StartBlock(address), EndBlock(address, size)) <==> Meets(k, address, size))
       <==> address + size <= UINT32_RANGE - SECTOR
  {
    var last := (address + size - 1) / SECTOR;
    assert Meets(last, address, size);
    if address + size <= UINT32_RANGE - SECTOR {
      NoWrap(address, size);
    } else {
      Wrapped(address, size);
    }
  }

  lemma NoWrap(address: Uint32, size: Uint32)
    requires address + size <= UINT32_RANGE - SECTOR
    ensures EndBlock(address, size) == (address + size + SECTOR - 1) / SECTOR
  {
    var n := address + size;
    var q, r := n / SECTOR, n % SECTOR;
    DivUnique(n, UINT32_RANGE, 0, n);
    if r == 0 {
      DivUnique(n + SECTOR - 1, SECTOR, q, SECTOR - 1);
    } else {
      DivUnique((q + 1) * SECTOR, UINT32_RANGE, 0, (q + 1) * SECTOR);
      DivUnique((q + 1) * SECTOR, SECTOR, q + 1, 0);
      DivUnique(n + SECTOR - 1, SECTOR, q + 1, r - 1);
    }
  }

  lemma Wrapped(address: Uint32, size: Uint32)
    requires size > 0 && address + size > UINT32_RANGE - SECTOR
    ensures EndBlock(address, size) <= (address + size - 1) / SECTOR
  {
  }

  /** A size of zero erases nothing, or the one sector holding an unaligned address. */
  lemma ZeroSize(address: Uint32)
    ensures var first, end := StartBlock(address), EndBlock(address, 0);
            if address % SECTOR != 0 && address < UINT32_RANGE - SECTOR then end == first + 1 else end <= first
  {
    var q, r := address / SECTOR, address % SECTOR;
    DivUnique(address, UINT32_RANGE, 0, address);
    if r == 0 {
      DivUnique(address, SECTOR, q, 0);
    } else if address < UINT32_RANGE - SECTOR {
      DivUnique((q + 1) * SECTOR, UINT32_RANGE, 0, (q + 1) * SECTOR);
      DivUnique((q + 1) * SECTOR, SECTOR, q + 1, 0);
    } else {
      DivUnique(address, SECTOR, SECTORS - 1, r);
      DivUnique(SECTORS * SECTOR, UINT32_RANGE, 1, 0);
      DivUnique(0, SECTOR, 0, 0);
    }
  }
}

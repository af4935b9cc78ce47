/** CopyAndReboot of the mcxw23 platform: the new image is copied over the running one, from RAM. */
module OtaCopy {
  import opened MachineWords
  import opened Arithmetic
  import opened Intervals
  import opened ByteValue
  import opened NorFlash

  const COPY_BUFFER_SIZE := 512

  /** ((x - 1) / unit + 1) * unit in 32-bit arithmetic, as the code writes it. */
  function RoundedUp(x: Uint32, unit: nat): Uint32
    requires unit > 0
  {
    ((x - 1) % UINT32_RANGE / unit + 1) * unit % UINT32_RANGE
  }

  /** s with the bytes from start on replaced by data. */
  function Over(s: seq<Byte>, start: nat, data: seq<Byte>): (r: seq<Byte>)
    requires start + |data| <= |s|
    ensures |r| == |s|
  {
    s[..start] + data + s[start + |data|..]
  }

  lemma OverStep(was: seq<Byte>, start: nat, data: seq<Byte>, i: nat)
    requires i < |data| && start + |data| <= |was|
    ensures Over(was, start, data[..i])[start + i := data[i]] == Over(was, start, data[..i + 1])
  {
  }

  lemma OverFront(was: seq<Byte>, data: seq<Byte>)
    requires |data| <= |was|
    ensures Over(was, 0, data) == data + was[|data|..]
  {
  }

  lemma OverNothing(was: seq<Byte>, start: nat)
    requires start <= |was|
    ensures Over(was, start, []) == was
  {
  }

  /** The units of the device: whole phrases in the buffer and in a sector, whole sectors in 4 GiB. */
  predicate Units(sector: nat, phrase: nat) {
    && phrase > 0 && COPY_BUFFER_SIZE % phrase == 0
    && sector > 0 && sector % phrase == 0 && UINT32_RANGE % sector == 0
  }

  class Device {
    /** The addressable flash, from address 0. */
    const memory: array<Byte>
    const buffer: array<Byte>
    const sector: nat
    const phrase: nat
    /** How many bytes each driver call gets through; it succeeds when these are all it was asked for. */
    const reach: nat -> nat
    var calls: nat
    /** The addresses erased and not programmed since. */
    ghost var writable: set<nat>

    ghost predicate Valid()
      reads this
    {
      && memory != buffer && buffer.Length == COPY_BUFFER_SIZE && memory.Length < UINT32_RANGE
      && Units(sector, phrase) && memory.Length % sector == 0
    }

    /** No driver call ever falls short. */
    ghost predicate Reliable() { forall n :: reach(n) >= memory.Length }

    constructor (size: nat, sector: nat, phrase: nat, reach: nat -> nat)
      requires size < UINT32_RANGE && Units(sector, phrase) && size % sector == 0
      ensures Valid() && fresh(memory) && fresh(buffer) && memory.Length == size
      ensures this.sector == sector && this.phrase == phrase && this.reach == reach
    {
      memory, buffer := new Byte[size], new Byte[COPY_BUFFER_SIZE];
      this.sector, this.phrase, this.reach := sector, phrase, reach;
      calls, writable := 0, {};
    }

    method SetAll(start: nat, length: nat)
      requires start + length <= memory.Length
      modifies memory
      ensures memory[..] == Over(old(memory[..]), start, Blanks(length))
    {
      hide Over;
      ghost var was, data := memory[..], Blanks(length);
      OverNothing(was, start);
      for i := 0 to length
        invariant memory[..] == Over(was, start, data[..i])
      {
        OverStep(was, start, data, i);
        memory[start + i] := 0xFF;
      }
      assert data[..length] == data;
    }

    method Store(start: nat, length: nat)
      requires memory != buffer && start + length <= memory.Length && length <= buffer.Length
      modifies memory
      ensures memory[..] == Over(old(memory[..]), start, buffer[..length])
    {
      hide Over;
      ghost var was, data := memory[..], buffer[..length];
      OverNothing(was, start);
      for i := 0 to length
        invariant memory[..] == Over(was, start, data[..i])
      {
        OverStep(was, start, data, i);
        memory[start + i] := buffer[i];
      }
      assert data[..length] == data;
    }

    /** The ROM's flash_erase; a failing call may have erased a part. */
    method Erase(start: nat, length: nat) returns (ok: bool, ghost done: nat)
      requires Valid() && start % sector == 0 && length % sector == 0 && start + length <= memory.Length
      modifies this, memory
      ensures Valid() && done <= length && (ok <==> done == length) && (Reliable() ==> ok)
      ensures memory[..] == Over(old(memory[..]), start, Blanks(done))
      ensures writable == old(writable) + Between(start, start + done)
    {
      var n := if reach(calls) < length then reach(calls) else length;
      calls := calls + 1;
      SetAll(start, n);
      writable := writable + Between(start, start + n);
      ok, done := n == length, n;
    }

    /**
     * The ROM's flash_program: whole phrases only, each erased since it was last programmed. A failing call may
     * have programmed a part.
     */
    method Program(start: nat, length: nat) returns (ok: bool, ghost done: nat)
      requires Valid() && start % phrase == 0 && length % phrase == 0
      requires start + length <= memory.Length && length <= COPY_BUFFER_SIZE
      requires Between(start, start + length) <= writable
      modifies this, memory
      ensures Valid() && buffer[..] == old(buffer[..])
      ensures done <= length && (ok <==> done == length) && (Reliable() ==> ok)
      ensures memory[..] == Over(old(memory[..]), start, buffer[..done])
      ensures writable == old(writable) - Between(start, start + done)
    {
      var n := if reach(calls) < length then reach(calls) else length;
      calls := calls + 1;
      Store(start, n);
      writable := writable - Between(start, start + n);
      ok, done := n == length, n;
    }

    /** The inner loop: one chunk into the buffer, whose other bytes stay as they were. */
    method FillBuffer(source: nat, chunkSize: nat)
      requires Valid() && chunkSize <= COPY_BUFFER_SIZE && source + chunkSize <= memory.Length
      modifies buffer
      ensures buffer[..] == memory[source..source + chunkSize] + old(buffer[chunkSize..])
    {
      ghost var was, data := buffer[..], memory[source..source + chunkSize];
      hide Over;
      OverNothing(was, 0);
      for i := 0 to chunkSize
        invariant buffer[..] == Over(was, 0, data[..i])
      {
        OverStep(was, 0, data, i);
        assert memory[source + i] == data[i];
        buffer[i] := memory[source + i];
      }
      assert data[..chunkSize] == data;
      OverFront(was, data);
    }

    /** The body of the copy loop; seen is what the reads from the source will find. */
    method CopyChunk(source: nat, offset: nat, copySize: Uint32, ghost seen: seq<Byte>, ghost erasedEnd: nat)
      returns (ok: bool, chunkSize: nat)
      requires Valid() && copySize > 0 && offset + copySize == |seen|
      requires erasedEnd % phrase == 0 && Copied(memory[..], writable, seen, source, offset, erasedEnd)
      modifies this, memory, buffer
      ensures Valid() && chunkSize == if copySize < COPY_BUFFER_SIZE then copySize else COPY_BUFFER_SIZE
      ensures ok ==> Copied(memory[..], writable, seen, source, offset + chunkSize, erasedEnd)
      ensures (Reliable() ==> ok) && SameAbove(old(memory[..]), memory[..], erasedEnd)
    {
      hide Copied, Over, Units, RoundedUp, SameAbove;
      chunkSize := if copySize < COPY_BUFFER_SIZE then copySize else COPY_BUFFER_SIZE;
      CopiedFacts(memory[..], writable, seen, source, offset, erasedEnd);
      PadFits(chunkSize, sector, phrase, offset, erasedEnd);
      var writeSize := RoundedUp(chunkSize, phrase);
      FillBuffer(source + offset, chunkSize);
      ok := ProgramBuffer(offset, chunkSize, writeSize, source, seen, erasedEnd);
    }

    /** The program call of the loop: the buffer holds a chunk and whatever was behind it. */
    method ProgramBuffer(offset: nat, ghost chunkSize: nat, writeSize: nat, ghost source: nat, ghost seen: seq<Byte>,
                         ghost erasedEnd: nat)
      returns (ok: bool)
      requires Valid() && Copied(memory[..], writable, seen, source, offset, erasedEnd)
      requires phrase > 0 && offset % phrase == 0 && writeSize % phrase == 0
      requires 0 < chunkSize <= writeSize <= COPY_BUFFER_SIZE && offset + chunkSize <= |seen|
      requires offset + writeSize <= erasedEnd <= memory.Length && source + |seen| <= memory.Length
      requires offset + chunkSize < |seen| ==> chunkSize == COPY_BUFFER_SIZE
      requires buffer[..chunkSize] == memory[source + offset..source + offset + chunkSize]
      modifies this, memory
      ensures Valid() && (Reliable() ==> ok) && SameAbove(old(memory[..]), memory[..], erasedEnd)
      ensures ok ==> Copied(memory[..], writable, seen, source, offset + chunkSize, erasedEnd)
    {
      hide Copied, Over, Units, SameAbove;
      ghost var was, before, data := memory[..], writable, buffer[..writeSize];
      CopiedFacts(was, before, seen, source, offset, erasedEnd);
      RangeWithin(offset, offset + writeSize, erasedEnd);
      ghost var done;
      ok, done := Program(offset, writeSize);
      assert data[..done] == buffer[..done];
      OverKeepsAbove(was, offset, data[..done], erasedEnd);
      if ok {
        assert data[..done] == data;
        assert data[..chunkSize] == was[source + offset..source + offset + chunkSize];
        ChunkCopied(was, before, seen, source, offset, erasedEnd, chunkSize, data);
      }
    }

    /**
     * CopyAndReboot: true when the reset is reached, false when it stays in OtaPanic. The image arrives except for
     * the part of its source that the erase took, which arrives as 0xFF.
     */
    method CopyAndReboot(imageAddr: Uint32, imageSz: Uint32) returns (rebooted: bool)
      requires Valid() && sector > 0 && imageAddr + imageSz <= memory.Length
      modifies this, memory, buffer
      ensures Valid()
      ensures Reliable() ==> rebooted
      ensures rebooted ==> memory[..imageSz]
                           == Seen(old(memory[imageAddr..imageAddr + imageSz]), imageAddr, WholeUnits(imageSz, sector))
      ensures SameAbove(old(memory[..]), memory[..], WholeUnits(imageSz, sector))
    {
      hide Copied, Over, Units, RoundedUp, SameAbove, WholeUnits, Seen;
      rebooted := true;
      var copySize, source, offset := imageSz, imageAddr, 0;
      ghost var was, image, erasedEnd := memory[..], memory[imageAddr..imageAddr + imageSz], WholeUnits(imageSz, sector);
      ghost var seen := Seen(image, imageAddr, erasedEnd);
      EraseFits(imageSz, sector, phrase, memory.Length);
      ghost var done;
      rebooted, done := Erase(0, RoundedUp(imageSz, sector));
      OverKeepsAbove(was, 0, Blanks(done), erasedEnd);
      if !rebooted {
        return;
      }
      NothingCopied(was, writable, image, imageAddr, erasedEnd);
      while copySize > 0
        invariant Valid() && rebooted && offset + copySize == imageSz && source == imageAddr + offset
        invariant Copied(memory[..], writable, seen, imageAddr, offset, erasedEnd)
        invariant SameAbove(was, memory[..], erasedEnd)
        decreases copySize
      {
        ghost var middle := memory[..];
        var chunkSize;
        rebooted, chunkSize := CopyChunk(imageAddr, offset, copySize, seen, erasedEnd);
        SameAboveTrans(was, middle, memory[..], erasedEnd);
        if !rebooted {
          return;
        }
        copySize, offset, source := copySize - chunkSize, offset + chunkSize, source + chunkSize;
      }
      CopiedFacts(memory[..], writable, seen, imageAddr, imageSz, erasedEnd);
      assert seen[..imageSz] == seen;
    }
  }

  // ----- what the loop keeps

  /** The image as read back from its source after the erase. */
  function Seen(image: seq<Byte>, source: nat, erasedEnd: nat): (seen: seq<Byte>)
    ensures |seen| == |image|
  {
    seq(|image|, i requires 0 <= i < |image| => if source + i < erasedEnd then 0xFF else image[i])
  }

  /** The whole image arrives if and only if the erase takes none of it, or only bytes that are 0xFF anyway. */
  lemma ArrivesExactly(image: seq<Byte>, source: nat, erasedEnd: nat)
    ensures Seen(image, source, erasedEnd) == image
            <==> forall i :: 0 <= i < |image| && source + i < erasedEnd ==> image[i] == 0xFF
    ensures erasedEnd <= source ==> Seen(image, source, erasedEnd) == image
  {
    var seen := Seen(image, source, erasedEnd);
    if seen == image {
      assert forall i :: 0 <= i < |image| ==> image[i] == seen[i];
    }
  }

  /** The first offset bytes are there, the others are still to be read, and until then everything from offset to
      the end of the erased range can still be programmed. */
  ghost predicate Copied(memory: seq<Byte>, writable: set<nat>, seen: seq<Byte>, source: nat, offset: nat, erasedEnd: nat) {
    && offset <= |seen| <= erasedEnd <= |memory| && source + |seen| <= |memory|
    && memory[..offset] == seen[..offset]
    && memory[source + offset..source + |seen|] == seen[offset..]
    && (offset < |seen| ==> offset % COPY_BUFFER_SIZE == 0 && Between(offset, erasedEnd) <= writable)
  }

  predicate SameAbove(before: seq<Byte>, after: seq<Byte>, end: nat) {
    |before| == |after| && end <= |before| && before[end..] == after[end..]
  }

  lemma OverKeepsAbove(s: seq<Byte>, start: nat, data: seq<Byte>, end: nat)
    requires start + |data| <= end <= |s|
    ensures SameAbove(s, Over(s, start, data), end)
  {
  }

  lemma SameAboveTrans(a: seq<Byte>, b: seq<Byte>, c: seq<Byte>, end: nat)
    requires SameAbove(a, b, end) && SameAbove(b, c, end)
    ensures SameAbove(a, c, end)
  {
  }

  lemma CopiedFacts(memory: seq<Byte>, writable: set<nat>, seen: seq<Byte>, source: nat, offset: nat, erasedEnd: nat)
    requires Copied(memory, writable, seen, source, offset, erasedEnd)
    ensures offset <= |seen| <= erasedEnd <= |memory| && source + |seen| <= |memory|
    ensures memory[..offset] == seen[..offset]
    ensures offset < |seen| ==> offset % COPY_BUFFER_SIZE == 0 && Between(offset, erasedEnd) <= writable
  {
  }

  lemma RangeWithin(first: nat, end: nat, limit: nat)
    requires end <= limit
    ensures Between(first, end) <= Between(first, limit)
  {
  }

  /** After the erase the source reads as it will be seen, and the whole target is writable. */
  lemma NothingCopied(was: seq<Byte>, writable: set<nat>, image: seq<Byte>, source: nat, erasedEnd: nat)
    requires |image| <= erasedEnd <= |was| && source + |image| <= |was|
    requires image == was[source..source + |image|] && Between(0, erasedEnd) <= writable
    ensures var now := Over(was, 0, Blanks(erasedEnd));
            Copied(now, writable, Seen(image, source, erasedEnd), source, 0, erasedEnd)
  {
    var now, seen := Over(was, 0, Blanks(erasedEnd)), Seen(image, source, erasedEnd);
    forall i | 0 <= i < |image| ensures now[source + i] == seen[i] {
      assert image[i] == was[source + i];
    }
    assert now[source..source + |image|] == seen == seen[0..];
  }

  lemma SourceUntouched(was: seq<Byte>, start: nat, data: seq<Byte>, source: nat, n: nat)
    requires start + |data| <= source && source + n <= |was|
    ensures Over(was, start, data)[source..source + n] == was[source..source + n]
  {
  }

  lemma StillWritable(writable: set<nat>, first: nat, middle: nat, end: nat)
    requires first <= middle && Between(first, end) <= writable
    ensures Between(middle, end) <= writable - Between(first, middle)
  {
  }

  lemma CutAt(rest: seq<Byte>, seen: seq<Byte>, offset: nat, chunkSize: nat)
    requires offset + chunkSize <= |seen| && rest == seen[offset..]
    ensures rest[..chunkSize] == seen[offset..offset + chunkSize] && rest[chunkSize..] == seen[offset + chunkSize..]
    ensures seen[..offset + chunkSize] == seen[..offset] + seen[offset..offset + chunkSize]
  {
  }

  lemma RestOf(s: seq<Byte>, from: nat, to: nat, n: nat)
    requires from + n <= to <= |s|
    ensures s[from..to][..n] == s[from..from + n] && s[from..to][n..] == s[from + n..to]
  {
  }

  /**
   * One program call of a padded chunk keeps the loop's invariant, whatever the padding is and wherever the source
   * lies: it only reaches bytes that were read before.
   */
  lemma ChunkCopied(was: seq<Byte>, writable: set<nat>, seen: seq<Byte>, source: nat, offset: nat, erasedEnd: nat,
                    chunkSize: nat, data: seq<Byte>)
    requires Copied(was, writable, seen, source, offset, erasedEnd) && offset + chunkSize <= |seen|
    requires chunkSize <= |data| && offset + |data| <= erasedEnd
    requires data[..chunkSize] == was[source + offset..source + offset + chunkSize]
    requires offset + chunkSize < |seen| ==>
               chunkSize == |data| == COPY_BUFFER_SIZE && offset % COPY_BUFFER_SIZE == 0
    ensures var now, left := Over(was, offset, data), writable - Between(offset, offset + |data|);
            Copied(now, left, seen, source, offset + chunkSize, erasedEnd)
  {
    hide Over, Between;
    var now, next := Over(was, offset, data), offset + chunkSize;
    CutAt(was[source + offset..source + |seen|], seen, offset, chunkSize);
    RestOf(was, source + offset, source + |seen|, chunkSize);
    OverPrefix(was, offset, data, chunkSize);
    if next < |seen| {
      SourceUntouched(was, offset, data, source + next, |seen| - next);
      StillWritable(writable, offset, next, erasedEnd);
      assert (offset + COPY_BUFFER_SIZE) % COPY_BUFFER_SIZE == 0;
    } else {
      assert now[source + next..source + |seen|] == seen[next..] == [];
    }
  }

  lemma OverPrefix(was: seq<Byte>, start: nat, data: seq<Byte>, n: nat)
    requires start + |data| <= |was| && n <= |data|
    ensures Over(was, start, data)[..start + n] == was[..start] + data[..n]
  {
  }

  // ----- sizes

  /** x rounded up to whole units, over the integers. */
  function WholeUnits(x: nat, unit: nat): nat
    requires unit > 0
  {
    if x == 0 then 0 else ((x - 1) / unit + 1) * unit
  }

  lemma WholeUnitsFacts(x: nat, unit: nat)
    requires unit > 0
    ensures WholeUnits(x, unit) % unit == 0 && x <= WholeUnits(x, unit) < x + unit
  {
    if x > 0 {
      var q, r := (x - 1) / unit, (x - 1) % unit;
      MulDistributes(q, 1, unit);
      DivUnique(WholeUnits(x, unit), unit, q + 1, 0);
    }
  }

  lemma RoundedUpIs(x: Uint32, unit: nat)
    requires 0 < x && unit > 0 && WholeUnits(x, unit) < UINT32_RANGE
    ensures RoundedUp(x, unit) == WholeUnits(x, unit)
  {
  }

  lemma NextMultiple(x: nat, y: nat, unit: nat)
    requires unit > 0 && x % unit == 0 && y % unit == 0 && x < y
    ensures x + unit <= y
  {
    var a, b := x / unit, y / unit;
    if b <= a {
      MulMonotone(b, a, unit);
    }
    MulMonotone(a + 1, b, unit);
    MulDistributes(a, 1, unit);
  }

  /** The next multiple of a unit is not past any other multiple. */
  lemma WholeUnitsLeast(x: nat, unit: nat, y: nat)
    requires unit > 0 && y % unit == 0 && x <= y
    ensures WholeUnits(x, unit) <= y
  {
    hide WholeUnits;
    WholeUnitsFacts(x, unit);
    var whole := WholeUnits(x, unit);
    if y < whole {
      NextMultiple(y, whole, unit);
    }
  }

  lemma MulAssociates(a: int, b: int, c: int)
    ensures a * (b * c) == a * b * c
  {
  }

  lemma MultipleOfMultiple(x: nat, big: nat, unit: nat)
    requires big > 0 && unit > 0 && x % big == 0 && big % unit == 0
    ensures x % unit == 0
  {
    var k, m := x / big, big / unit;
    MulAssociates(k, m, unit);
    DivUnique(x, unit, k * m, 0);
  }

  lemma MultiplesDiffer(x: nat, y: nat, unit: nat)
    requires unit > 0 && x <= y && x % unit == 0 && y % unit == 0
    ensures (y - x) % unit == 0
  {
    var a, b := x / unit, y / unit;
    MulDistributes(b, a, unit);
    if b < a {
      MulMonotone(b + 1, a, unit);
      MulDistributes(b, 1, unit);
    }
    DivUnique(y - x, unit, b - a, 0);
  }

  /** The padded write holds the chunk, fits the buffer, is aligned, and stays inside the erased range. */
  lemma PadFits(chunkSize: nat, sector: nat, phrase: nat, offset: nat, erasedEnd: nat)
    requires Units(sector, phrase) && 0 < chunkSize <= COPY_BUFFER_SIZE && offset % COPY_BUFFER_SIZE == 0
    requires erasedEnd % phrase == 0 && offset + chunkSize <= erasedEnd
    ensures phrase > 0 && offset % phrase == 0
    ensures var writeSize := RoundedUp(chunkSize, phrase);
            && chunkSize <= writeSize <= COPY_BUFFER_SIZE && writeSize % phrase == 0
            && offset + writeSize <= erasedEnd
  {
    hide RoundedUp, WholeUnits;
    WholeUnitsFacts(chunkSize, phrase);
    WholeUnitsLeast(chunkSize, phrase, COPY_BUFFER_SIZE);
    RoundedUpIs(chunkSize, phrase);
    MultipleOfMultiple(offset, COPY_BUFFER_SIZE, phrase);
    MultiplesDiffer(offset, erasedEnd, phrase);
    WholeUnitsLeast(chunkSize, phrase, erasedEnd - offset);
  }

  /** The erased range is the fewest whole sectors that hold the image, and lies in flash if the image does. */
  lemma EraseFits(imageSz: Uint32, sector: nat, phrase: nat, size: Uint32)
    requires Units(sector, phrase) && imageSz <= size && size % sector == 0
    ensures sector > 0 && phrase > 0
    ensures var length := RoundedUp(imageSz, sector);
            && length == WholeUnits(imageSz, sector) && length % sector == 0 && length % phrase == 0
            && imageSz <= length < imageSz + sector && length <= size
  {
    hide RoundedUp, WholeUnits;
    WholeUnitsFacts(imageSz, sector);
    WholeUnitsLeast(imageSz, sector, size);
    if imageSz > 0 {
      RoundedUpIs(imageSz, sector);
    } else {
      NothingToErase(sector);
    }
    MultipleOfMultiple(WholeUnits(imageSz, sector), sector, phrase);
  }

  /** For an empty image image_sz - 1 wraps, and so does the rounded length, back to zero. */
  lemma NothingToErase(sector: nat)
    requires sector > 0 && UINT32_RANGE % sector == 0
    ensures RoundedUp(0, sector) == 0 && WholeUnits(0, sector) == 0
  {
    var k := UINT32_RANGE / sector;
    MulDistributes(k, 1, sector);
    DivUnique(UINT32_RANGE - 1, sector, k - 1, sector - 1);
  }
}

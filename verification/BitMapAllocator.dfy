/** The bitmap allocator object over its byte array and its memory map (Memory/BitMapAllocator). */
module BitMapAllocators {
  import opened Machine
  import opened Regions
  import opened ClaimRules
  import opened MemoryMaps
  import opened Frames
  import opened AllocatorRules
  import opened RunRules
  import opened InitRules
  import opened RunLengths
  import opened Bits

  /** Searching on behind a used frame skips no place where the run would fit. */
  lemma {:induction false} SkipBlocked(s: Pmm, b: nat, i: nat, f: nat)
    requires b <= i < s.g.frames && i < b + f && i in s.bits
    ensures FirstFit(s, b, f) == FirstFit(s, i + 1, f)
    decreases i - b
  {
    assert !RunAt(s, b, f);
    if b + f > s.g.frames {
      NoRoomLeft(s, i + 1, f);
    } else if b < i {
      SkipBlocked(s, b + 1, i, f);
    }
  }

  lemma NoRoomLeft(s: Pmm, b: nat, f: nat)
    requires b <= s.g.frames && b + f > s.g.frames
    ensures FirstFit(s, b, f) == INVALID_PAGE
  {
  }

  datatype PMMStartFailure = NO_FAILURE | MEMORY_RANGE_DETECTION_FAILED | OUT_OF_MEMORY | MEMORY_INDEX_INIT_FAILED

  class BitMapAllocator {
    const memMap: MemoryMap
    const bitmap: array<bv8>
    var pageSize: U64
    var memBase: U64
    var memSize: U32
    var pBitmap: U64
    var bitmapSize: U32
    var init: bool

    /** The object before `start`: it knows its map and the memory its bitmap will be written to. */
    constructor (memMap: MemoryMap, bitmap: array<bv8>)
      ensures this.memMap == memMap && this.bitmap == bitmap && !init && memSize == 0 && pageSize == 0
    {
      this.memMap, this.bitmap := memMap, bitmap;
      pageSize, memBase, memSize, pBitmap, bitmapSize, init := 0, 0, 0, 0, 0, false;
    }

    ghost predicate Valid()
      reads this, memMap, memMap.entries, bitmap
    {
      memMap.Valid() && 0 < pageSize < TWO_32 && memSize / 8 < bitmap.Length
      && bitmap as object != memMap.entries
    }

    ghost function Geo(): Geometry
      reads this
    {
      Geometry(memBase, pageSize, memSize)
    }

    /** The abstract allocator this object represents. */
    ghost function Abs(): Pmm
      reads this, memMap, memMap.entries, bitmap
      requires memMap.Valid()
    {
      Pmm(Geo(), memMap.Regions(), SetBits(bitmap[..]), pBitmap, bitmapSize, init)
    }

    function ToPageFrame(addr: U64): U32
      reads this
      requires pageSize > 0
    {
      Wrap32(Wrap64(addr - memBase) / pageSize)
    }

    method IsFree(pageFrame: U32) returns (free: bool)
      requires Valid()
      ensures free == FrameFree(Abs(), pageFrame)
    {
      if pageFrame > memSize {
        return true;
      }
      var byte := pageFrame / BIT_COUNT_BYTE;
      var bit := pageFrame % BIT_COUNT_BYTE;
      BitIsClear(bitmap[..], pageFrame);
      free := bitmap[byte] & ((1 as bv8) << bit) == 0;
    }

    method Mark(pageFrame: U32, inUse: bool)
      requires Valid() && pageFrame / 8 < bitmap.Length
      modifies bitmap
      ensures Valid()
      ensures var was := old(Abs());
              Abs() == was.(bits := if inUse then was.bits + {pageFrame} else was.bits - {pageFrame})
    {
      hide SetBits, OrBit, AndNotBit;
      ghost var bs := bitmap[..];
      MarkBit(bs, pageFrame);
      var byte := pageFrame / BIT_COUNT_BYTE;
      var bit := pageFrame % BIT_COUNT_BYTE;
      if inUse {
        bitmap[byte] := OrBit(bitmap[byte], bit);
        assert bitmap[..] == WithBit(bs, pageFrame);
      } else {
        bitmap[byte] := AndNotBit(bitmap[byte], bit);
        assert bitmap[..] == WithoutBit(bs, pageFrame);
      }
    }

    method MarkMemoryBlock(base: U32, size: U32, inUse: bool) returns (ok: bool)
      requires Valid()
      modifies bitmap
      ensures Valid()
      ensures ok == MarkBlock(old(Abs()), base, size, inUse).0
      ensures Abs() == old(Abs()).(bits := MarkBlock(old(Abs()), base, size, inUse).1)
    {
      hide SetBits, FrameRange;
      ghost var s := Abs();
      FirstFrameIsZero(Geo());
      if base < ToPageFrame(memBase) || Wrap32(base + size) > Wrap32(ToPageFrame(memBase) + memSize) {
        return false;
      }
      var i := base;
      NoFrames(base, base);
      while i < Wrap32(base + size)
        invariant base <= i <= Max(base, Wrap32(base + size))
        invariant Valid()
        invariant Abs() == s.(bits := if inUse then s.bits + FrameRange(base, i) else s.bits - FrameRange(base, i))
      {
        RangeNext(base, i);
        Mark(i, inUse);
        i := i + 1;
      }
      NoFrames(base, Wrap32(base + size));
      ok := true;
    }

    method MarkMemoryRegion(baseBytes: U64, sizeBytes: U64, inUse: bool) returns (ok: bool)
      requires Valid()
      modifies bitmap
      ensures Valid()
      ensures ok == MarkRegion(old(Abs()), baseBytes, sizeBytes, inUse).0
      ensures Abs() == old(Abs()).(bits := MarkRegion(old(Abs()), baseBytes, sizeBytes, inUse).1)
    {
      hide MarkBlock, SetBits;
      var base: U32;
      var size: U32;
      if inUse {
        base := ToPageFrame(baseBytes);
        size := Wrap32(DivRoundUp(sizeBytes, pageSize));
      } else {
        base := Wrap32(DivRoundUp(Wrap64(baseBytes - memBase), pageSize));
        size := Wrap32(sizeBytes / pageSize);
      }
      ok := MarkMemoryBlock(base, size, inUse);
    }

    method FindFreeRegion(frames: U64) returns (r: U32)
      requires Valid()
      ensures r == FirstFit(Abs(), 0, Wanted(frames))
    {
      hide SetBits;
      ghost var s := Abs();
      var currentRegionStart: nat := 0;
      var currentRegionSize: nat := 0;
      var i: nat := 0;
      while i < memSize
        invariant 0 <= currentRegionStart <= i <= memSize && currentRegionSize == i - currentRegionStart
        invariant RunAt(s, currentRegionStart, currentRegionSize) && currentRegionSize < Wanted(frames)
        invariant FirstFit(s, currentRegionStart, Wanted(frames)) == FirstFit(s, 0, Wanted(frames))
      {
        var free := IsFree(i);
        if free {
          currentRegionSize := currentRegionSize + 1;
          if currentRegionSize >= frames {
            return currentRegionStart;
          }
        } else {
          SkipBlocked(s, currentRegionStart, i, Wanted(frames));
          currentRegionStart := i + 1;
          currentRegionSize := 0;
        }
        i := i + 1;
      }
      NoRoomLeft(s, currentRegionStart, Wanted(frames));
      r := INVALID_PAGE;
    }

    method IsReservedOrBitMapAddress(pAddr: U64, frames: U64) returns (code: int)
      requires Valid()
      ensures code == Verdict(Abs(), pAddr, frames)
    {
      hide SetBits, MemoryAlign;
      ghost var s := Abs();
      var end := Wrap64(pAddr + Wrap64(frames * pageSize));
      if init && pBitmap < end && pAddr < MemoryAlign(Wrap64(pBitmap + bitmapSize), pageSize, false) {
        return -1;
      }
      assert !IndexGuards(s, pAddr, frames);
      var i := 0;
      while i < memMap.numRegions
        invariant 0 <= i <= memMap.numRegions
        invariant forall j :: 0 <= j < i ==> !Guards(s, s.regions[j], pAddr, frames)
      {
        var region := memMap.entries[i];
        assert region == s.regions[i];
        if region.memoryType != USABLE
           && region.Contains(MemoryRegion(pAddr, Wrap64(Wrap32(frames) * pageSize), NONE)) {
          assert Guards(s, s.regions[i], pAddr, frames);
          return -2;
        }
        i := i + 1;
      }
      code := 0;
    }

    method Allocate(frames: U64) returns (ok: bool, pAddr: U64)
      requires Valid()
      modifies bitmap
      ensures Valid()
      ensures (Abs(), ok, pAddr) == AllocateStep(old(Abs()), frames)
    {
      hide SetBits, MarkBlock, FirstFit;
      var base := FindFreeRegion(frames);
      if base == INVALID_PAGE {
        return false, 0;
      }
      var _ := MarkMemoryBlock(base, Wrap32(frames), true);
      ok, pAddr := true, Wrap64(memBase + Wrap64(base * pageSize));
    }

    method AllocateExplicit(pAddr: U64, frames: U64) returns (ok: bool)
      requires Valid()
      modifies bitmap
      ensures Valid()
      ensures (Abs(), ok) == ExplicitStep(old(Abs()), pAddr, frames)
    {
      hide SetBits, MarkBlock, Verdict, Wrap64;
      ghost var s := Abs();
      var errCode := IsReservedOrBitMapAddress(pAddr, frames);
      if errCode < 0 {
        return false;
      }
      var base := ToPageFrame(pAddr);
      var i: nat := base;
      while i < Wrap64(base + frames)
        invariant base <= i && Valid() && Abs() == s
        invariant forall j: nat :: base <= j < i ==> FreeAt(s, j)
      {
        var free := IsFree(Wrap32(i));
        assert free == FreeAt(s, i);
        if !free {
          return false;
        }
        i := i + 1;
      }
      ok := MarkMemoryBlock(base, Wrap32(frames), true);
    }

    method Free(pAddr: U64, frames: U64) returns (ok: bool)
      requires Valid()
      modifies bitmap
      ensures Valid()
      ensures (Abs(), ok) == FreeStep(old(Abs()), pAddr, frames)
    {
      hide SetBits, MarkRegion, Verdict;
      var errCode := IsReservedOrBitMapAddress(pAddr, frames);
      if errCode < 0 {
        return false;
      }
      ok := MarkMemoryRegion(pAddr, Wrap64(frames * pageSize), false);
    }

    /**
     * Writes the states of the frames between two addresses as regions, as many as fit. An empty request
     * inside the managed range still yields the one page its start lies in.
     */
    method ReadPageFrameStates(buf: array<MemoryRegion>, bufSize: nat, start: U64, end: U64) returns (n: nat)
      requires Valid() && ValidGeometry(Geo()) && bufSize <= buf.Length && buf != memMap.entries
               && buf as object != bitmap
      modifies buf
      ensures Valid() && Abs() == old(Abs()) && n <= bufSize && buf[n..] == old(buf[n..])
      ensures start < memBase || end > FrameStart(Geo(), memSize) ==> n == 0
      ensures memBase <= start < end <= FrameStart(Geo(), memSize) ==>
                var a, e := FloorFrame(Geo(), start), CeilFrame(Geo(), end);
                0 <= a < e <= memSize && var rs := RunsFrom(Abs(), a, a + 1, e);
                n == Min(bufSize, |rs|) && buf[..n] == rs[..n]
      ensures memBase <= start && end <= FrameStart(Geo(), memSize) && end <= start ==>
                n == Min(1, bufSize)
                && (n == 1 ==> buf[0].start == Floor(start, pageSize) && buf[0].size == pageSize
                               && var k := Wrap32(FloorFrame(Geo(), start));
                                  buf[0].memoryType == if k > memSize || k !in Abs().bits then USABLE else USED)
    {
      hide SetBits, FrameFree, ValidGeometry, FloorFrame, CeilFrame, FrameStart, RunsFrom, MemoryAlign, MemoryIsAligned,
        Floor, Wrap64, Wrap32;
      ghost var s := Abs();
      ghost var g := Geo();
      LimitFits(g);
      var limit := Wrap64(memBase + Wrap64(memSize * pageSize));
      if start < memBase || end > limit {
        return 0;
      }
      ReadBounds(g, start, end);
      var from := if MemoryIsAligned(start, pageSize) then start else MemoryAlign(start, pageSize, false);
      var to := if MemoryIsAligned(end, pageSize) then end else Min(MemoryAlign(end, pageSize, true), limit);
      var first := ToPageFrame(from);
      var last := ToPageFrame(to);
      if start < end {
        n := ReadRuns(buf, bufSize, from, first, last);
      } else {
        n := ReadEmpty(buf, bufSize, from, first);
        ReadBoundDown(g, start);
        ReadBoundFrame(g, start);
        StateMeaning(s, Wrap32(FloorFrame(g, start)));
      }
    }

    /** The run-length loop over the frames from first to last. */
    method ReadRuns(buf: array<MemoryRegion>, bufSize: nat, start: U64, first: U32, last: U32) returns (n: nat)
      requires Valid() && ValidGeometry(Geo()) && bufSize <= buf.Length && buf != memMap.entries
               && buf as object != bitmap
      requires first < last <= memSize && start == FrameStart(Geo(), first)
      modifies buf
      ensures n <= bufSize && Valid() && Abs() == old(Abs()) && buf[n..] == old(buf[n..])
      ensures var rs := RunsFrom(Abs(), first, first + 1, last);
              n == Min(bufSize, |rs|) && buf[..n] == rs[..n]
    {
      hide SetBits, FrameFree, ValidGeometry, FrameStart, RunSize, RunsFrom, Wrap64;
      ghost var s := Abs();
      ghost var all := RunsFrom(s, first, first + 1, last);
      ghost var before := buf[..];
      var rStart, rSize := start, pageSize;
      var free := IsFree(first);
      var rType := if free then USABLE else USED;
      n := 0;
      var i: nat := first + 1;
      ghost var a: nat := first;
      RunGrows(s.g, first, first);
      while i < last
        invariant first <= a < i <= last && n <= bufSize && Valid() && Abs() == s
        invariant rStart == FrameStart(s.g, a) && rSize == RunSize(s.g, a, i) && rType == StateOf(s, a)
        invariant all == buf[..n] + RunsFrom(s, a, i, last)
        invariant buf[n..] == before[n..]
      {
        if n >= bufSize {
          break;
        }
        free := IsFree(i);
        var cType := if free then USABLE else USED;
        RunsUnfold(s, a, i, last);
        RunGrows(s.g, a, i);
        if rType != cType {
          ghost var done := buf[..n];
          buf[n] := MemoryRegion(rStart, rSize, rType);
          assert buf[..n + 1] == done + [RunOf(s, a, i)];
          rStart := Wrap64(memBase + Wrap64(i * pageSize));
          rSize := pageSize;
          rType := cType;
          n := n + 1;
          a := i;
        } else {
          rSize := Wrap64(rSize + pageSize);
        }
        i := i + 1;
      }
      if n < bufSize {
        RunsUnfold(s, a, i, last);
        ghost var done := buf[..n];
        buf[n] := MemoryRegion(rStart, rSize, rType);
        n := n + 1;
        assert buf[..n] == done + [RunOf(s, a, i)] == all;
      }
    }

    /** The same code when the loop has nothing to do. */
    method ReadEmpty(buf: array<MemoryRegion>, bufSize: nat, start: U64, first: U32) returns (n: nat)
      requires Valid() && bufSize <= buf.Length && buf != memMap.entries && buf as object != bitmap
      modifies buf
      ensures n <= bufSize && Valid() && Abs() == old(Abs()) && buf[n..] == old(buf[n..])
      ensures n == Min(1, bufSize) && (n == 1 ==> buf[0] == MemoryRegion(start, pageSize, StateOf(Abs(), first)))
    {
      hide SetBits;
      n := 0;
      var free := IsFree(first);
      if n < bufSize {
        buf[n] := MemoryRegion(start, pageSize, if free then USABLE else USED);
        n := n + 1;
      }
    }

    /** The lowest start and the highest end over the map give the base and the frame count. */
    method DetectMemoryRange() returns (ok: bool)
      requires memMap.Valid() && pageSize > 0
      modifies this`memBase, this`memSize
      ensures ok <==> HighestEnd(memMap.Regions()) != 0
      ensures ok ==> Geo() == Detected(memMap.Regions(), pageSize)
    {
      hide LowestStart, HighestEnd;
      ghost var rs := memMap.Regions();
      memBase := TWO_64 - 1;
      var memEnd: U64 := 0;
      var i := 0;
      assert memBase == LowestStart(rs[..0]) && memEnd == HighestEnd(rs[..0]) by { RangeOfNothing(rs); }
      while i < memMap.numRegions
        invariant 0 <= i <= memMap.numRegions
        invariant memBase == LowestStart(rs[..i]) && memEnd == HighestEnd(rs[..i])
      {
        var reg := memMap.entries[i];
        assert reg == rs[i];
        RangeOfNext(rs, i);
        if reg.memoryType != NONE {
          memBase := Min(memBase, reg.start);
          memEnd := Max(memEnd, reg.End());
        }
        i := i + 1;
      }
      assert rs[..i] == rs;
      if memEnd == 0 {
        return false;
      }
      memSize := Wrap32(Wrap64(memEnd - memBase) / pageSize);
      ok := true;
    }

    /** Marks every frame used: fills the bytes of the bitmap. */
    method FillBitmap()
      requires Valid() && bitmapSize <= bitmap.Length
      modifies bitmap
      ensures Valid()
      ensures forall k: nat :: k < 8 * bitmapSize ==> k in SetBits(bitmap[..])
    {
      var i := 0;
      while i < bitmapSize
        invariant 0 <= i <= bitmapSize && Valid()
        invariant forall j :: 0 <= j < i ==> bitmap[j] == MASK_BYTE
      {
        bitmap[i] := MASK_BYTE;
        i := i + 1;
      }
      FilledBits(bitmap[..], bitmapSize);
    }

    /** Frees the frames of every USABLE region. */
    method FreeUsableRegions() returns (ok: bool)
      requires Valid() && FirmwareMap(memMap.Regions(), pageSize)
      requires ValidGeometry(Geo()) && InRange(Geo(), memMap.Regions())
      requires forall k: nat :: k < memSize ==> k in Abs().bits
      modifies bitmap
      ensures Valid() && ok && Abs() == old(Abs()).(bits := Abs().bits)
      ensures forall k: nat :: k < memSize ==>
                (k in Abs().bits <==> k !in UsableFrames(Geo(), memMap.Regions(), |memMap.Regions()|))
    {
      hide SetBits, MarkRegion, UsableFrames, HighestEnd, LowestStart;
      ghost var s := Abs();
      var i := 0;
      NoUsableFrames(s.g, s.regions);
      while i < memMap.numRegions
        invariant 0 <= i <= memMap.numRegions && Valid() && Abs() == s.(bits := Abs().bits)
        invariant forall k: nat :: k < memSize ==> (k in Abs().bits <==> k !in UsableFrames(s.g, s.regions, i))
      {
        var r := memMap.entries[i];
        assert r == s.regions[i];
        UsableFramesNext(s.g, s.regions, i);
        if r.memoryType == USABLE {
          FreeRegionExact(Abs(), r);
          var marked := MarkMemoryRegion(r.start, r.size, false);
          if !marked {
            return false;
          }
        }
        i := i + 1;
      }
      ok := true;
    }

    /** Builds the bitmap at the start of region mi and takes its pages out of the map. */
    method Init0(pMemoryIndex: U64, ghost mi: nat) returns (initGood: bool)
      requires Valid() && bitmapSize <= bitmap.Length && !init
      requires FirmwareMap(memMap.Regions(), pageSize) && mi < |memMap.Regions()|
      requires Geo() == Detected(memMap.Regions(), pageSize) && bitmapSize == IndexSize(memSize)
      requires Suits(memMap.Regions()[mi], bitmapSize) && pMemoryIndex == memMap.Regions()[mi].start
      modifies this`pBitmap, this`init, memMap, memMap.entries, bitmap
      ensures Valid() && init == initGood
      ensures initGood <==> IndexFits(old(memMap.Regions()), mi, bitmapSize)
      ensures initGood ==> Started(old(memMap.Regions()), mi, Abs())
      ensures Accounts(old(memMap.Counts()), old(memMap.Regions())) ==> Accounts(memMap.Counts(), memMap.Regions())
    {
      hide SetBits, MarkRegion, UsableFrames, HighestEnd, LowestStart, FirmwareMap, Detected, ValidGeometry,
           Started, Suits;
      ghost var rs := memMap.Regions();
      DetectionCorrect(rs, pageSize);
      IndexIsLargeEnough(Geo());
      pBitmap := pMemoryIndex;
      FillBitmap();
      var freed := FreeUsableRegions();
      if !freed {
        return false;
      }
      ghost var s := Abs();
      FirmwareFacts(rs, pageSize, mi);
      MarkIndexExact(s, rs[mi], bitmapSize);
      initGood := MarkMemoryRegion(pMemoryIndex, bitmapSize, true);
      var miReg := MemoryRegion(pMemoryIndex, bitmapSize, RESERVED);
      if initGood {
        initGood := ClaimIndex(memMap, miReg, pageSize, mi);
      }
      if initGood {
        init := true;
        StartCorrect(s, mi, bitmapSize, Abs());
      }
    }

    /** The first USABLE region the bitmap fits, by address; the largest address stands for none. */
    method FindIndexRegion() returns (start: U64, ghost mi: nat)
      requires memMap.Valid()
      requires forall j :: 0 <= j < |memMap.Regions()| ==> memMap.Regions()[j].start < TWO_64 - 1
      ensures mi == FirstSuitingFrom(memMap.Regions(), bitmapSize, 0)
      ensures var rs := memMap.Regions();
              var first := FirstSuitingFrom(rs, bitmapSize, 0);
              start == if first < |rs| then rs[first].start else TWO_64 - 1
    {
      ghost var rs := memMap.Regions();
      start := TWO_64 - 1;
      var i := 0;
      while i < memMap.numRegions
        invariant 0 <= i <= memMap.numRegions && start == TWO_64 - 1
        invariant forall j :: 0 <= j < i ==> !Suits(rs[j], bitmapSize)
      {
        if memMap.entries[i].memoryType == USABLE && memMap.entries[i].size >= bitmapSize {
          start := memMap.entries[i].start;
          break;
        }
        i := i + 1;
      }
      mi := i;
      assert i < |rs| ==> Suits(rs[i], bitmapSize);
      FirstSuitingIsFirst(rs, bitmapSize, 0, i);
    }

    /** Starts the manager on the map it was given. */
    method Start(page: U64) returns (failure: PMMStartFailure)
      requires memMap.Valid() && FirmwareMap(memMap.Regions(), page) && !init
      requires bitmap as object != memMap.entries
      requires Detected(memMap.Regions(), page).frames / 8 < bitmap.Length
      modifies this, memMap, memMap.entries, bitmap
      ensures memMap.Valid()
      ensures failure == MEMORY_RANGE_DETECTION_FAILED <==> old(memMap.Regions()) == []
      ensures failure == OUT_OF_MEMORY <==>
                old(memMap.Regions()) != [] && FirstSuiting(old(memMap.Regions()), page) == |old(memMap.Regions())|
      ensures failure == NO_FAILURE <==> CanStart(old(memMap.Regions()), page)
      ensures failure == NO_FAILURE ==> Valid() && Geo() == Detected(old(memMap.Regions()), page)
      ensures failure == NO_FAILURE ==> bitmapSize == IndexSize(memSize)
      ensures failure == NO_FAILURE ==> Started(old(memMap.Regions()), FirstSuiting(old(memMap.Regions()), page), Abs())
      ensures Accounts(old(memMap.Counts()), old(memMap.Regions())) ==> Accounts(memMap.Counts(), memMap.Regions())
    {
      ghost var rs := memMap.Regions();
      hide HighestEnd, LowestStart, FirmwareMap, Started, ValidGeometry, InRange, IndexFits, Detected, FirstSuitingFrom,
        SetBits, Accounts, IndexSize;
      pageSize := page;
      FirmwarePage(rs, page);
      EmptyRange(rs, page);
      StartsBelowTop(rs, page);
      var detected := DetectMemoryRange();
      if !detected {
        return MEMORY_RANGE_DETECTION_FAILED;
      }
      DetectionCorrect(rs, page);
      IndexIsLargeEnough(Geo());
      bitmapSize := IndexSize(memSize);
      var pmmDataStart, mi := FindIndexRegion();
      if pmmDataStart == TWO_64 - 1 {
        return OUT_OF_MEMORY;
      }
      SuitingSuits(rs, bitmapSize, 0);
      var initGood := Init0(pmmDataStart, mi);
      if !initGood {
        return MEMORY_INDEX_INIT_FAILED;
      }
      failure := NO_FAILURE;
    }

    /** Makes boot loader memory USABLE in the map and free in the bitmap. */
    method ClaimBootLoaderReclaimableMemory() returns (success: bool)
      requires Valid() && Sound(Abs())
      modifies memMap, memMap.entries, bitmap
      ensures Valid()
      ensures (Abs(), success) == ReclaimFrom(old(Abs()), 0, true)
      ensures Accounts(old(memMap.Counts()), old(Abs()).regions) ==> Accounts(memMap.Counts(), Abs().regions)
    {
      hide SetBits, MarkRegion, Sound, TypeAt;
      success := true;
      var i := 0;
      while i < memMap.numRegions
        invariant 0 <= i <= memMap.numRegions
        invariant Valid() && Sound(Abs())
        invariant ReclaimFrom(Abs(), i, success) == ReclaimFrom(old(Abs()), 0, true)
        invariant Accounts(old(memMap.Counts()), old(Abs()).regions) ==> Accounts(memMap.Counts(), Abs().regions)
      {
        if memMap.entries[i].memoryType == BOOTLOADER_RECLAIMABLE {
          success := ReclaimEntry(i, success);
        }
        i := i + 1;
      }
    }

    /** One turn of the loop above. */
    method ReclaimEntry(i: nat, success: bool) returns (success': bool)
      requires Valid() && Sound(Abs()) && i < memMap.numRegions
      requires memMap.entries[i].memoryType == BOOTLOADER_RECLAIMABLE
      modifies memMap, memMap.entries, bitmap
      ensures Valid() && Sound(Abs()) && memMap.numRegions == old(memMap.numRegions)
      ensures (Abs(), success') == (ReclaimOne(old(Abs()), i).0, success && ReclaimOne(old(Abs()), i).1)
      ensures Accounts(old(memMap.Counts()), old(Abs()).regions) ==> Accounts(memMap.Counts(), Abs().regions)
    {
      hide SetBits, MarkRegion;
      ghost var s := Abs();
      var r := memMap.entries[i];
      assert r == s.regions[i];
      ReclaimOneSound(s, i);
      RetypedLength(s.regions, i);
      hide Guarded, Retyped;
      success' := success;
      var claimed := ClaimEntry(memMap, i, pageSize);
      if !claimed {
        success' := false;
      }
      MarkIgnoresMap(s, Abs(), r);
      var marked := MarkMemoryRegion(r.start, r.size, false);
      if !marked {
        success' := false;
      }
    }

  }

  /** The claim of a whole map entry for USABLE never fails. */
  method ClaimEntry(m: MemoryMap, i: nat, pageSize: U32) returns (claimed: bool)
    requires m.Valid() && 0 < pageSize && WellFormed(m.Regions(), pageSize) && i < |m.Regions()|
    requires m.Regions()[i].size > 0 && m.Regions()[i].memoryType != USABLE
    modifies m, m.entries
    ensures m.Valid() && claimed && m.Regions() == Retyped(old(m.Regions()), i)
    ensures Accounts(old(m.Counts()), old(m.Regions())) ==> Accounts(m.Counts(), m.Regions())
  {
    hide Claimable, ClaimedFrom, Accounts, WellFormed, Retyped, Charge;
    ghost var rs := m.Regions();
    var r := m.entries[i];
    WholeRegionClaimable(rs, i, pageSize);
    if Accounts(m.Counts(), rs) {
      WholeRegionAccounts(rs, i, pageSize, m.Counts());
    }
    var granted;
    claimed, granted := m.Claim(WholeRegion(r), pageSize);
    WholeRegionClaim(rs, i, pageSize, m.Regions(), granted);
  }

  lemma RetypedLength(rs: seq<MemoryRegion>, i: nat)
    requires i < |rs|
    ensures |Retyped(rs, i)| == |rs|
  {
  }

  lemma MarkIgnoresMap(s: Pmm, t: Pmm, r: MemoryRegion)
    requires s.g.pageSize > 0 && t == s.(regions := t.regions)
    ensures MarkRegion(t, r.start, r.size, false) == MarkRegion(s, r.start, r.size, false)
  {
  }

  /** The claim of the bitmap's pages. */
  method ClaimIndex(m: MemoryMap, c: MemoryRegion, pageSize: U32, ghost mi: nat) returns (claimed: bool)
    requires m.Valid() && 0 < pageSize && WellFormed(m.Regions(), pageSize) && mi < |m.Regions()|
    requires 0 < c.size < TWO_32 && Suits(m.Regions()[mi], c.size) && c == IndexRegion(m.Regions()[mi], c.size)
    modifies m, m.entries
    ensures m.Valid() && Hosts(old(m.Regions())[mi], c)
    ensures claimed <==> HasRoom(old(m.Regions()), mi, c, pageSize)
    ensures claimed ==> ClaimedAt(old(m.Regions()), mi, c, pageSize, m.Regions())
    ensures Accounts(old(m.Counts()), old(m.Regions())) ==> Accounts(m.Counts(), m.Regions())
  {
    hide Accounts, Charge, ClaimedAt, Hosts, HasRoom, Granted, PageAligned;
    ghost var rs := m.Regions();
    ghost var n := m.Counts();
    IndexHosted(rs[mi], c.size, pageSize);
    HostsAreAt(rs, mi, c, pageSize);
    hide WellFormed;
    var granted;
    claimed, granted := m.Claim(c, pageSize);
    if claimed && Accounts(n, rs) {
      ClaimedAtPermutes(rs, mi, c, pageSize, m.Regions());
      IndexAccounting(rs, mi, c, pageSize, m.Regions(), n);
    }
  }

  lemma IndexAccounting(rs: seq<MemoryRegion>, i: nat, c: MemoryRegion, p: int, ss: seq<MemoryRegion>, n: Counters)
    requires p > 0 && WellFormed(rs, p) && i < |rs| && 0 < c.size < TWO_32
    requires Suits(rs[i], c.size) && c == IndexRegion(rs[i], c.size) && Hosts(rs[i], c)
    requires multiset(ss) == multiset(Carve(rs, i, Pieces(rs[i], c, p)))
    requires Accounts(n, rs)
    ensures Accounts(Charge(n, Granted(rs[i], c, p)), ss)
  {
    IndexHosted(rs[i], c.size, p);
    ClaimAccounting(rs, i, c, p, ss, n);
  }

  lemma ClaimedAtPermutes(rs: seq<MemoryRegion>, i: nat, c: MemoryRegion, p: int, ss: seq<MemoryRegion>)
    requires p > 0 && WellFormed(rs, p) && i < |rs| && Hosts(rs[i], c) && ClaimedAt(rs, i, c, p, ss)
    ensures multiset(ss) == multiset(Carve(rs, i, Pieces(rs[i], c, p)))
  {
  }

  lemma LimitFits(g: Geometry)
    requires ValidGeometry(g)
    ensures Wrap64(g.base + Wrap64(g.frames * g.pageSize)) == FrameStart(g, g.frames)
  {
    AddressOfFrame(g, g.frames);
  }

  lemma FirstFrameIsZero(g: Geometry)
    requires g.pageSize > 0
    ensures Frames.ToPageFrame(g, g.base) == 0
  {
    DivModUnique(0, g.pageSize, 0, 0);
  }

  lemma NoFrames(base: nat, end: nat)
    ensures end <= base ==> FrameRange(base, end) == {}
  {
  }

  lemma RangeNext(base: nat, i: nat)
    requires base <= i
    ensures FrameRange(base, i + 1) == FrameRange(base, i) + {i}
  {
  }
}

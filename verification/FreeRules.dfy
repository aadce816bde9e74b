/** Which free calls are safe, for every address and every count (Memory/BitMapAllocator). */
module FreeRules {
  import opened Machine
  import opened Regions
  import opened ClaimRules
  import opened Frames
  import opened AllocatorRules

  // The frames a free call clears, as the source computes them, and the end of the request its check looks at.

  function FirstFreed(g: Geometry, p: U64): U32
    requires g.pageSize > 0
  {
    ToPageFrameRoundUp(g, p)
  }

  function FreedCount(g: Geometry, f: U64): U32
    requires g.pageSize > 0
  {
    Wrap32(Wrap64(f * g.pageSize) / g.pageSize)
  }

  function CheckedEnd(g: Geometry, p: U64, f: U64): U64
    requires g.pageSize > 0
  {
    MemoryRegion(p, Wrap64(Wrap32(f) * g.pageSize), NONE).End()
  }

  /**
   * The request reaches the frames it frees: wrap-around and truncation name no frame in front of its address
   * and none behind its end, or nothing is freed at all.
   */
  predicate FreesItsOwn(g: Geometry, p: U64, f: U64)
    requires g.pageSize > 0
  {
    var c, n := FirstFreed(g, p), FreedCount(g, f);
    n == 0 || c + n > g.frames || (p < FrameStart(g, c + 1) && FrameStart(g, c + n - 1) < CheckedEnd(g, p, f))
  }

  /** What free clears when it is not refused. */
  lemma FreeClears(s: Pmm, p: U64, f: U64)
    requires ValidGeometry(s.g)
    ensures var c, n := FirstFreed(s.g, p), FreedCount(s.g, f);
            FreeStep(s, p, f).0 ==
            if Verdict(s, p, f) < 0 || n == 0 || c + n > s.g.frames then s
            else s.(bits := s.bits - FrameRange(c, c + n))
    ensures FreeStep(s, p, f).1 <==>
            Verdict(s, p, f) >= 0 && Wrap32(FirstFreed(s.g, p) + FreedCount(s.g, f)) <= s.g.frames
  {
    hide Verdict, ToPageFrameRoundUp, MarkBlock, Wrap32;
    BlockCleared(s, FirstFreed(s.g, p), FreedCount(s.g, f));
  }

  /** Clearing a block, also where its end wraps in 32 bits. */
  lemma BlockCleared(s: Pmm, c: U32, n: U32)
    requires s.g.pageSize > 0
    ensures MarkBlock(s, c, n, false).1 == if n == 0 || c + n > s.g.frames then s.bits
            else s.bits - FrameRange(c, c + n)
    ensures MarkBlock(s, c, n, false).0 <==> Wrap32(c + n) <= s.g.frames
  {
    if c + n < TWO_32 {
      MarkBlockExact(s, c, n, false);
      Wrap32Fits(c + n);
      assert FrameRange(c, c) == {};
    } else {
      FirstIsZero(s.g);
      assert Wrap32(c + n) < c && FrameRange(c, Wrap32(c + n)) == {};
    }
  }

  lemma FirstIsZero(g: Geometry)
    requires g.pageSize > 0
    ensures ToPageFrame(g, g.base) == 0
  {
    DivModUnique(0, g.pageSize, 0, 0);
  }

  /** A free call that frees its own frames keeps every frame of guarded memory marked used. */
  lemma FreeKeepsSound(s: Pmm, p: U64, f: U64)
    requires Sound(s) && FreesItsOwn(s.g, p, f)
    ensures Sound(FreeStep(s, p, f).0)
  {
    hide FreeStep, FirstFreed, FreedCount, CheckedEnd;
    var t := FreeStep(s, p, f).0;
    var c, n := FirstFreed(s.g, p), FreedCount(s.g, f);
    FreeClears(s, p, f);
    VerdictValues(s, p, f);
    forall k: nat | k < s.g.frames && Protected(t, k)
      ensures k in t.bits
    {
      assert Protected(s, k);
      if k !in t.bits {
        FrameOrder(s.g, c, k);
        FrameOrder(s.g, k, c + n - 1);
        FrameOrder(s.g, c + 1, k + 1);
        ReachedIsGuarded(s, p, f, k);
      }
    }
  }

  /** A request that reaches a protected frame is refused. */
  lemma ReachedIsGuarded(s: Pmm, p: U64, f: U64, k: nat)
    requires Sound(s) && Protected(s, k)
    requires p < FrameStart(s.g, k + 1) && FrameStart(s.g, k) < CheckedEnd(s.g, p, f)
    ensures Verdict(s, p, f) < 0
  {
    var i :| 0 <= i < |s.regions| && Protects(s.g, s.regions[i], k);
    ProtectsWholeFrame(s.g, s.regions[i], k);
    assert Guards(s, s.regions[i], p, f);
  }

  /** An aligned region that touches a frame holds all of it. */
  lemma ProtectsWholeFrame(g: Geometry, r: MemoryRegion, k: int)
    requires ValidGeometry(g) && PageAligned(r, g.pageSize) && Protects(g, r, k)
    ensures r.start <= FrameStart(g, k) && FrameStart(g, k + 1) <= r.start + r.size
  {
    var a, P := FrameStart(g, k), g.pageSize;
    ProtectsFrameStart(g, r, k);
    MultipleIsAligned(k, P);
    AlignedSum(g.base, k * P, P);
    AlignedSum(r.start, r.size, P);
    FrameOrder(g, k, k + 1);
    AlignedGap(a, r.start + r.size, P);
  }

  /** Requests in the window free their own frames. */
  lemma WindowFreesItsOwn(g: Geometry, p: U64, f: U64)
    requires ValidGeometry(g) && InWindow(g, p, f)
    ensures FreesItsOwn(g, p, f)
  {
    WindowFrames(g, p, f);
    var c := CeilFrame(g, p);
    FloorFrameFacts(g, p);
    FrameOrder(g, c, c + 1);
    Wrap32Fits(f);
    if f > 0 {
      FreedFramesBeginInside(g, p, f, c + f - 1);
    }
  }

  // ---- what happens otherwise ------------------------------------------------------------------------------

  /** The whole frames from k to l as a USABLE region, nothing when there are none. */
  function UsableStretch(g: Geometry, k: nat, l: nat): (rs: seq<MemoryRegion>)
    requires ValidGeometry(g) && k <= l <= g.frames
    ensures |rs| <= 1 && (|rs| == 1 <==> k < l)
    ensures |rs| == 1 ==> rs[0].memoryType == USABLE && rs[0].start == FrameStart(g, k)
                          && rs[0].start + rs[0].size == FrameStart(g, l) && PageAligned(rs[0], g.pageSize)
  {
    StretchFits(g, k, l);
    if k == l then [] else [MemoryRegion(FrameStart(g, k), (l - k) * g.pageSize, USABLE)]
  }

  lemma StretchFits(g: Geometry, k: nat, l: nat)
    requires ValidGeometry(g) && k <= l <= g.frames
    ensures g.base <= FrameStart(g, k) <= FrameStart(g, l) <= FrameStart(g, g.frames) < TWO_64 - 1
    ensures 0 <= (l - k) * g.pageSize < TWO_64 && FrameStart(g, k) + (l - k) * g.pageSize == FrameStart(g, l)
    ensures FrameStart(g, k) % g.pageSize == 0 && ((l - k) * g.pageSize) % g.pageSize == 0
  {
    FrameOrder(g, 0, k);
    FrameOrder(g, k, l);
    FrameOrder(g, l, g.frames);
    FrameOffset(g, k, l - k);
    MultipleIsAligned(k, g.pageSize);
    MultipleIsAligned(l - k, g.pageSize);
    AlignedSum(g.base, k * g.pageSize, g.pageSize);
  }

  /**
   * A machine with one RESERVED frame, which the bitmap begins in, among USABLE ones; all frames are used. With
   * the first frame it is what `start` makes of one USABLE region, after everything has been allocated.
   */
  ghost function OneReserved(g: Geometry, k: nat, init: bool): Pmm
    requires ValidGeometry(g) && k < g.frames
  {
    AddressOfFrame(g, k);
    Pmm(g, UsableStretch(g, 0, k) + [MemoryRegion(FrameStart(g, k), g.pageSize, RESERVED)]
      + UsableStretch(g, k + 1, g.frames),
        FrameRange(0, g.frames), FrameStart(g, k), Min((g.frames + 7) / 8, g.pageSize), init)
  }

  lemma OneReservedRegions(g: Geometry, k: nat, init: bool)
    requires ValidGeometry(g) && k < g.frames
    ensures var rs, i := OneReserved(g, k, init).regions, |UsableStretch(g, 0, k)|;
            && WellFormed(rs, g.pageSize) && i < |rs|
            && rs[i] == MemoryRegion(FrameStart(g, k), g.pageSize, RESERVED)
            && (forall j :: 0 <= j < |rs| && j != i ==> rs[j].memoryType == USABLE)
            && forall j :: 0 <= j < |rs| ==>
                 g.base <= rs[j].start && rs[j].start + rs[j].size <= FrameStart(g, g.frames)
  {
    StretchFits(g, 0, k);
    StretchFits(g, k, k + 1);
    StretchFits(g, k + 1, g.frames);
    hide FrameStart, ValidGeometry;
  }

  lemma OneReservedIsSound(g: Geometry, k: nat, init: bool)
    requires ValidGeometry(g) && k < g.frames
    ensures var s := OneReserved(g, k, init);
            Sound(s) && IndexReserved(s) && Protected(s, k)
  {
    var s, i := OneReserved(g, k, init), |UsableStretch(g, 0, k)|;
    OneReservedRegions(g, k, init);
    FrameOrder(g, k, k + 1);
    StretchFits(g, k, k + 1);
    OrderedMeansSortedApart(s.regions);
    hide FrameStart, UsableStretch;
    assert Protects(g, s.regions[i], k);
    forall a: int | s.indexStart <= a < s.indexStart + s.indexSize
      ensures TypeAt(s.regions, a) == RESERVED
    {
      assert s.regions[i].Covers(a);
      TypeAtRegion(s.regions, i, a);
    }
  }

  /** A request that does not reach the reserved frame passes the check. */
  lemma PassesUnreached(g: Geometry, k: nat, p: U64, f: U64)
    requires ValidGeometry(g) && k < g.frames
    requires p >= FrameStart(g, k + 1) || FrameStart(g, k) >= CheckedEnd(g, p, f)
    ensures Verdict(OneReserved(g, k, f < TWO_32), p, f) == 0
  {
    var s := OneReserved(g, k, f < TWO_32);
    OneReservedRegions(g, k, f < TWO_32);
    StretchFits(g, k, k + 1);
    FrameOrder(g, k, k + 1);
    assert !IndexGuards(s, p, f) by { PassesIndex(g, k, p, f); }
    hide UsableStretch, IndexGuards, FrameStart, ValidGeometry;
    forall i | 0 <= i < |s.regions|
      ensures !Guards(s, s.regions[i], p, f)
    {
    }
  }

  lemma PassesIndex(g: Geometry, k: nat, p: U64, f: U64)
    requires ValidGeometry(g) && k < g.frames
    requires p >= FrameStart(g, k + 1) || FrameStart(g, k) >= CheckedEnd(g, p, f)
    ensures !IndexGuards(OneReserved(g, k, f < TWO_32), p, f)
  {
    var s := OneReserved(g, k, f < TWO_32);
    StretchFits(g, k, k + 1);
    FrameOrder(g, k, k + 1);
    if f < TWO_32 {
      var end := s.indexStart + s.indexSize;
      hide UsableStretch;
      Wrap32Fits(f);
      WrapFits(end);
      MemoryAlignMeaning(end, g.pageSize);
      FloorFacts(end, g.pageSize);
      SmallProduct(f, g.pageSize);
      WrapFits(f * g.pageSize);
      WrapFits(p + f * g.pageSize);
    }
  }

  lemma SmallProduct(f: U32, p: U32)
    ensures 0 <= f * p < TWO_64
  {
    ScaledAtMost(f, TWO_32, p);
  }

  lemma ScaledAtMost(x: nat, y: nat, p: nat)
    requires x <= y
    ensures x * p <= y * p
  {
  }

  /** A free call that does not free its own frames lets a protected frame go on some machine. */
  lemma ForeignFreeBreaks(g: Geometry, p: U64, f: U64) returns (s: Pmm)
    requires ValidGeometry(g) && !FreesItsOwn(g, p, f)
    ensures Sound(s) && IndexReserved(s) && s.g == g && (f < TWO_32 ==> s.init)
    ensures !Sound(FreeStep(s, p, f).0)
  {
    hide FreeStep, FirstFreed, FreedCount, CheckedEnd, Sound, IndexReserved, Verdict;
    var c, n := FirstFreed(g, p), FreedCount(g, f);
    var k := if p >= FrameStart(g, c + 1) then c else c + n - 1;
    s := OneReserved(g, k, f < TWO_32);
    OneReservedIsSound(g, k, f < TWO_32);
    PassesUnreached(g, k, p, f);
    FreeClears(s, p, f);
    ProtectedAndFree(s, FreeStep(s, p, f).0, k);
  }

  lemma ProtectedAndFree(s: Pmm, t: Pmm, k: nat)
    requires t == s.(bits := t.bits) && Protected(s, k) && k < s.g.frames && k !in t.bits
    ensures !Sound(t)
  {
    assert Protected(t, k);
  }

  /** Freeing that address and count is safe in every sound state. */
  ghost predicate AlwaysSafe(g: Geometry, p: U64, f: U64)
    requires g.pageSize > 0
  {
    forall s: Pmm {:trigger FreeStep(s, p, f)} ::
      Sound(s) && IndexReserved(s) && s.g == g ==> Sound(FreeStep(s, p, f).0)
  }

  /** The same for the states after a start, when the bitmap is installed. */
  ghost predicate SafeWhenStarted(g: Geometry, p: U64, f: U64)
    requires g.pageSize > 0
  {
    forall s: Pmm {:trigger FreeStep(s, p, f)} ::
      Sound(s) && IndexReserved(s) && s.g == g && s.init ==> Sound(FreeStep(s, p, f).0)
  }

  /**
   * A free call keeps every sound state sound if and only if it frees its own frames: for every address and
   * every count, below the base, above 2^32 frames and where the arithmetic wraps. For counts below 2^32 the
   * same holds of the started states alone; larger counts can be refused in all of them, because the check for
   * the bitmap computes the end of the request in 64 bits.
   */
  lemma FreeSafeExactly(g: Geometry, p: U64, f: U64)
    requires ValidGeometry(g)
    ensures AlwaysSafe(g, p, f) <==> FreesItsOwn(g, p, f)
    ensures FreesItsOwn(g, p, f) ==> SafeWhenStarted(g, p, f)
    ensures f < TWO_32 && SafeWhenStarted(g, p, f) ==> FreesItsOwn(g, p, f)
  {
    hide FreeStep, FreesItsOwn, Sound, IndexReserved;
    if FreesItsOwn(g, p, f) {
      forall s: Pmm {:trigger FreeStep(s, p, f)} | Sound(s) && IndexReserved(s) && s.g == g
        ensures Sound(FreeStep(s, p, f).0)
      {
        FreeKeepsSound(s, p, f);
      }
    } else {
      var s := ForeignFreeBreaks(g, p, f);
    }
  }

  /** With 16 frames from 16 TiB on, every started state refuses to free 2^32 + 16 frames at address 0. */
  lemma HugeCountExample(s: Pmm)
    requires Sound(s) && IndexReserved(s) && s.init && s.g == SmallMachine(0x1000_0000_0000)
    ensures FreeStep(s, 0, TWO_32 + 16) == (s, false) && !FreesItsOwn(s.g, 0, TWO_32 + 16)
  {
    hide Sound, IndexReserved, TypeAt;
    IndexInMemory(s);
    HugeCount(s.g);
    CoversWholeIndex(s, 0, TWO_32 + 16);
  }

  lemma HugeCount(g: Geometry)
    requires g == SmallMachine(0x1000_0000_0000)
    ensures ValidGeometry(g) && Wrap64(0 + Wrap64((TWO_32 + 16) * g.pageSize)) == FrameStart(g, g.frames)
    ensures !FreesItsOwn(g, 0, TWO_32 + 16)
  {
    var c, n, p: U64, f: U64 := FirstFreed(g, 0), FreedCount(g, TWO_32 + 16), 0, TWO_32 + 16;
    assert Wrap64(p - g.base) == 0xFFFF_F000_0000_0000;
    assert DivRoundUp(Wrap64(p - g.base), 4096) == 0xF_FFFF_0000_0000;
    assert c == 0;
    assert Wrap64(f * g.pageSize) == 0x1000_0001_0000 && n == 16;
    assert CheckedEnd(g, p, f) == 0x1_0000;
  }

  /** The bitmap begins in managed memory. */
  lemma IndexInMemory(s: Pmm)
    requires Sound(s) && IndexReserved(s) && s.init && s.g.frames > 0
    ensures s.g.base <= s.indexStart < FrameStart(s.g, s.g.frames) && s.indexSize > 0
    ensures s.indexStart + s.indexSize < TWO_64
  {
    assert TypeAt(s.regions, s.indexStart) == RESERVED;
    var i :| 0 <= i < |s.regions| && s.regions[i].Covers(s.indexStart);
    hide FrameStart, ValidGeometry;
  }

  lemma CoversWholeIndex(s: Pmm, p: U64, f: U64)
    requires ValidGeometry(s.g) && s.init && s.g.base <= s.indexStart < FrameStart(s.g, s.g.frames) && s.indexSize > 0
    requires s.indexStart + s.indexSize < TWO_64 && p < s.g.base
    requires Wrap64(p + Wrap64(f * s.g.pageSize)) == FrameStart(s.g, s.g.frames)
    ensures FreeStep(s, p, f) == (s, false)
  {
    var end, P := s.indexStart + s.indexSize, s.g.pageSize;
    WrapFits(end);
    MemoryAlignMeaning(end, P);
    FloorGreatest(end, s.g.base, P);
    assert IndexGuards(s, p, f);
  }

  /** 16 frames of 4 KiB. */
  function SmallMachine(base: U64): Geometry { Geometry(base, 4096, 16) }

  /** On a machine whose first frame is RESERVED and holds the bitmap, freeing one frame at p frees that frame. */
  ghost predicate FreesFirstFrame(g: Geometry, p: U64)
    requires ValidGeometry(g) && 0 < g.frames
  {
    var s := OneReserved(g, 0, true);
    Sound(s) && IndexReserved(s) && Protected(s, 0) && 0 !in FreeStep(s, p, 1).0.bits
  }

  /** With memory from address 0 on, this is what freeing the frame at 16 TiB does. */
  lemma TruncatedFreeExample()
    ensures ValidGeometry(SmallMachine(0)) && FreesFirstFrame(SmallMachine(0), 0x1000_0000_0000)
  {
    hide FreesFirstFrame, ValidGeometry, SmallMachine, FirstFreed, FreedCount, CheckedEnd, FrameStart;
    SmallMachineFrees(0, 0x1000_0000_0000);
    FreesFrameZero(SmallMachine(0), 0x1000_0000_0000);
  }

  /** With memory from 16 TiB on, this is what freeing address 0, below all of it, does. */
  lemma BelowBaseFreeExample()
    ensures ValidGeometry(SmallMachine(0x1000_0000_0000)) && FreesFirstFrame(SmallMachine(0x1000_0000_0000), 0)
  {
    hide FreesFirstFrame, ValidGeometry, SmallMachine, FirstFreed, FreedCount, CheckedEnd, FrameStart;
    SmallMachineFrees(0x1000_0000_0000, 0);
    FreesFrameZero(SmallMachine(0x1000_0000_0000), 0);
  }

  lemma SmallMachineFrees(base: U64, p: U64)
    requires (base == 0 && p == 0x1000_0000_0000) || (base == 0x1000_0000_0000 && p == 0)
    ensures var g := SmallMachine(base);
            ValidGeometry(g) && 0 < g.frames && FirstFreed(g, p) == 0 && FreedCount(g, 1) == 1
              && FrameStart(g, 0) == base
            && (p >= FrameStart(g, 1) || FrameStart(g, 0) >= CheckedEnd(g, p, 1))
  {
    var g := SmallMachine(base);
    if base == 0 {
      assert DivRoundUp(Wrap64(p - base), 4096) == TWO_32;
    } else {
      assert Wrap64(p - base) == 0xFFFF_F000_0000_0000;
      assert DivRoundUp(Wrap64(p - base), 4096) == 0xF_FFFF_0000_0000;
    }
  }

  lemma FreesFrameZero(g: Geometry, p: U64)
    requires ValidGeometry(g) && 0 < g.frames && FirstFreed(g, p) == 0 && FreedCount(g, 1) == 1
    requires p >= FrameStart(g, 1) || FrameStart(g, 0) >= CheckedEnd(g, p, 1)
    ensures FreesFirstFrame(g, p)
  {
    hide FreeStep, Sound, IndexReserved, Protected, FirstFreed, FreedCount, CheckedEnd, Verdict;
    OneReservedIsSound(g, 0, true);
    PassesUnreached(g, 0, p, 1);
    FreeClears(OneReserved(g, 0, true), p, 1);
  }
}

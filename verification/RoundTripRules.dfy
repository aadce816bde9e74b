/** Allocating and freeing undo each other; exactly which free calls are safe. */
module RoundTripRules {
  import opened Machine
  import opened Regions
  import opened ClaimRules
  import opened Frames
  import opened AllocatorRules
  import opened FreeRules

  lemma BlockInWindow(g: Geometry, b: nat, f: nat)
    requires ValidGeometry(g) && b + f <= g.frames
    ensures 0 <= FrameStart(g, b) < TWO_64 && InWindow(g, FrameStart(g, b), f)
    ensures CeilFrame(g, FrameStart(g, b)) == b
  {
    hide CeilFrame;
    FrameOffset(g, b, f);
    FrameOrder(g, b + f, g.frames);
    FrameOrder(g, 0, b);
    FrameOrder(g, g.frames, TWO_32 - 1);
    AlignedFrames(g, b);
  }

  lemma FrameOfAddress(g: Geometry, b: int, f: nat, a: int)
    requires g.pageSize > 0 && FrameStart(g, b) <= a < FrameStart(g, b + f)
    ensures b <= FloorFrame(g, a) < b + f
    ensures FrameStart(g, FloorFrame(g, a)) <= a < FrameStart(g, FloorFrame(g, a) + 1)
  {
    FloorFrameFacts(g, a);
    FrameOrder(g, FloorFrame(g, a), FloorFrame(g, a) + 1);
    FrameOrder(g, FloorFrame(g, a) + 1, b);
    FrameOrder(g, b + f, FloorFrame(g, a));
  }

  /** The byte a of a region that is not USABLE makes its frame a protected one. */
  lemma TypedByteProtects(s: Pmm, a: int)
    requires ValidGeometry(s.g) && WellFormed(s.regions, s.g.pageSize)
    requires TypeAt(s.regions, a) != USABLE && TypeAt(s.regions, a) != NONE
    ensures Protected(s, FloorFrame(s.g, a))
  {
    var i :| 0 <= i < |s.regions| && s.regions[i].Covers(a);
    OrderedMeansSortedApart(s.regions);
    TypeAtRegion(s.regions, i, a);
    RegionByteProtects(s, s.regions[i], a);
  }

  /** The reserved check lets every block of unprotected frames pass. */
  lemma UnprotectedBlockPasses(s: Pmm, b: nat, f: nat)
    requires Sound(s) && IndexReserved(s) && b + Wanted(f) <= s.g.frames
    requires forall k :: b <= k < b + Wanted(f) ==> !Protected(s, k)
    ensures 0 <= FrameStart(s.g, b) < TWO_64 && f < TWO_64
    ensures Verdict(s, FrameStart(s.g, b), f) == 0
  {
    BlockInWindow(s.g, b, f);
    forall i | 0 <= i < |s.regions|
      ensures !Guards(s, s.regions[i], FrameStart(s.g, b), f)
    {
      RegionLetsPass(s, s.regions[i], b, f);
    }
    IndexLetsPass(s, b, f);
  }

  lemma RegionLetsPass(s: Pmm, r: MemoryRegion, b: nat, f: U64)
    requires Sound(s) && b + Wanted(f) <= s.g.frames && r in s.regions
    requires forall k :: b <= k < b + Wanted(f) ==> !Protected(s, k)
    requires 0 <= FrameStart(s.g, b) < TWO_64
    ensures !Guards(s, r, FrameStart(s.g, b), f)
  {
    hide ValidGeometry, InWindow, Guards, Guarded, Protected, Protects, FrameStart, FloorFrame;
    var g, p := s.g, FrameStart(s.g, b);
    GeometryFacts(g);
    BlockInWindow(g, b, f);
    assert PageAligned(r, g.pageSize) && (r.memoryType != USABLE ==> r.size > 0);
    hide PageAligned, WellFormed, Managed;
    GuardsWindow(s, r, p, f);
    FrameOffset(g, b, f);
    FrameOffset(g, b, Wanted(f));
    OneFrameIsWanted(g, f);
    if Guards(s, r, p, f) {
      var a := if r.start < p then p else r.start;
      FrameOfAddress(g, b, Wanted(f), a);
      RegionByteProtects(s, r, a);
    }
  }

  lemma RegionByteProtects(s: Pmm, r: MemoryRegion, a: int)
    requires s.g.pageSize > 0 && r in s.regions && r.memoryType != USABLE && r.Covers(a)
    ensures Protected(s, FloorFrame(s.g, a))
  {
    var k := FloorFrame(s.g, a);
    FloorFrameFacts(s.g, a);
    FrameOrder(s.g, k, k + 1);
    assert Protects(s.g, r, k);
  }

  lemma OneFrameIsWanted(g: Geometry, f: nat)
    requires g.pageSize > 0
    ensures Wanted(f) * g.pageSize > 0 && Wanted(f) * g.pageSize >= f * g.pageSize
  {
    ProductBound(Wanted(f), g.pageSize);
  }

  lemma IndexLetsPass(s: Pmm, b: nat, f: U64)
    requires Sound(s) && IndexReserved(s) && b + Wanted(f) <= s.g.frames
    requires forall k :: b <= k < b + Wanted(f) ==> !Protected(s, k)
    requires 0 <= FrameStart(s.g, b) < TWO_64
    ensures !IndexGuards(s, FrameStart(s.g, b), f)
  {
    var g, p := s.g, FrameStart(s.g, b);
    BlockInWindow(g, b, f);
    FrameOffset(g, b, f);
    FrameOffset(g, b, Wanted(f));
    OneFrameIsWanted(g, f);
    if IndexGuards(s, p, f) {
      IndexOverlap(s, p, f);
      var a := if s.indexStart < p then p else s.indexStart;
      FrameOfAddress(g, b, Wanted(f), a);
      TypedByteProtects(s, a);
    }
  }

  lemma IndexOverlap(s: Pmm, p: U64, f: U64)
    requires Sound(s) && IndexReserved(s) && InWindow(s.g, p, f) && IndexGuards(s, p, f) && s.g.frames > 0
    ensures s.indexStart < p + f * s.g.pageSize
    ensures TypeAt(s.regions, if s.indexStart < p then p else s.indexStart) == RESERVED
  {
    WindowFrames(s.g, p, f);
    RoundedDownBelow(Wrap64(s.indexStart + s.indexSize), s.g.pageSize);
    WindowSpan(s.g, p, f);
    hide *;
    IndexOverlapLinear(s, p, f);
  }

  lemma RoundedDownBelow(x: U64, p: U64)
    requires p > 0
    ensures MemoryAlign(x, p, false) <= x
  {
    MemoryAlignMeaning(x, p);
    FloorFacts(x, p);
  }

  lemma IndexOverlapLinear(s: Pmm, p: U64, f: U64)
    requires s.g.pageSize > 0 && s.g.frames > 0 && IndexReserved(s) && IndexGuards(s, p, f)
    requires Wrap64(f * s.g.pageSize) == f * s.g.pageSize && p + f * s.g.pageSize < TWO_64
    requires MemoryAlign(Wrap64(s.indexStart + s.indexSize), s.g.pageSize, false) <= Wrap64(s.indexStart + s.indexSize)
    ensures s.indexStart < p + f * s.g.pageSize
    ensures TypeAt(s.regions, if s.indexStart < p then p else s.indexStart) == RESERVED
  {
    hide TypeAt, MemoryAlign, Wrap64;
    WrapFits(s.indexStart + s.indexSize);
    WrapFits(p + Wrap64(f * s.g.pageSize));
    var a := if s.indexStart < p then p else s.indexStart;
    assert s.indexStart <= a < s.indexStart + s.indexSize;
  }

  /** Freeing what `allocate` just returned succeeds and restores every bit of the bitmap. */
  lemma AllocateFreeRoundTrip(s: Pmm, f: U64)
    requires Sound(s) && IndexReserved(s)
    ensures var (s', ok, addr) := AllocateStep(s, f);
            ok ==> FreeStep(s', addr, f) == (s, true)
  {
    var (s', ok, addr) := AllocateStep(s, f);
    AllocateExact(s, f);
    if ok {
      var b := FirstFit(s, 0, Wanted(f));
      FirstFitIsLeast(s, 0, Wanted(f));
      RunIsUnprotected(s, b, Wanted(f));
      BlockRoundTrip(s, b, f);
    }
  }

  lemma RunIsUnprotected(s: Pmm, b: nat, f: nat)
    requires Guarded(s) && b + f <= s.g.frames && RunAt(s, b, f)
    ensures forall k :: b <= k < b + f ==> !Protected(s, k)
  {
  }

  lemma BlockRoundTrip(s: Pmm, b: nat, f: U64)
    requires Sound(s) && IndexReserved(s) && b + Wanted(f) <= s.g.frames && RunAt(s, b, f)
    requires forall k :: b <= k < b + Wanted(f) ==> !Protected(s, k)
    ensures 0 <= FrameStart(s.g, b) < TWO_64
    ensures FreeStep(s.(bits := s.bits + FrameRange(b, b + f)), FrameStart(s.g, b), f) == (s, true)
  {
    var s' := s.(bits := s.bits + FrameRange(b, b + f));
    UnprotectedBlockPasses(s, b, f);
    BlockInWindow(s.g, b, f);
    FreeInWindow(s', FrameStart(s.g, b), f);
    VerdictIgnoresBits(s, s', FrameStart(s.g, b), f);
    assert s'.bits - FrameRange(b, b + f) == s.bits;
  }

  lemma VerdictIgnoresBits(s: Pmm, s': Pmm, p: U64, f: U64)
    requires s.g.pageSize > 0 && s' == s.(bits := s'.bits)
    ensures Verdict(s', p, f) == Verdict(s, p, f)
  {
    forall i | 0 <= i < |s.regions|
      ensures Guards(s', s'.regions[i], p, f) <==> Guards(s, s.regions[i], p, f)
    {
    }
  }

  /**
   * An explicit allocation is undone by freeing the same request exactly when the first frame it took is the
   * first one it frees: allocating rounds its address down, freeing rounds it up. In the window this means that
   * the address is the start of a frame.
   */
  lemma ExplicitFreeRoundTrip(s: Pmm, p: U64, f: U64)
    requires ValidGeometry(s.g) && ToPageFrame(s.g, p) + f < TWO_32 && ExplicitStep(s, p, f).1
    ensures var b, c := ToPageFrame(s.g, p), FirstFreed(s.g, p);
            && (FreeStep(ExplicitStep(s, p, f).0, p, f) == (s, true) <==> if f == 0 then c <= s.g.frames else c == b)
            && (InWindow(s.g, p, f) ==> (c == b <==> p == FrameStart(s.g, FloorFrame(s.g, p))))
  {
    hide ExplicitStep, FreeStep, Verdict, ToPageFrame, FirstFreed, FloorFrame, CeilFrame, FrameStart, InWindow;
    var b, c := ToPageFrame(s.g, p), FirstFreed(s.g, p);
    var t := s.(bits := s.bits + FrameRange(b, b + f));
    ExplicitExact(s, p, f);
    VerdictValues(s, p, f);
    VerdictIgnoresBits(s, t, p, f);
    FreeClears(t, p, f);
    CountFits(s.g, f);
    TakenAndCleared(s, b, c, f);
    if InWindow(s.g, p, f) {
      RoundingsAgree(s.g, p, f);
    }
  }

  lemma CountFits(g: Geometry, f: U64)
    requires ValidGeometry(g) && f < TWO_32
    ensures FreedCount(g, f) == f
  {
    SmallProduct(f, g.pageSize);
    WrapFits(f * g.pageSize);
    MultipleIsAligned(f, g.pageSize);
    Wrap32Fits(f);
  }

  /** Taking f free frames at b and clearing f at c leaves the bits as they were only for b == c, if f > 0. */
  lemma TakenAndCleared(s: Pmm, b: U32, c: U32, f: U64)
    requires b + f <= s.g.frames && RunAt(s, b, f)
    ensures f > 0 ==> s.bits + FrameRange(b, b + f) != s.bits
    ensures s.bits + FrameRange(b, b + f) - FrameRange(c, c + f) == s.bits <==> f == 0 || c == b
    ensures f == 0 ==> s.bits + FrameRange(b, b + f) == s.bits
  {
    var taken, cleared := FrameRange(b, b + f), FrameRange(c, c + f);
    if f > 0 {
      assert b in taken && b + f - 1 in taken && b !in s.bits && b + f - 1 !in s.bits;
      if c > b {
        assert b !in cleared && b in s.bits + taken - cleared;
      } else if c < b {
        assert b + f - 1 !in cleared && b + f - 1 in s.bits + taken - cleared;
      } else {
        assert s.bits + taken - cleared == s.bits;
      }
    } else {
      assert taken == {} && cleared == {};
    }
  }

  lemma RoundingsAgree(g: Geometry, p: U64, f: U64)
    requires ValidGeometry(g) && InWindow(g, p, f)
    ensures FirstFreed(g, p) == ToPageFrame(g, p) <==> p == FrameStart(g, FloorFrame(g, p))
  {
    WindowFrames(g, p, f);
    if p == FrameStart(g, FloorFrame(g, p)) {
      AlignedFrames(g, FloorFrame(g, p));
    } else {
      UnalignedCeil(g, p);
    }
  }

  lemma UnalignedCeil(g: Geometry, p: int)
    requires g.pageSize > 0 && p != FrameStart(g, FloorFrame(g, p))
    ensures CeilFrame(g, p) > FloorFrame(g, p)
  {
    FloorFrameFacts(g, p);
    FrameOrder(g, CeilFrame(g, p), FloorFrame(g, p));
  }

  /** Only the first frame, RESERVED and with the bitmap in it, is used. */
  ghost function FirstUsed(g: Geometry): Pmm
    requires ValidGeometry(g) && 0 < g.frames
  {
    OneReserved(g, 0, true).(bits := {0})
  }

  lemma FirstUsedIsSound(g: Geometry)
    requires ValidGeometry(g) && 0 < g.frames
    ensures Sound(FirstUsed(g)) && IndexReserved(FirstUsed(g))
  {
    var s := FirstUsed(g);
    OneReservedIsSound(g, 0, true);
    forall k: nat | k < g.frames && Protected(s, k)
      ensures k == 0
    {
      FrameOrder(g, 0, 1);
      FrameOrder(g, k, 1);
    }
  }

  /** Allocating a frame at p and freeing it there both succeed, and the frame p lies in stays used. */
  ghost predicate StaysUsed(s: Pmm, p: U64)
    requires s.g.pageSize > 0
  {
    var t := ExplicitStep(s, p, 1).0;
    && Sound(s) && IndexReserved(s) && ExplicitStep(s, p, 1).1 && FreeStep(t, p, 1).1
    && FloorFrame(s.g, p) in FreeStep(t, p, 1).0.bits && FloorFrame(s.g, p) !in s.bits
  }

  /** Inside frame 2, allocating takes frame 2 and freeing clears frame 3. */
  lemma UnalignedFreeExample()
    ensures ValidGeometry(SmallMachine(0)) && StaysUsed(FirstUsed(SmallMachine(0)), 0x2001)
  {
    hide FirstUsed, StaysUsed, ValidGeometry, InWindow, FloorFrame, CeilFrame, FrameStart, CheckedEnd, SmallMachine;
    InsideFrameTwo();
    FrameTwoStaysUsed(SmallMachine(0), 0x2001);
  }

  lemma InsideFrameTwo()
    ensures var g := SmallMachine(0);
            && ValidGeometry(g) && g.frames == 16 && InWindow(g, 0x2001, 1) && FloorFrame(g, 0x2001) == 2
            && CeilFrame(g, 0x2001) == 3 && FrameStart(g, 1) <= 0x2001
  {
  }

  lemma FrameTwoStaysUsed(g: Geometry, p: U64)
    requires ValidGeometry(g) && g.frames == 16 && InWindow(g, p, 1) && FloorFrame(g, p) == 2 && CeilFrame(g, p) == 3
    requires FrameStart(g, 1) <= p
    ensures StaysUsed(FirstUsed(g), p)
  {
    hide Sound, IndexReserved, Verdict, InWindow, FloorFrame, CeilFrame, FrameStart, ExplicitStep, FreeStep,
         ValidGeometry, CheckedEnd;
    GeometryFacts(g);
    FirstUsedIsSound(g);
    WindowFrames(g, p, 1);
    var s := FirstUsed(g);
    var t := s.(bits := s.bits + FrameRange(2, 3));
    PassesUnreached(g, 0, p, 1);
    VerdictIgnoresBits(OneReserved(g, 0, true), s, p, 1);
    VerdictIgnoresBits(OneReserved(g, 0, true), t, p, 1);
    ExplicitExact(s, p, 1);
    FreeInWindow(t, p, 1);
  }
}

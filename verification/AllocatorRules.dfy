/** The page frame allocator as transitions of an abstract state (Memory/BitMapAllocator). */
module AllocatorRules {
  import opened Machine
  import opened Regions
  import opened ClaimRules
  import opened Frames

  const INVALID_PAGE: U32 := TWO_32 - 1

  /**
   * The memory map, the bits that are set in the bitmap (frame k is bit k; bits behind the last frame
   * included) and where the bitmap lies in physical memory.
   */
  datatype Pmm = Pmm(g: Geometry, regions: seq<MemoryRegion>, bits: set<nat>,
                     indexStart: U64, indexSize: U32, init: bool)

  predicate AtOrAfter(first: int, k: int) { first <= k }

  function FrameRange(first: int, end: int): set<nat> { set k: nat | k < end && AtOrAfter(first, k) }

  /** An unmanaged frame counts as free; the frame right behind the last one is looked up in the bitmap. */
  predicate FrameFree(s: Pmm, k: U32) { k > s.g.frames || k !in s.bits }

  /** The frame a 64-bit loop counter names: its lowest 32 bits. */
  predicate FreeAt(s: Pmm, i: nat) { FrameFree(s, Wrap32(i)) }

  /** Sets or clears a range of bits; the end of the range is computed in 32 bits. */
  function MarkBlock(s: Pmm, base: U32, size: U32, inUse: bool): (r: (bool, set<nat>))
    requires s.g.pageSize > 0
  {
    var first := ToPageFrame(s.g, s.g.base);
    if base < first || Wrap32(base + size) > Wrap32(first + s.g.frames) then (false, s.bits)
    else (true, if inUse then s.bits + FrameRange(base, Wrap32(base + size))
                else s.bits - FrameRange(base, Wrap32(base + size)))
  }

  /** Marking used rounds the region outwards, marking free rounds it inwards. */
  function MarkRegion(s: Pmm, baseBytes: U64, sizeBytes: U64, inUse: bool): (bool, set<nat>)
    requires s.g.pageSize > 0
  {
    if inUse then
      MarkBlock(s, ToPageFrame(s.g, baseBytes), Wrap32(DivRoundUp(sizeBytes, s.g.pageSize)), true)
    else
      MarkBlock(s, ToPageFrameRoundUp(s.g, baseBytes), Wrap32(sizeBytes / s.g.pageSize), false)
  }

  /** `is_reserved_or_bit_map_address`: -1 for the bitmap, -2 for a region that is not USABLE, 0 otherwise. */
  ghost function Verdict(s: Pmm, p: U64, f: U64): int
    requires s.g.pageSize > 0
  {
    if IndexGuards(s, p, f) then -1
    else if exists i :: 0 <= i < |s.regions| && Guards(s, s.regions[i], p, f) then -2
    else 0
  }

  /** The check against the bitmap's own pages; its last, partial page is left to the map. */
  predicate IndexGuards(s: Pmm, p: U64, f: U64)
    requires s.g.pageSize > 0
  {
    s.init && s.indexStart < Wrap64(p + Wrap64(f * s.g.pageSize))
    && p < MemoryAlign(Wrap64(s.indexStart + s.indexSize), s.g.pageSize, false)
  }

  predicate Guards(s: Pmm, r: MemoryRegion, p: U64, f: U64) {
    r.memoryType != USABLE && r.Contains(MemoryRegion(p, Wrap64(Wrap32(f) * s.g.pageSize), NONE))
  }

  predicate RunAt(s: Pmm, b: int, f: nat) { forall k :: b <= k < b + f ==> k !in s.bits }

  /** The first place at or after b where f frames in a row are free, INVALID_PAGE when there is none. */
  function FirstFit(s: Pmm, b: nat, f: nat): (r: U32)
    requires b <= s.g.frames
    decreases s.g.frames - b
  {
    if b + f > s.g.frames || b == s.g.frames then INVALID_PAGE
    else if RunAt(s, b, f) then b
    else FirstFit(s, b + 1, f)
  }

  /** A request for no frame at all is served like a request for one, but marks nothing. */
  function Wanted(f: nat): nat { if f == 0 then 1 else f }

  function AllocateStep(s: Pmm, f: U64): (r: (Pmm, bool, U64))
    requires s.g.pageSize > 0
  {
    var b := FirstFit(s, 0, Wanted(f));
    if b == INVALID_PAGE then (s, false, 0)
    else (s.(bits := MarkBlock(s, b, Wrap32(f), true).1), true, ToAddress(s.g, b))
  }

  ghost function ExplicitStep(s: Pmm, p: U64, f: U64): (r: (Pmm, bool))
    requires s.g.pageSize > 0
  {
    var b := ToPageFrame(s.g, p);
    if Verdict(s, p, f) < 0 then (s, false)
    else if exists i: nat :: b <= i < Wrap64(b + f) && !FreeAt(s, i) then (s, false)
    else (s.(bits := MarkBlock(s, b, Wrap32(f), true).1), MarkBlock(s, b, Wrap32(f), true).0)
  }

  ghost function FreeStep(s: Pmm, p: U64, f: U64): (r: (Pmm, bool))
    requires s.g.pageSize > 0
  {
    var m := MarkRegion(s, p, Wrap64(f * s.g.pageSize), false);
    if Verdict(s, p, f) < 0 then (s, false) else (s.(bits := m.1), m.0)
  }

  // ---- what must never be handed out ----------------------------------------------------------

  /** Some byte of frame k belongs to a region that is not USABLE. */
  ghost predicate Protects(g: Geometry, r: MemoryRegion, k: int) {
    r.memoryType != USABLE && r.size > 0
    && r.start < FrameStart(g, k + 1) && FrameStart(g, k) < r.start + r.size
  }

  ghost predicate Protected(s: Pmm, k: int) {
    exists i :: 0 <= i < |s.regions| && Protects(s.g, s.regions[i], k)
  }

  /** Every managed frame that touches a region that is not USABLE is marked used. */
  ghost predicate Guarded(s: Pmm) {
    forall k: nat :: k < s.g.frames && Protected(s, k) ==> k in s.bits
  }

  /** Every region lies in the managed range, and only USABLE ones may be empty. */
  ghost predicate Managed(s: Pmm) {
    forall i {:trigger s.regions[i]} :: 0 <= i < |s.regions| ==>
      s.g.base <= s.regions[i].start && s.regions[i].start + s.regions[i].size <= FrameStart(s.g, s.g.frames)
      && (s.regions[i].memoryType != USABLE ==> s.regions[i].size > 0)
  }

  ghost predicate Sound(s: Pmm) {
    ValidGeometry(s.g) && WellFormed(s.regions, s.g.pageSize) && Managed(s) && Guarded(s)
  }

  /** The bytes of the bitmap itself are RESERVED in the map. */
  ghost predicate IndexReserved(s: Pmm) {
    s.init ==> s.indexStart + s.indexSize < TWO_64 && (s.g.frames > 0 ==> s.indexSize > 0)
               && forall a: int :: s.indexStart <= a < s.indexStart + s.indexSize ==> TypeAt(s.regions, a) == RESERVED
  }

  // ---- searching -------------------------------------------------------------------------------

  /** First fit is the smallest frame where a run fits, and fails only when no run does. */
  lemma {:induction false} FirstFitIsLeast(s: Pmm, b: nat, f: nat)
    requires b <= s.g.frames && 0 < f
    ensures var r := FirstFit(s, b, f);
            if r == INVALID_PAGE then forall c :: b <= c && c + f <= s.g.frames ==> !RunAt(s, c, f)
            else b <= r && r + f <= s.g.frames && RunAt(s, r, f) && forall c :: b <= c < r ==> !RunAt(s, c, f)
    decreases s.g.frames - b
  {
    if b + f <= s.g.frames && !RunAt(s, b, f) {
      FirstFitIsLeast(s, b + 1, f);
    }
  }

  // ---- marking ---------------------------------------------------------------------------------

  /** Without wrap-around a block is marked when it lies in the managed range, and nothing else changes. */
  lemma MarkBlockExact(s: Pmm, base: U32, size: U32, inUse: bool)
    requires s.g.pageSize > 0 && base + size < TWO_32
    ensures MarkBlock(s, base, size, inUse) ==
            if base + size > s.g.frames then (false, s.bits)
            else
              (true, if inUse then s.bits + FrameRange(base, base + size) else s.bits - FrameRange(base, base + size))
  {
    assert ToPageFrame(s.g, s.g.base) == 0 by { DivModUnique(0, s.g.pageSize, 0, 0); }
    hide ToPageFrame;
  }

  lemma FreeInWindow(s: Pmm, p: U64, f: U64)
    requires ValidGeometry(s.g) && InWindow(s.g, p, f)
    ensures var c := CeilFrame(s.g, p);
            FreeStep(s, p, f) ==
            if Verdict(s, p, f) < 0 || c + f > s.g.frames then (s, false)
            else (s.(bits := s.bits - FrameRange(c, c + f)), true)
  {
    hide ValidGeometry, InWindow, CeilFrame, FloorFrame, Verdict, ToPageFrame, ToPageFrameRoundUp, MarkBlock;
    WindowFrames(s.g, p, f);
    Wrap32Fits(f);
    assert s.g.pageSize > 0 by { GeometryFacts(s.g); }
    MarkBlockExact(s, CeilFrame(s.g, p), f, false);
  }

  lemma GeometryFacts(g: Geometry)
    requires ValidGeometry(g)
    ensures g.pageSize > 0
  {
  }

  lemma SoundPages(s: Pmm)
    requires Sound(s)
    ensures s.g.pageSize > 0
  {
  }

  /** An aligned region that touches a frame holds the frame's first byte. */
  lemma ProtectsFrameStart(g: Geometry, r: MemoryRegion, k: int)
    requires ValidGeometry(g) && PageAligned(r, g.pageSize) && Protects(g, r, k)
    ensures r.Covers(FrameStart(g, k))
  {
    var a, P := FrameStart(g, k), g.pageSize;
    MultipleIsAligned(k, P);
    AlignedSum(g.base, k * P, P);
    FrameOrder(g, k, k + 1);
    if a < r.start {
      AlignedGap(a, r.start, P);
    }
  }

  lemma GuardsWindow(s: Pmm, r: MemoryRegion, p: U64, f: U64)
    requires ValidGeometry(s.g) && PageAligned(r, s.g.pageSize) && InWindow(s.g, p, f)
    ensures Guards(s, r, p, f) <==>
            r.memoryType != USABLE && r.start < p + f * s.g.pageSize && p < r.start + r.size
  {
    WindowFrames(s.g, p, f);
    Wrap32Fits(f);
  }

  // ---- each operation keeps the state sound -----------------------------------------------------

  /** s' is s with the f frames at b handed out: they are managed, were free, and none is guarded. */
  ghost predicate HandsOut(s: Pmm, b: int, f: nat, s': Pmm) {
    b + f <= s.g.frames && RunAt(s, b, f) && s' == s.(bits := s.bits + FrameRange(b, b + f))
    && forall k :: b <= k < b + f ==> !Protected(s, k)
  }

  /** Allocation takes the first place that fits, and fails only when nothing fits. */
  lemma AllocateExact(s: Pmm, f: U64)
    requires Sound(s)
    ensures var (s', ok, addr) := AllocateStep(s, f);
            && Sound(s')
            && (ok <==> exists b: nat :: b + Wanted(f) <= s.g.frames && RunAt(s, b, Wanted(f)))
            && (!ok ==> s' == s)
            && (ok ==>
                  && addr == FrameStart(s.g, FirstFit(s, 0, Wanted(f)))
                  && HandsOut(s, FirstFit(s, 0, Wanted(f)), f, s'))
  {
    var (s', ok, addr) := AllocateStep(s, f);
    FirstFitIsLeast(s, 0, Wanted(f));
    if ok {
      var b := FirstFit(s, 0, Wanted(f));
      Wrap32Fits(f);
      MarkBlockExact(s, b, f, true);
      AddressOfFrame(s.g, b);
      GuardedGrows(s, s');
    }
  }

  /** The n frames from b on are managed, and the bitmap has none of them. */
  ghost predicate Unused(s: Pmm, b: nat, n: nat) { b + n <= s.g.frames && forall k :: b <= k < b + n ==> k !in s.bits }

  /**
   * Allocation frame by frame: it succeeds exactly when that many frames in a row, or one if none is asked for,
   * are unused; it returns the address of the first ones and adds exactly the frames asked for to the used ones.
   */
  lemma AllocateMeaning(s: Pmm, f: U64)
    requires Sound(s)
    ensures var (s', ok, addr) := AllocateStep(s, f);
            var n: nat := if f == 0 then 1 else f;
            && (ok <==> exists b: nat :: Unused(s, b, n))
            && (ok ==> exists b: nat :: Unused(s, b, n) && (forall c: nat :: c < b ==> !Unused(s, c, n))
                                        && addr == s.g.base + b * s.g.pageSize
                                        && s' == s.(bits := s'.bits)
                                        && forall k: nat :: k in s'.bits <==> k in s.bits || b <= k < b + f)
  {
    hide Sound, FirstFit, MarkBlock, ToAddress, RunAt;
    SoundPages(s);
    AllocateExact(s, f);
    RoomForFirstFit(s, Wanted(f));
    var b := FirstFit(s, 0, Wanted(f));
    var s' := AllocateStep(s, f).0;
    if AllocateStep(s, f).1 {
      assert forall k: nat :: k in s'.bits <==> k in s.bits || b <= k < b + f;
      assert Unused(s, b, Wanted(f));
    }
  }

  lemma RoomForFirstFit(s: Pmm, n: nat)
    requires 0 < n
    ensures forall b: nat :: Unused(s, b, n) <==> b + n <= s.g.frames && RunAt(s, b, n)
    ensures FirstFit(s, 0, n) != INVALID_PAGE ==>
              Unused(s, FirstFit(s, 0, n), n) && forall c: nat :: c < FirstFit(s, 0, n) ==> !Unused(s, c, n)
  {
    FirstFitIsLeast(s, 0, n);
  }

  lemma GuardedGrows(s: Pmm, s': Pmm)
    requires Guarded(s) && s' == s.(bits := s'.bits) && s.bits <= s'.bits
    ensures Guarded(s')
  {
    assert forall k :: Protected(s', k) ==> Protected(s, k);
  }

  /** Allocating at a given address only ever marks frames, whatever the address. */
  lemma ExplicitKeepsSound(s: Pmm, p: U64, f: U64)
    requires Sound(s)
    ensures Sound(ExplicitStep(s, p, f).0)
  {
    GuardedGrows(s, ExplicitStep(s, p, f).0);
  }

  /** Without wrap-around an explicit allocation succeeds exactly when its frames are managed, free and unguarded. */
  lemma ExplicitExact(s: Pmm, p: U64, f: U64)
    requires s.g.pageSize > 0 && ToPageFrame(s.g, p) + f < TWO_32
    ensures var b := ToPageFrame(s.g, p);
            ExplicitStep(s, p, f) ==
            if Verdict(s, p, f) == 0 && b + f <= s.g.frames && RunAt(s, b, f) then
              (s.(bits := s.bits + FrameRange(b, b + f)), true)
            else (s, false)
  {
    hide Verdict, ToPageFrame, MarkBlock;
    var b := ToPageFrame(s.g, p);
    VerdictValues(s, p, f);
    WrapFits(b + f);
    Wrap32Fits(f);
    MarkBlockExact(s, b, f, true);
    if b + f <= s.g.frames {
      if i :| b <= i < b + f && i in s.bits {
        assert !FreeAt(s, i);
      }
    }
  }

  lemma VerdictValues(s: Pmm, p: U64, f: U64)
    requires s.g.pageSize > 0
    ensures Verdict(s, p, f) == 0 || Verdict(s, p, f) < 0
  {
  }
}

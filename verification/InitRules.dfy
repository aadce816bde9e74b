/** What starting the physical memory manager establishes (Memory/PhysicalMemoryManager, `start` and `init0`). */
module InitRules {
  import opened Machine
  import opened Regions
  import opened ClaimRules
  import opened Frames
  import opened AllocatorRules
  import opened FreeRules
  import opened RoundTripRules
  import opened RunRules

  /** The lowest start and the highest end of a map, folded in order as the detection loop does. */
  function LowestStart(rs: seq<MemoryRegion>): U64 {
    if rs == [] then TWO_64 - 1
    else
      var low, r := LowestStart(rs[..|rs| - 1]), rs[|rs| - 1];
      if r.memoryType == NONE then low else Min(low, r.start)
  }

  function HighestEnd(rs: seq<MemoryRegion>): U64 {
    if rs == [] then 0
    else
      var high, r := HighestEnd(rs[..|rs| - 1]), rs[|rs| - 1];
      if r.memoryType == NONE then high else Max(high, r.End())
  }

  /** What the boot loader hands over: ordered whole pages, nothing empty or untyped, a 32-bit frame count. */
  ghost predicate FirmwareMap(rs: seq<MemoryRegion>, p: int) {
    0 < p < TWO_32 && WellFormed(rs, p)
    && (forall i :: 0 <= i < |rs| ==> rs[i].memoryType != NONE && rs[i].size > 0)
    && (HighestEnd(rs) - LowestStart(rs)) / p + 7 < TWO_32
  }

  function Detected(rs: seq<MemoryRegion>, p: U64): Geometry
    requires p > 0
  {
    Geometry(LowestStart(rs), p, Wrap32(Wrap64(HighestEnd(rs) - LowestStart(rs)) / p))
  }

  lemma {:induction false} RangeCovers(rs: seq<MemoryRegion>, p: int)
    requires p > 0 && WellFormed(rs, p) && rs != []
    requires forall i :: 0 <= i < |rs| ==> rs[i].memoryType != NONE && rs[i].size > 0
    ensures LowestStart(rs) == rs[0].start && HighestEnd(rs) == rs[|rs| - 1].start + rs[|rs| - 1].size
  {
    var n := |rs| - 1;
    if n > 0 {
      RangeCovers(rs[..n], p);
    } else {
      assert rs[..n] == [];
    }
  }

  ghost predicate InRange(g: Geometry, rs: seq<MemoryRegion>) {
    forall i :: 0 <= i < |rs| ==> g.base <= rs[i].start && rs[i].start + rs[i].size <= FrameStart(g, g.frames)
  }

  /** The detected geometry is valid and every region of the map lies in it. */
  lemma DetectionCorrect(rs: seq<MemoryRegion>, p: U64)
    requires FirmwareMap(rs, p) && rs != []
    ensures ValidGeometry(Detected(rs, p)) && Detected(rs, p).frames > 0
    ensures InRange(Detected(rs, p), rs)
  {
    var g := Detected(rs, p);
    var last := rs[|rs| - 1];
    RangeCovers(rs, p);
    var span := HighestEnd(rs) - LowestStart(rs);
    assert span > 0;
    AlignedSum(last.start, last.size, p);
    AlignedSum(last.start + last.size, rs[0].start, p);
    AlignedIsMultiple(span, p);
    WrapFits(span);
    Wrap32Fits(span / p);
    SpanIsPositive(span, p);
    assert FrameStart(g, g.frames) == last.start + last.size;
    hide LowestStart, HighestEnd, Wrap64, Wrap32;
  }

  lemma SpanIsPositive(span: int, p: int)
    requires p > 0 && span > 0 && span % p == 0
    ensures span / p > 0
  {
    AlignedIsMultiple(span, p);
    ProductBound(-(span / p), p);
  }

  /** The managed frames that begin in one of the first n regions, if it is USABLE. */
  ghost function UsableFrames(g: Geometry, rs: seq<MemoryRegion>, n: nat): set<nat> {
    set k: nat | k < g.frames
                 && exists j :: 0 <= j < n && j < |rs| && rs[j].memoryType == USABLE && rs[j].Covers(FrameStart(g, k))
  }

  lemma UsableFramesNext(g: Geometry, rs: seq<MemoryRegion>, n: nat)
    requires n < |rs|
    ensures UsableFrames(g, rs, n + 1) == UsableFrames(g, rs, n) +
            (if rs[n].memoryType == USABLE then set k: nat | k < g.frames && rs[n].Covers(FrameStart(g, k)) else {})
  {
  }

  lemma UsableFramesAreTyped(g: Geometry, rs: seq<MemoryRegion>, k: nat)
    requires g.pageSize > 0 && WellFormed(rs, g.pageSize) && k < g.frames
    ensures k in UsableFrames(g, rs, |rs|) <==> TypeAt(rs, FrameStart(g, k)) == USABLE
  {
    OrderedMeansSortedApart(rs);
    if j :| 0 <= j < |rs| && rs[j].Covers(FrameStart(g, k)) {
      TypeAtRegion(rs, j, FrameStart(g, k));
      forall i | 0 <= i < |rs| && rs[i].Covers(FrameStart(g, k))
        ensures rs[i].memoryType == rs[j].memoryType
      {
        TypeAtRegion(rs, i, FrameStart(g, k));
      }
    }
  }

  // ---- the bitmap's own memory ----------------------------------------------------------------------

  /** One bit per frame, in whole bytes, computed in 32 bits. */
  function IndexSize(frames: U32): U32 { Wrap32(frames + 8 - 1) / 8 }

  /** The bitmap fits the first USABLE region that is large enough. */
  predicate Suits(r: MemoryRegion, size: U64) { r.memoryType == USABLE && r.size >= size }

  function IndexRegion(r: MemoryRegion, size: U32): MemoryRegion { MemoryRegion(r.start, size, RESERVED) }

  /** The frames of the index, and that they are the frames of the pages the claim grants. */
  lemma IndexFrames(g: Geometry, r: MemoryRegion, size: U32) returns (c: nat, n: nat)
    requires ValidGeometry(g) && PageAligned(r, g.pageSize) && Suits(r, size)
    requires g.base <= r.start && r.start + r.size <= FrameStart(g, g.frames)
    ensures c == FloorFrame(g, r.start) && n == (size + g.pageSize - 1) / g.pageSize && c + n <= g.frames
    ensures FrameStart(g, c) == r.start && FrameStart(g, c + n) == r.start + Ceiling(size, g.pageSize)
    ensures r.start + Ceiling(size, g.pageSize) <= r.start + r.size
  {
    RegionFrames(g, r);
    RoundedUp(size, g.pageSize);
    CeilingLeast(size, r.size, g.pageSize);
    c := CeilFrame(g, r.start);
    n := (size + g.pageSize - 1) / g.pageSize;
    FrameOffset(g, c, n);
    FrameOrder(g, g.frames, c + n);
  }

  lemma MarkIndexExact(s: Pmm, r: MemoryRegion, size: U32)
    requires ValidGeometry(s.g) && PageAligned(r, s.g.pageSize) && Suits(r, size)
    requires s.g.base <= r.start && r.start + r.size <= FrameStart(s.g, s.g.frames)
    ensures MarkRegion(s, r.start, size, true) == (true, s.bits + IndexSet(s.g, r, size))
  {
    var g := s.g;
    var c, n := IndexFrames(g, r, size);
    RoundUpFits(g, c);
    ExactFrames(g, r.start);
    WrapFits(size + g.pageSize - 1);
    Wrap32Fits(n);
    MarkBlockExact(s, c, n, true);
    forall k: nat
      ensures c <= k < c + n <==> r.start <= FrameStart(g, k) < r.start + Ceiling(size, g.pageSize)
    {
      FrameOrder(g, k, c);
      FrameOrder(g, k, c + n);
    }
    assert IndexSet(g, r, size) == FrameRange(c, c + n);
    hide ValidGeometry, Ceiling, FrameStart, CeilFrame, FloorFrame, MarkBlock, IndexSet, ToPageFrame;
  }

  /** The managed frames that begin in the pages of an index of that size at the start of r. */
  function IndexSet(g: Geometry, r: MemoryRegion, size: U32): set<nat>
    requires g.pageSize > 0
  {
    set k: nat | k < g.frames && r.start <= FrameStart(g, k) < r.start + Ceiling(size, g.pageSize)
  }

  // ---- the state after a successful start -----------------------------------------------------------

  lemma IndexHosted(r: MemoryRegion, size: U32, p: int)
    requires p > 0 && PageAligned(r, p) && Suits(r, size)
    ensures Hosts(r, IndexRegion(r, size))
    ensures var g := Granted(r, IndexRegion(r, size), p);
            g.start == r.start && g.size == Ceiling(size, p) && AtEdge(r, IndexRegion(r, size), p)
  {
    FloorFacts(r.start, p);
  }

  ghost predicate Started(rs: seq<MemoryRegion>, mi: nat, t: Pmm)
    requires t.g.pageSize > 0 && mi < |rs|
  {
    && Sound(t) && IndexReserved(t) && t.init
    && (forall a: int {:trigger TypeAt(t.regions, a)} :: TypeAt(t.regions, a) ==
          if rs[mi].start <= a < rs[mi].start + Ceiling(t.indexSize, t.g.pageSize) then RESERVED else TypeAt(rs, a))
    && (forall k: nat :: k < t.g.frames ==>
          (k in t.bits <==> TypeAt(rs, FrameStart(t.g, k)) != USABLE || k in IndexSet(t.g, rs[mi], t.indexSize)))
  }

  /**
   * After start: the map holds the bitmap's pages as RESERVED and is otherwise as before, and a managed frame
   * is marked used exactly when it is not USABLE or belongs to the bitmap.
   */
  lemma StartCorrect(s: Pmm, mi: nat, size: U32, t: Pmm)
    requires ValidGeometry(s.g) && FirmwareMap(s.regions, s.g.pageSize) && InRange(s.g, s.regions)
    requires mi < |s.regions| && Suits(s.regions[mi], size) && size > 0
    requires forall k: nat :: k < s.g.frames ==> (k in s.bits <==> k !in UsableFrames(s.g, s.regions, |s.regions|))
    requires Hosts(s.regions[mi], IndexRegion(s.regions[mi], size))
    requires ClaimedAt(s.regions, mi, IndexRegion(s.regions[mi], size), s.g.pageSize, t.regions)
    requires t == Pmm(s.g, t.regions, s.bits + IndexSet(s.g, s.regions[mi], size), s.regions[mi].start, size, true)
    ensures Started(s.regions, mi, t)
  {
    var rs, p, r := s.regions, s.g.pageSize, s.regions[mi];
    var c := IndexRegion(r, size);
    IndexHosted(r, size, p);
    ClaimKeepsOrder(rs, mi, c, p, t.regions);
    forall a: int {:trigger TypeAt(t.regions, a)}
      ensures TypeAt(t.regions, a) == if r.start <= a < r.start + Ceiling(size, p) then RESERVED else TypeAt(rs, a)
    {
      ClaimTypeAt(rs, mi, c, p, t.regions, a);
    }
    forall k: nat | k < s.g.frames
      ensures k in t.bits <==> TypeAt(rs, FrameStart(s.g, k)) != USABLE || k in IndexSet(s.g, r, size)
    {
      UsableFramesAreTyped(s.g, rs, k);
    }
    StartedManaged(s, mi, size, t);
    StartedGuarded(s, mi, size, t);
    RoundedUp(size, p);
    FloorFacts(size, p);
  }

  lemma StartedManaged(s: Pmm, mi: nat, size: U32, t: Pmm)
    requires ValidGeometry(s.g) && FirmwareMap(s.regions, s.g.pageSize) && InRange(s.g, s.regions)
    requires mi < |s.regions| && Suits(s.regions[mi], size) && size > 0
    requires Hosts(s.regions[mi], IndexRegion(s.regions[mi], size)) && t.g == s.g
    requires ClaimedAt(s.regions, mi, IndexRegion(s.regions[mi], size), s.g.pageSize, t.regions)
    ensures Managed(t)
  {
    var rs, p, r := s.regions, s.g.pageSize, s.regions[mi];
    var c := IndexRegion(r, size);
    IndexHosted(r, size, p);
    PiecesSplit(r, c, p);
    var ps := Pieces(r, c, p);
    var carved := Carve(rs, mi, ps);
    FloorFacts(size, p);
    assert forall k :: 0 <= k < |ps| && ps[k].memoryType != USABLE ==> ps[k].size > 0;
    forall i | 0 <= i < |t.regions|
      ensures t.regions[i] in rs || t.regions[i] in ps
    {
      assert t.regions[i] in multiset(carved);
    }
  }

  lemma StartedGuarded(s: Pmm, mi: nat, size: U32, t: Pmm)
    requires ValidGeometry(s.g) && mi < |s.regions| && WellFormed(t.regions, s.g.pageSize) && t.g == s.g
    requires forall k: nat :: k < s.g.frames ==>
               (k in t.bits <==>
                TypeAt(s.regions, FrameStart(s.g, k)) != USABLE || k in IndexSet(s.g, s.regions[mi], size))
    requires forall a: int {:trigger TypeAt(t.regions, a)} :: TypeAt(t.regions, a) ==
               if s.regions[mi].start <= a < s.regions[mi].start + Ceiling(size, s.g.pageSize) then RESERVED
               else TypeAt(s.regions, a)
    ensures Guarded(t)
  {
    forall k: nat | k < t.g.frames && Protected(t, k)
      ensures k in t.bits
    {
      var j :| 0 <= j < |t.regions| && Protects(t.g, t.regions[j], k);
      ProtectsFrameStart(t.g, t.regions[j], k);
      OrderedMeansSortedApart(t.regions);
      TypeAtRegion(t.regions, j, FrameStart(t.g, k));
    }
  }

  // ---- choosing where the bitmap goes ---------------------------------------------------------------

  /** The index of the first region at or after i that suits, or the length of the map. */
  function FirstSuitingFrom(rs: seq<MemoryRegion>, size: U64, i: nat): (r: nat)
    requires i <= |rs|
    ensures i <= r <= |rs|
    decreases |rs| - i
  {
    if i == |rs| || Suits(rs[i], size) then i else FirstSuitingFrom(rs, size, i + 1)
  }

  function FirstSuiting(rs: seq<MemoryRegion>, p: U64): nat
    requires p > 0
  {
    FirstSuitingFrom(rs, IndexSize(Detected(rs, p).frames), 0)
  }

  lemma {:induction false} FirstSuitingIsFirst(rs: seq<MemoryRegion>, size: U64, i: nat, n: nat)
    requires i <= n <= |rs| && (forall j :: i <= j < n ==> !Suits(rs[j], size))
    requires n < |rs| ==> Suits(rs[n], size)
    ensures FirstSuitingFrom(rs, size, i) == n
    decreases n - i
  {
    if i < n {
      FirstSuitingIsFirst(rs, size, i + 1, n);
    }
  }

  /** The table has room for the index: it fills its region exactly, or one more entry is free. */
  predicate IndexFits(rs: seq<MemoryRegion>, mi: nat, size: U64)
    requires mi < |rs|
  {
    rs[mi].size == size || |rs| + 1 < LIMIT
  }

  /** Start succeeds: there is memory, a USABLE region that takes the bitmap, and room to split it. */
  ghost predicate CanStart(rs: seq<MemoryRegion>, p: U64)
    requires p > 0
  {
    rs != [] && FirstSuiting(rs, p) < |rs| && IndexFits(rs, FirstSuiting(rs, p), IndexSize(Detected(rs, p).frames))
  }

  lemma RangeOfNothing(rs: seq<MemoryRegion>)
    ensures LowestStart(rs[..0]) == TWO_64 - 1 && HighestEnd(rs[..0]) == 0
  {
  }

  lemma RangeOfNext(rs: seq<MemoryRegion>, i: nat)
    requires i < |rs|
    ensures LowestStart(rs[..i + 1]) ==
            if rs[i].memoryType == NONE then LowestStart(rs[..i]) else Min(LowestStart(rs[..i]), rs[i].start)
    ensures HighestEnd(rs[..i + 1]) ==
            if rs[i].memoryType == NONE then HighestEnd(rs[..i]) else Max(HighestEnd(rs[..i]), rs[i].End())
  {
    assert rs[..i + 1][..i] == rs[..i];
  }

  lemma NoUsableFrames(g: Geometry, rs: seq<MemoryRegion>)
    ensures UsableFrames(g, rs, 0) == {}
  {
  }

  lemma FirmwarePage(rs: seq<MemoryRegion>, p: U64)
    requires FirmwareMap(rs, p)
    ensures 0 < p < TWO_32
  {
  }

  lemma FirmwareFacts(rs: seq<MemoryRegion>, p: U64, mi: nat)
    requires FirmwareMap(rs, p) && mi < |rs|
    ensures WellFormed(rs, p) && PageAligned(rs[mi], p)
  {
  }

  lemma EmptyRange(rs: seq<MemoryRegion>, p: U64)
    requires FirmwareMap(rs, p)
    ensures HighestEnd(rs) == 0 <==> rs == []
  {
    if rs != [] {
      RangeCovers(rs, p);
    }
  }

  lemma StartsBelowTop(rs: seq<MemoryRegion>, p: U64)
    requires FirmwareMap(rs, p)
    ensures forall i :: 0 <= i < |rs| ==> rs[i].start < TWO_64 - 1
  {
  }

  lemma {:induction false} SuitingSuits(rs: seq<MemoryRegion>, size: U64, i: nat)
    requires i <= |rs|
    ensures var r := FirstSuitingFrom(rs, size, i);
            (r < |rs| ==> Suits(rs[r], size)) && forall j :: i <= j < r ==> !Suits(rs[j], size)
    decreases |rs| - i
  {
    if i < |rs| && !Suits(rs[i], size) {
      SuitingSuits(rs, size, i + 1);
    }
  }

  lemma IndexIsLargeEnough(g: Geometry)
    requires ValidGeometry(g)
    ensures IndexSize(g.frames) == (g.frames + 7) / 8 && g.frames <= 8 * IndexSize(g.frames)
    ensures IndexSize(g.frames) <= g.frames / 8 + 1 && (g.frames > 0 ==> IndexSize(g.frames) > 0)
  {
    Wrap32Fits(g.frames + 7);
  }

  /** The frames between the first and the last address of a map. */
  function FramesBetween(rs: seq<MemoryRegion>, p: int): int
    requires rs != [] && p > 0
  {
    (rs[|rs| - 1].start + rs[|rs| - 1].size - rs[0].start) / p
  }

  lemma DetectedFrames(rs: seq<MemoryRegion>, p: U64)
    requires FirmwareMap(rs, p) && rs != []
    ensures Detected(rs, p).frames == FramesBetween(rs, p)
  {
    RangeCovers(rs, p);
    var span := HighestEnd(rs) - LowestStart(rs);
    hide LowestStart, HighestEnd;
    WrapFits(span);
    QuotientBound(span, p);
    Wrap32Fits(span / p);
  }

  /** r is USABLE and has a bit for each of so many frames. */
  predicate TakesBits(r: MemoryRegion, frames: int) { r.memoryType == USABLE && r.size >= (frames + 7) / 8 }

  /**
   * Start succeeds exactly when the map is not empty and its first USABLE region with a bit for each frame of the
   * map either is of that size exactly or leaves the table of 64 entries room for one more and a free one.
   */
  lemma CanStartExactly(rs: seq<MemoryRegion>, p: U64)
    requires FirmwareMap(rs, p)
    ensures CanStart(rs, p) <==>
            && rs != []
            && exists i: nat :: i < |rs| && TakesBits(rs[i], FramesBetween(rs, p))
                                && (forall j: nat :: j < i ==> !TakesBits(rs[j], FramesBetween(rs, p)))
                                && (rs[i].size == (FramesBetween(rs, p) + 7) / 8 || |rs| + 1 < 64)
  {
    hide FirmwareMap, Detected, FramesBetween, IndexSize;
    if rs != [] {
      FirmwarePage(rs, p);
      DetectionCorrect(rs, p);
      DetectedFrames(rs, p);
      IndexIsLargeEnough(Detected(rs, p));
      SuitingSuits(rs, IndexSize(Detected(rs, p).frames), 0);
    }
  }

  // ---- the machines of the examples ------------------------------------------------------------------------

  /** All of the managed memory as one USABLE region. */
  function AllUsable(g: Geometry): MemoryRegion
    requires ValidGeometry(g)
  {
    StretchFits(g, 0, g.frames);
    MemoryRegion(g.base, g.frames * g.pageSize, USABLE)
  }

  /** Starting with one USABLE region leaves the machine whose first frame, with the bitmap, alone is used. */
  lemma FirstUsedIsStarted(g: Geometry)
    requires ValidGeometry(g) && 0 < g.frames && (g.frames + 7) / 8 <= g.pageSize
    ensures Started([AllUsable(g)], 0, FirstUsed(g)) && FirstUsed(g).indexSize == IndexSize(g.frames)
  {
    hide Sound, IndexReserved;
    var t, rs := FirstUsed(g), [AllUsable(g)];
    FirstUsedIsSound(g);
    IndexIsLargeEnough(g);
    OnePageOfIndex(t.indexSize, g.pageSize);
    forall a: int {:trigger TypeAt(t.regions, a)}
      ensures TypeAt(t.regions, a) == if g.base <= a < g.base + g.pageSize then RESERVED else TypeAt(rs, a)
    {
      FirstUsedTypes(g, a);
    }
    forall k: nat | k < g.frames
      ensures k in IndexSet(g, rs[0], t.indexSize) <==> k == 0
      ensures TypeAt(rs, FrameStart(g, k)) == USABLE
    {
      FrameOrder(g, k, 1);
      FrameOrder(g, 0, k);
      StretchFits(g, 0, k);
      FrameOrder(g, k, g.frames);
      OneRegionTypes(AllUsable(g), FrameStart(g, k));
    }
  }

  lemma OnePageOfIndex(size: nat, p: nat)
    requires 0 < size <= p
    ensures Ceiling(size, p) == p
  {
    if size < p {
      DivModUnique(size, p, 0, size);
    } else {
      DivModUnique(size, p, 1, 0);
    }
  }

  lemma OneRegionTypes(r: MemoryRegion, a: int)
    ensures TypeAt([r], a) == if r.Covers(a) then r.memoryType else NONE
  {
    if r.Covers(a) {
      assert [r][0].Covers(a);
      TypeAtRegion([r], 0, a);
    }
  }

  /** The detection finds that memory again. */
  lemma DetectsAllUsable(g: Geometry)
    requires ValidGeometry(g) && 0 < g.frames
    ensures FirmwareMap([AllUsable(g)], g.pageSize) && Detected([AllUsable(g)], g.pageSize) == g
  {
    var rs, P := [AllUsable(g)], g.pageSize;
    StretchFits(g, 0, g.frames);
    MultipleIsAligned(g.frames, P);
    ProductBound(g.frames, P);
    RangeCovers(rs, P);
    WrapFits(g.frames * P);
    Wrap32Fits(g.frames);
  }

  lemma FirstUsedTypes(g: Geometry, a: int)
    requires ValidGeometry(g) && 0 < g.frames
    ensures TypeAt(FirstUsed(g).regions, a) ==
            if g.base <= a < g.base + g.pageSize then RESERVED else TypeAt([AllUsable(g)], a)
  {
    var rs := FirstUsed(g).regions;
    OneReservedRegions(g, 0, true);
    OrderedMeansSortedApart(rs);
    StretchFits(g, 0, 1);
    StretchFits(g, 1, g.frames);
    OneRegionTypes(AllUsable(g), a);
    assert rs[0] == MemoryRegion(g.base, g.pageSize, RESERVED);
    if rs[0].Covers(a) {
      TypeAtRegion(rs, 0, a);
    } else if |rs| > 1 && rs[1].Covers(a) {
      TypeAtRegion(rs, 1, a);
    }
  }

  /** Allocating everything that is left uses all frames. */
  lemma AllAllocated(g: Geometry)
    requires ValidGeometry(g) && 1 < g.frames
    ensures AllocateStep(FirstUsed(g), g.frames - 1) == (OneReserved(g, 0, true), true, FrameStart(g, 1))
  {
    hide Sound, OneReserved, FrameStart, ValidGeometry;
    var s, f := FirstUsed(g), g.frames - 1;
    FirstUsedIsSound(g);
    FirstUsedFields(g);
    AllocateExact(s, f);
    FirstFitIsLeast(s, 0, f);
    assert !RunAt(s, 0, f) by { assert 0 in s.bits; }
    assert RunAt(s, 1, f);
    assert {0} + FrameRange(1, g.frames) == FrameRange(0, g.frames);
  }

  lemma FirstUsedFields(g: Geometry)
    requires ValidGeometry(g) && 0 < g.frames
    ensures var s := FirstUsed(g);
            s.g == g && s.bits == {0} && OneReserved(g, 0, true) == s.(bits := FrameRange(0, g.frames))
  {
  }
}

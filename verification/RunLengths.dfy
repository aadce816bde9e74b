/** The run-length encoding of frame states (Memory/BitMapAllocator, `read_page_frame_states`). */
module RunLengths {
  import opened Machine
  import opened Regions
  import opened Frames
  import opened AllocatorRules

  function StateOf(s: Pmm, k: U32): MemoryRegionType {
    if FrameFree(s, k) then USABLE else USED
  }

  /** The frames a up to b as one region. */
  function RunOf(s: Pmm, a: nat, b: nat): MemoryRegion
    requires ValidGeometry(s.g) && a < b <= s.g.frames
  {
    RunFits(s.g, a, b);
    MemoryRegion(FrameStart(s.g, a), RunSize(s.g, a, b), StateOf(s, a))
  }

  function RunSize(g: Geometry, a: int, b: int): int { (b - a) * g.pageSize }

  lemma RunFits(g: Geometry, a: nat, b: nat)
    requires ValidGeometry(g) && a <= b <= g.frames
    ensures 0 <= FrameStart(g, a) < TWO_64 && 0 <= RunSize(g, a, b) < TWO_64
    ensures FrameStart(g, a) + RunSize(g, a, b) == FrameStart(g, b) < TWO_64
  {
    FrameOrder(g, 0, a);
    FrameOrder(g, a, b);
    FrameOrder(g, b, g.frames);
    FrameOffset(g, a, b - a);
  }

  /** The runs of the frames from a to e when frames a up to i are known to be of one state. */
  function RunsFrom(s: Pmm, a: nat, i: nat, e: nat): (rs: seq<MemoryRegion>)
    requires ValidGeometry(s.g) && a < i <= e <= s.g.frames
    ensures |rs| > 0
    decreases e - i
  {
    if i == e then [RunOf(s, a, i)]
    else if StateOf(s, a) == StateOf(s, i) then RunsFrom(s, a, i + 1, e)
    else [RunOf(s, a, i)] + RunsFrom(s, i, i + 1, e)
  }

  lemma RunsUnfold(s: Pmm, a: nat, i: nat, e: nat)
    requires ValidGeometry(s.g) && a < i <= e <= s.g.frames
    ensures i == e ==> RunsFrom(s, a, i, e) == [RunOf(s, a, i)]
    ensures i < e && StateOf(s, a) == StateOf(s, i) ==> RunsFrom(s, a, i, e) == RunsFrom(s, a, i + 1, e)
    ensures i < e && StateOf(s, a) != StateOf(s, i) ==>
              RunsFrom(s, a, i, e) == [RunOf(s, a, i)] + RunsFrom(s, i, i + 1, e)
  {
  }

  /** A run grows by one page at a time, without overflow. */
  lemma RunGrows(g: Geometry, a: nat, i: nat)
    requires ValidGeometry(g) && a <= i < g.frames
    ensures Wrap64(RunSize(g, a, i) + g.pageSize) == RunSize(g, a, i + 1)
    ensures RunSize(g, i, i + 1) == g.pageSize
    ensures Wrap64(g.base + Wrap64(i * g.pageSize)) == FrameStart(g, i)
  {
    RunFits(g, a, i + 1);
    FrameOffset(g, a, i - a);
    assert RunSize(g, a, i + 1) == RunSize(g, a, i) + g.pageSize by { FrameOffset(g, i - a, 1); }
    WrapFits(RunSize(g, a, i + 1));
    AddressOfFrame(g, i);
  }

  /** Runs that are maximal, alternate in state and tile the frames from a to e without a gap. */
  ghost predicate Tiles(s: Pmm, rs: seq<MemoryRegion>, a: nat, e: nat) {
    && |rs| > 0 && rs[0].start == FrameStart(s.g, a)
    && rs[|rs| - 1].start + rs[|rs| - 1].size == FrameStart(s.g, e)
    && (forall j :: 0 <= j < |rs| ==> rs[j].size > 0 && rs[j].memoryType in {USABLE, USED})
    && forall j :: 0 <= j < |rs| - 1 ==>
         rs[j].start + rs[j].size == rs[j + 1].start && rs[j].memoryType != rs[j + 1].memoryType
  }

  /** A run holds frame k, USED if its bit is set and USABLE if it is not. */
  ghost predicate Decoded(s: Pmm, rs: seq<MemoryRegion>, k: nat) {
    exists j :: 0 <= j < |rs| && Shows(s, rs[j], k)
  }

  ghost predicate Shows(s: Pmm, r: MemoryRegion, k: nat) {
    && r.Covers(FrameStart(s.g, k))
    && (r.memoryType == USABLE <==> k !in s.bits) && (r.memoryType == USED <==> k in s.bits)
  }

  /** Every frame from a to e lies in a run of its own state. */
  ghost predicate Decodes(s: Pmm, rs: seq<MemoryRegion>, a: nat, e: nat) {
    forall k: nat :: a <= k < e ==> Decoded(s, rs, k)
  }

  lemma StateMeaning(s: Pmm, k: U32)
    ensures StateOf(s, k) == if k > s.g.frames || k !in s.bits then USABLE else USED
  {
  }

  lemma {:induction false} RunsCorrect(s: Pmm, a: nat, i: nat, e: nat)
    requires ValidGeometry(s.g) && a < i <= e <= s.g.frames
    requires forall k: nat :: a <= k < i ==> StateOf(s, k) == StateOf(s, a)
    ensures Tiles(s, RunsFrom(s, a, i, e), a, e) && Decodes(s, RunsFrom(s, a, i, e), a, e)
    ensures RunsFrom(s, a, i, e)[0].memoryType == StateOf(s, a)
    decreases e - i
  {
    RunFits(s.g, a, i);
    FrameOrder(s.g, a, i);
    forall k: nat | a <= k < i
      ensures Shows(s, RunOf(s, a, i), k)
    {
      FrameOrder(s.g, k, a);
      FrameOrder(s.g, k, i);
      StateMeaning(s, k);
      assert StateOf(s, k) == StateOf(s, a);
    }
    if i == e {
      OneRunDecodes(s, RunOf(s, a, i), a, e);
    }
    if i < e && StateOf(s, a) == StateOf(s, i) {
      RunsCorrect(s, a, i + 1, e);
    } else if i < e {
      var rest := RunsFrom(s, i, i + 1, e);
      RunsCorrect(s, i, i + 1, e);
      RunsCons(s, RunOf(s, a, i), rest, a, i, e);
    }
  }

  lemma OneRunDecodes(s: Pmm, r: MemoryRegion, a: nat, e: nat)
    requires forall k: nat :: a <= k < e ==> Shows(s, r, k)
    ensures Decodes(s, [r], a, e)
  {
    hide Shows;
    forall k: nat | a <= k < e
      ensures Decoded(s, [r], k)
    {
      assert [r][0] == r;
    }
  }

  /** One more run in front of an encoding. */
  lemma RunsCons(s: Pmm, r: MemoryRegion, rest: seq<MemoryRegion>, a: nat, i: nat, e: nat)
    requires a < i < e && r.start == FrameStart(s.g, a) && r.start + r.size == FrameStart(s.g, i) && r.size > 0
    requires r.memoryType in {USABLE, USED} && Tiles(s, rest, i, e) && Decodes(s, rest, i, e)
    requires r.memoryType != rest[0].memoryType && forall k: nat :: a <= k < i ==> Shows(s, r, k)
    ensures Tiles(s, [r] + rest, a, e) && Decodes(s, [r] + rest, a, e)
  {
    hide Shows, Decoded;
    TilesCons(s, r, rest, a, i, e);
    forall k: nat | a <= k < e
      ensures Decoded(s, [r] + rest, k)
    {
      DecodedCons(s, r, rest, k);
    }
  }

  lemma TilesCons(s: Pmm, r: MemoryRegion, rest: seq<MemoryRegion>, a: nat, i: nat, e: nat)
    requires r.start == FrameStart(s.g, a) && r.start + r.size == FrameStart(s.g, i) && r.size > 0
    requires r.memoryType in {USABLE, USED} && Tiles(s, rest, i, e) && r.memoryType != rest[0].memoryType
    ensures Tiles(s, [r] + rest, a, e)
  {
    hide FrameStart;
    var rs := [r] + rest;
    assert forall j :: 0 <= j < |rest| ==> rs[j + 1] == rest[j];
  }

  lemma DecodedCons(s: Pmm, r: MemoryRegion, rest: seq<MemoryRegion>, k: nat)
    requires Shows(s, r, k) || Decoded(s, rest, k)
    ensures Decoded(s, [r] + rest, k)
  {
    hide Shows;
    var rs := [r] + rest;
    if Shows(s, r, k) {
      assert rs[0] == r;
    } else {
      var j :| 0 <= j < |rest| && Shows(s, rest[j], k);
      assert rs[j + 1] == rest[j];
    }
  }

  /** The whole encoding of the frames from a to e: maximal alternating runs that decode to the frame states. */
  lemma EncodingCorrect(s: Pmm, a: nat, e: nat)
    requires ValidGeometry(s.g) && a < e <= s.g.frames
    ensures Tiles(s, RunsFrom(s, a, a + 1, e), a, e) && Decodes(s, RunsFrom(s, a, a + 1, e), a, e)
  {
    RunsCorrect(s, a, a + 1, e);
  }

  /** The rounded bounds of a read are the frames that its addresses touch. */
  lemma ReadBounds(g: Geometry, start: U64, end: U64)
    requires ValidGeometry(g) && g.base <= start && end <= FrameStart(g, g.frames)
    ensures var a := if MemoryIsAligned(start, g.pageSize) then start else MemoryAlign(start, g.pageSize, false);
            a == FrameStart(g, FloorFrame(g, start)) && (start < end ==> ToPageFrame(g, a) == FloorFrame(g, start))
    ensures start < end ==>
              var b := if MemoryIsAligned(end, g.pageSize) then end
                       else Min(MemoryAlign(end, g.pageSize, true), FrameStart(g, g.frames));
              b == FrameStart(g, CeilFrame(g, end)) && ToPageFrame(g, b) == CeilFrame(g, end)
    ensures start < end ==> 0 <= FloorFrame(g, start) < CeilFrame(g, end) <= g.frames
  {
    ReadBoundDown(g, start);
    if start < end {
      ReadBoundUp(g, start, end);
      BackAndForth(g, CeilFrame(g, end));
      BackAndForth(g, FloorFrame(g, start));
    }
  }

  /** The frame of a rounded start, in 32 bits. */
  lemma ReadBoundFrame(g: Geometry, start: U64)
    requires ValidGeometry(g) && g.base <= start
    ensures Wrap32(Wrap64(Floor(start, g.pageSize) - g.base) / g.pageSize) == Wrap32(FloorFrame(g, start))
  {
    var f := FloorFrame(g, start);
    ReadBoundDown(g, start);
    FloorFrameFacts(g, start);
    FrameIndices(g, start);
    ProductBound(f, g.pageSize);
    WrapFits(f * g.pageSize);
    MultipleIsAligned(f, g.pageSize);
    hide Wrap64, Wrap32;
  }

  lemma ReadBoundDown(g: Geometry, start: U64)
    requires ValidGeometry(g) && g.base <= start
    ensures Floor(start, g.pageSize) == FrameStart(g, FloorFrame(g, start))
    ensures MemoryAlign(start, g.pageSize, false) == Floor(start, g.pageSize)
  {
    var p, f := g.pageSize, FloorFrame(g, start);
    MemoryAlignMeaning(start, p);
    FloorFrameFacts(g, start);
    MultipleIsAligned(f, p);
    AlignedSum(g.base, f * p, p);
    FloorFacts(start, p);
    FloorGreatest(start, FrameStart(g, f), p);
    if FrameStart(g, f) < Floor(start, p) {
      AlignedGap(FrameStart(g, f), Floor(start, p), p);
    }
  }

  lemma ReadBoundUp(g: Geometry, start: U64, end: U64)
    requires ValidGeometry(g) && g.base <= start < end <= FrameStart(g, g.frames)
    ensures Ceiling(end, g.pageSize) == FrameStart(g, CeilFrame(g, end)) <= FrameStart(g, g.frames)
    ensures !MemoryIsAligned(end, g.pageSize) ==> MemoryAlign(end, g.pageSize, true) == Ceiling(end, g.pageSize)
    ensures 0 <= FloorFrame(g, start) < CeilFrame(g, end) <= g.frames
  {
    var p, c, f := g.pageSize, CeilFrame(g, end), FloorFrame(g, start);
    FloorFrameFacts(g, start);
    FloorFrameFacts(g, end);
    MultipleIsAligned(c, p);
    AlignedSum(g.base, c * p, p);
    MultipleIsAligned(g.frames, p);
    AlignedSum(g.base, g.frames * p, p);
    FloorFacts(end, p);
    CeilingLeast(end, FrameStart(g, c), p);
    CeilingLeast(end, FrameStart(g, g.frames), p);
    if Ceiling(end, p) < FrameStart(g, c) {
      AlignedGap(Ceiling(end, p), FrameStart(g, c), p);
    }
    MemoryAlignMeaning(end, p);
    FrameOrder(g, f, c);
    FrameOrder(g, g.frames, c);
    FrameOrder(g, f, -1);
    FrameOrder(g, -1, 0);
  }

  lemma BackAndForth(g: Geometry, k: int)
    requires ValidGeometry(g) && 0 <= k <= g.frames
    ensures 0 <= FrameStart(g, k) < TWO_64 && ToPageFrame(g, FrameStart(g, k)) == k
  {
    AddressOfFrame(g, k);
    FrameOrder(g, 0, k);
    AlignedFrames(g, k);
    WrapFits(k * g.pageSize);
    Wrap32Fits(k);
    hide ValidGeometry;
  }
}

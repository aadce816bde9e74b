/** Which frames an explicit allocation takes, for every address and every count (Memory/BitMapAllocator). */
module ExplicitRules {
  import opened Machine
  import opened Frames
  import opened AllocatorRules
  import opened FreeRules
  import opened RoundTripRules

  // The frames an explicit allocation takes, as the source computes them in 32 bits.

  function FirstTaken(g: Geometry, p: U64): U32
    requires g.pageSize > 0
  {
    ToPageFrame(g, p)
  }

  function TakenEnd(g: Geometry, p: U64, f: U64): U32
    requires g.pageSize > 0
  {
    Wrap32(FirstTaken(g, p) + Wrap32(f))
  }

  /**
   * Whatever is asked for, an allocation that succeeds takes managed frames only, all of them free before, and
   * changes nothing else.
   */
  lemma ExplicitTakes(s: Pmm, p: U64, f: U64)
    requires s.g.pageSize > 0 && ExplicitStep(s, p, f).1
    ensures var b, e := FirstTaken(s.g, p), TakenEnd(s.g, p, f);
            && e <= s.g.frames && ExplicitStep(s, p, f).0 == s.(bits := s.bits + FrameRange(b, e))
            && forall k: nat :: b <= k < e ==> k !in s.bits
  {
    hide Verdict, ToPageFrame, Wrap64, Wrap32;
    var b, e := FirstTaken(s.g, p), TakenEnd(s.g, p, f);
    TakesBlock(s, b, Wrap32(f));
    forall k: nat | b <= k < e
      ensures k !in s.bits
    {
      ScanReaches(b, f, k);
      Wrap32Fits(k);
      assert FreeAt(s, k);
    }
  }

  lemma TakesBlock(s: Pmm, b: U32, n: U32)
    requires s.g.pageSize > 0
    ensures var e := Wrap32(b + n);
            MarkBlock(s, b, n, true) == if e <= s.g.frames then (true, s.bits + FrameRange(b, e)) else (false, s.bits)
  {
    FirstIsZero(s.g);
    Wrap32Fits(s.g.frames);
    hide ToPageFrame;
  }

  /** The scan, whose bounds are computed in 64 bits, reaches every frame of the 32-bit range. */
  lemma ScanReaches(b: U32, f: U64, k: nat)
    requires b <= k < Wrap32(b + Wrap32(f))
    ensures k < Wrap64(b + f)
  {
    SumInWords(b, f);
    if b + f < TWO_64 {
      WrapFits(b + f);
    } else {
      Wrap32Fits(b + f - TWO_64);
    }
  }

  lemma SumInWords(b: U32, f: U64)
    ensures Wrap32(b + Wrap32(f)) == Wrap32(b + f) <= b + f
    ensures b + f >= TWO_64 ==> Wrap32(b + f) == Wrap32(b + f - TWO_64)
  {
  }

  // ---- whose frames they are -------------------------------------------------------------------------------

  predicate Between(first: int, k: int, end: int) { first <= k < end }

  /** Two ranges hold the same frames. */
  ghost predicate SameFrames(b: int, e: int, o: int, end: int) {
    forall k: int :: Between(b, k, e) <==> Between(o, k, end)
  }

  lemma SameFramesExactly(b: int, e: int, o: int, end: int)
    requires o <= end
    ensures SameFrames(b, e, o, end) <==> if o == end then e <= b else b == o && e == end
  {
    if SameFrames(b, e, o, end) {
      assert Between(b, b, e) <==> Between(o, b, end);
      assert Between(b, e - 1, e) <==> Between(o, e - 1, end);
      assert Between(b, o, e) <==> Between(o, o, end);
      assert Between(b, end - 1, e) <==> Between(o, end - 1, end);
    }
  }

  /** The frames taken are the f frames from the one the address lies in. */
  ghost predicate TakesItsOwn(g: Geometry, p: U64, f: U64)
    requires g.pageSize > 0
  {
    SameFrames(FirstTaken(g, p), TakenEnd(g, p, f), FloorFrame(g, p), FloorFrame(g, p) + f)
  }

  /** The request lies in managed memory. */
  predicate LiesInMemory(g: Geometry, p: U64, f: U64)
    requires g.pageSize > 0
  {
    g.base <= p && FloorFrame(g, p) + f <= g.frames
  }

  /**
   * An explicit allocation that succeeds takes the frames of its request if and only if the request lies in
   * managed memory, or asks for no frame.
   */
  lemma ExplicitTakesItsOwnExactly(s: Pmm, p: U64, f: U64)
    requires ValidGeometry(s.g) && ExplicitStep(s, p, f).1
    ensures TakesItsOwn(s.g, p, f) <==> f == 0 || LiesInMemory(s.g, p, f)
  {
    hide ExplicitStep, FirstTaken, TakenEnd, FloorFrame;
    ExplicitTakes(s, p, f);
    OwnRange(s.g, p, f);
    var b, e, o := FirstTaken(s.g, p), TakenEnd(s.g, p, f), FloorFrame(s.g, p);
    SameFramesExactly(b, e, o, o + f);
    hide SameFrames;
    if o >= 0 {
      NotBelow(s.g, p);
    }
  }

  /** Inside managed memory nothing is lost, and a request for no frame takes none. */
  lemma OwnRange(g: Geometry, p: U64, f: U64)
    requires ValidGeometry(g)
    ensures f == 0 ==> TakenEnd(g, p, f) == FirstTaken(g, p)
    ensures LiesInMemory(g, p, f) ==> FirstTaken(g, p) == FloorFrame(g, p) && TakenEnd(g, p, f) == FloorFrame(g, p) + f
  {
    hide FloorFrame, Wrap64, Wrap32;
    Wrap32Fits(FirstTaken(g, p));
    Wrap32Fits(0);
    if LiesInMemory(g, p, f) {
      FrameIndices(g, p);
      FloorFits(g, p);
      Wrap32Fits(f);
      Wrap32Fits(FloorFrame(g, p) + f);
    }
  }

  lemma FloorFits(g: Geometry, p: U64)
    requires 0 < g.pageSize && g.base <= p && 0 <= FloorFrame(g, p) < TWO_32
    ensures ToPageFrame(g, p) == FloorFrame(g, p)
  {
    WrapFits(p - g.base);
    Wrap32Fits(FloorFrame(g, p));
    hide Wrap64, Wrap32;
  }

  lemma NotBelow(g: Geometry, p: U64)
    requires g.pageSize > 0 && FloorFrame(g, p) >= 0
    ensures g.base <= p
  {
    FloorFrameFacts(g, p);
    FrameOrder(g, FloorFrame(g, p), 0);
  }

  // ---- a request that takes foreign frames -----------------------------------------------------------------

  /** An explicit allocation succeeds on the machine whose first frame alone is used, and takes foreign frames. */
  ghost predicate TakesForeign(g: Geometry, p: U64)
    requires ValidGeometry(g) && 0 < g.frames
  {
    var s := FirstUsed(g);
    && Sound(s) && IndexReserved(s) && ExplicitStep(s, p, 1) == (s.(bits := s.bits + FrameRange(3, 4)), true)
    && !TakesItsOwn(g, p, 1)
  }

  /** With 64 KiB of memory from address 0 on, allocating a page behind 16 TiB takes frame 3. */
  lemma ForeignTakeExample()
    ensures ValidGeometry(SmallMachine(0)) && TakesForeign(SmallMachine(0), 0x1000_0000_3000)
  {
    hide TakesForeign, ValidGeometry, SmallMachine, ToPageFrame, FloorFrame, FrameStart;
    BehindMemory();
    TakesFrameThree(SmallMachine(0), 0x1000_0000_3000);
  }

  lemma BehindMemory()
    ensures var g, p := SmallMachine(0), 0x1000_0000_3000;
            && ValidGeometry(g) && g.frames == 16 && ToPageFrame(g, p) == 3 && FloorFrame(g, p) == TWO_32 + 3
            && p >= FrameStart(g, 1)
  {
  }

  lemma TakesFrameThree(g: Geometry, p: U64)
    requires ValidGeometry(g) && g.frames == 16 && ToPageFrame(g, p) == 3 && FloorFrame(g, p) == TWO_32 + 3
    requires p >= FrameStart(g, 1)
    ensures TakesForeign(g, p)
  {
    hide ExplicitStep, Verdict, Sound, IndexReserved, ToPageFrame, FloorFrame, FrameStart, ValidGeometry, CheckedEnd,
         TakesItsOwn;
    GeometryFacts(g);
    FirstUsedIsSound(g);
    var s := FirstUsed(g);
    PassesUnreached(g, 0, p, 1);
    VerdictIgnoresBits(OneReserved(g, 0, true), s, p, 1);
    ExplicitExact(s, p, 1);
    ExplicitTakesItsOwnExactly(s, p, 1);
  }
}

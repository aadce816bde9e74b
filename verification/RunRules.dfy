/** Whole runs of the physical memory manager: reclaiming, merging and any mix of operations. */
module RunRules {
  import opened Machine
  import opened Regions
  import opened ClaimRules
  import opened MergeRules
  import opened Frames
  import opened AllocatorRules
  import opened ExplicitRules
  import opened FreeRules
  import opened RoundTripRules

  // ---- reclaiming boot loader memory ----------------------------------------------------------------

  function Retyped(rs: seq<MemoryRegion>, i: nat): seq<MemoryRegion>
    requires i < |rs|
  {
    rs[i := rs[i].(memoryType := USABLE)]
  }

  /** One turn of the reclaim loop: the map entry is claimed first, then its frames are marked free. */
  function ReclaimOne(s: Pmm, i: nat): (r: (Pmm, bool))
    requires s.g.pageSize > 0 && i < |s.regions|
  {
    var m := MarkRegion(s, s.regions[i].start, s.regions[i].size, false);
    (s.(regions := Retyped(s.regions, i), bits := m.1), m.0)
  }

  function ReclaimFrom(s: Pmm, i: nat, success: bool): (r: (Pmm, bool))
    requires s.g.pageSize > 0
    decreases |s.regions| - i
  {
    if i >= |s.regions| then (s, success)
    else if s.regions[i].memoryType == BOOTLOADER_RECLAIMABLE then
      var (t, ok) := ReclaimOne(s, i);
      ReclaimFrom(t, i + 1, success && ok)
    else
      ReclaimFrom(s, i + 1, success)
  }

  function WholeRegion(r: MemoryRegion): MemoryRegion { MemoryRegion(r.start, r.size, USABLE) }

  lemma WholeRegionClaimable(rs: seq<MemoryRegion>, i: nat, p: int)
    requires p > 0 && WellFormed(rs, p) && i < |rs| && rs[i].size > 0
    ensures Claimable(rs, WholeRegion(rs[i]), p)
  {
    assert Hosts(rs[i], WholeRegion(rs[i])) && HasRoom(rs, i, WholeRegion(rs[i]), p);
  }

  /** Claiming a whole region for USABLE retypes that region in place and nothing else. */
  lemma WholeRegionClaim(rs: seq<MemoryRegion>, i: nat, p: int, ss: seq<MemoryRegion>, g: MemoryRegion)
    requires p > 0 && WellFormed(rs, p) && i < |rs| && rs[i].size > 0
    requires ClaimedFrom(rs, WholeRegion(rs[i]), p, ss, g)
    ensures ss == Retyped(rs, i) && g == WholeRegion(rs[i])
  {
    var c := WholeRegion(rs[i]);
    PiecesSplit(rs[i], c, p);
    var j :| 0 <= j < |rs| && Hosts(rs[j], c) && g == Granted(rs[j], c, p) && ClaimedAt(rs, j, c, p, ss);
    HostIsUnique(rs, i, j, c, p);
    assert [rs[i].(memoryType := USABLE)][1..] == [];
  }

  /** The counters stay right when a region that was not USABLE becomes so as a whole. */
  lemma WholeRegionAccounts(rs: seq<MemoryRegion>, i: nat, p: int, n: Counters)
    requires p > 0 && WellFormed(rs, p) && i < |rs| && rs[i].size > 0 && rs[i].memoryType != USABLE
    requires Accounts(n, rs)
    ensures Accounts(Charge(n, WholeRegion(rs[i])), Retyped(rs, i))
  {
    var c := WholeRegion(rs[i]);
    PiecesSplit(rs[i], c, p);
    assert [rs[i].(memoryType := USABLE)][1..] == [];
    ClaimAccounting(rs, i, c, p, Retyped(rs, i), n);
  }

  /** The frames of a page-aligned, managed region are exactly those that begin in it. */
  lemma RegionFrames(g: Geometry, r: MemoryRegion)
    requires ValidGeometry(g) && PageAligned(r, g.pageSize)
    requires g.base <= r.start && r.start + r.size <= FrameStart(g, g.frames)
    ensures var c, n := CeilFrame(g, r.start), r.size / g.pageSize;
            && FrameStart(g, c) == r.start && FrameStart(g, c + n) == r.start + r.size
            && 0 <= c && 0 <= n && c + n <= g.frames && c == FloorFrame(g, r.start)
  {
    var P := g.pageSize;
    var c, n := (r.start - g.base) / P, r.size / P;
    AlignedSum(r.start, g.base, P);
    AlignedIsMultiple(r.start - g.base, P);
    AlignedIsMultiple(r.size, P);
    AlignedFrames(g, c);
    FrameOffset(g, c, n);
    FrameOrder(g, g.frames, c + n);
    FrameOrder(g, c, 0);
    FrameOrder(g, c + n, c);
  }

  lemma FramesInRegion(g: Geometry, r: MemoryRegion, c: int, n: int, k: int)
    requires g.pageSize > 0 && FrameStart(g, c) == r.start && FrameStart(g, c + n) == r.start + r.size
    ensures c <= k < c + n <==> r.Covers(FrameStart(g, k))
  {
    FrameOrder(g, k, c);
    FrameOrder(g, k, c + n);
  }

  lemma ReclaimOneExact(s: Pmm, i: nat)
    requires Sound(s) && i < |s.regions|
    ensures var (t, ok) := ReclaimOne(s, i);
            && ok && t.g == s.g
            && t.bits == s.bits - set k: nat | k < s.g.frames && s.regions[i].Covers(FrameStart(s.g, k))
  {
    FreeRegionExact(s, s.regions[i]);
  }

  /** Freeing a managed region clears exactly the frames that begin in it. */
  lemma FreeRegionExact(s: Pmm, r: MemoryRegion)
    requires ValidGeometry(s.g) && PageAligned(r, s.g.pageSize)
    requires s.g.base <= r.start && r.start + r.size <= FrameStart(s.g, s.g.frames)
    ensures MarkRegion(s, r.start, r.size, false) ==
            (true, s.bits - set k: nat | k < s.g.frames && r.Covers(FrameStart(s.g, k)))
  {
    var g := s.g;
    RegionFrames(g, r);
    var c, n := CeilFrame(g, r.start), r.size / g.pageSize;
    RegionMark(s, r, c, n);
    forall k: nat
      ensures c <= k < c + n <==> r.Covers(FrameStart(g, k))
    {
      FramesInRegion(g, r, c, n, k);
    }
    assert FrameRange(c, c + n) == set k: nat | k < g.frames && r.Covers(FrameStart(g, k));
  }

  lemma RegionMark(s: Pmm, r: MemoryRegion, c: int, n: int)
    requires ValidGeometry(s.g) && s.g.base <= r.start && c == CeilFrame(s.g, r.start) && n == r.size / s.g.pageSize
    requires 0 <= c && 0 <= n && c + n <= s.g.frames && FrameStart(s.g, c) == r.start
    ensures MarkRegion(s, r.start, r.size, false) == (true, s.bits - FrameRange(c, c + n))
  {
    FrameOrder(s.g, c, s.g.frames);
    RoundUpFits(s.g, c);
    ExactFrames(s.g, r.start);
    Wrap32Fits(n);
    hide ValidGeometry, CeilFrame;
    MarkBlockExact(s, c, n, false);
  }

  lemma RoundUpFits(g: Geometry, c: nat)
    requires ValidGeometry(g) && c <= g.frames
    ensures FrameStart(g, c) - g.base + g.pageSize - 1 < TWO_64
  {
    FrameOrder(g, c, c + 1);
    FrameOrder(g, c + 1, TWO_32);
  }

  /** Making a region USABLE and freeing its frames keeps every other region guarded. */
  lemma ReclaimOneSound(s: Pmm, i: nat)
    requires Sound(s) && i < |s.regions|
    ensures Sound(ReclaimOne(s, i).0)
  {
    var t := ReclaimOne(s, i).0;
    ReclaimOneExact(s, i);
    forall k: nat | k < t.g.frames && Protected(t, k)
      ensures k in t.bits
    {
      var j :| 0 <= j < |t.regions| && Protects(t.g, t.regions[j], k);
      assert j != i && t.regions[j] == s.regions[j];
      assert Protected(s, k);
      ProtectsFrameStart(s.g, s.regions[j], k);
      OrderedMeansSortedApart(s.regions);
      assert if i < j then Apart(s.regions[i], s.regions[j]) else Apart(s.regions[j], s.regions[i]);
    }
  }

  lemma ReclaimOneTypes(s: Pmm, i: nat, a: int)
    requires Sound(s) && i < |s.regions|
    ensures TypeAt(ReclaimOne(s, i).0.regions, a) == if s.regions[i].Covers(a) then USABLE else TypeAt(s.regions, a)
  {
    var rs := s.regions;
    OrderedMeansSortedApart(rs);
    OrderedMeansSortedApart(Retyped(rs, i));
    if rs[i].Covers(a) {
      TypeAtRegion(Retyped(rs, i), i, a);
    } else {
      assert forall j :: 0 <= j < |rs| && rs[j].Covers(a) ==> Retyped(rs, i)[j] == rs[j];
      TypeAtAgrees(rs, Retyped(rs, i), a);
    }
  }

  ghost predicate NoneToReclaim(rs: seq<MemoryRegion>, n: nat) {
    forall j :: 0 <= j < n && j < |rs| ==> rs[j].memoryType != BOOTLOADER_RECLAIMABLE
  }

  /**
   * Reclaiming always succeeds: every reclaimable byte becomes USABLE, no other byte changes its type, and
   * exactly the frames of reclaimable memory become free.
   */
  lemma {:induction false} ReclaimCorrect(s: Pmm, i: nat, success: bool)
    requires Sound(s) && NoneToReclaim(s.regions, i)
    ensures var (t, ok) := ReclaimFrom(s, i, success);
            && Sound(t) && ok == success && t == s.(regions := t.regions, bits := t.bits)
            && (forall a: int {:trigger TypeAt(t.regions, a)} :: TypeAt(t.regions, a) ==
                  if TypeAt(s.regions, a) == BOOTLOADER_RECLAIMABLE then USABLE else TypeAt(s.regions, a))
            && t.bits == s.bits - ReclaimableFrames(s)
    decreases |s.regions| - i
  {
    if i >= |s.regions| {
      NothingReclaimable(s);
    } else if s.regions[i].memoryType == BOOTLOADER_RECLAIMABLE {
      ReclaimStepCorrect(s, i, success);
    } else {
      ReclaimCorrect(s, i + 1, success);
    }
  }

  ghost function ReclaimableFrames(s: Pmm): set<nat> {
    set k: nat | k < s.g.frames && TypeAt(s.regions, FrameStart(s.g, k)) == BOOTLOADER_RECLAIMABLE
  }

  lemma NothingReclaimable(s: Pmm)
    requires Sound(s) && NoneToReclaim(s.regions, |s.regions|)
    ensures forall a: int {:trigger TypeAt(s.regions, a)} :: TypeAt(s.regions, a) != BOOTLOADER_RECLAIMABLE
    ensures ReclaimableFrames(s) == {}
  {
  }

  lemma {:induction false} ReclaimStepCorrect(s: Pmm, i: nat, success: bool)
    requires Sound(s) && NoneToReclaim(s.regions, i) && i < |s.regions|
    requires s.regions[i].memoryType == BOOTLOADER_RECLAIMABLE
    ensures var (t, ok) := ReclaimFrom(s, i, success);
            && Sound(t) && ok == success && t == s.(regions := t.regions, bits := t.bits)
            && (forall a: int {:trigger TypeAt(t.regions, a)} :: TypeAt(t.regions, a) ==
                  if TypeAt(s.regions, a) == BOOTLOADER_RECLAIMABLE then USABLE else TypeAt(s.regions, a))
            && t.bits == s.bits - ReclaimableFrames(s)
    decreases |s.regions| - i, 0
  {
    var u := ReclaimOne(s, i).0;
    ReclaimOneExact(s, i);
    ReclaimOneSound(s, i);
    ReclaimCorrect(u, i + 1, success);
    ReclaimableSplit(s, i);
    forall a: int {:trigger TypeAt(u.regions, a)}
      ensures TypeAt(u.regions, a) == if s.regions[i].Covers(a) then USABLE else TypeAt(s.regions, a)
      ensures s.regions[i].Covers(a) ==> TypeAt(s.regions, a) == BOOTLOADER_RECLAIMABLE
    {
      ReclaimOneTypes(s, i, a);
      if s.regions[i].Covers(a) {
        RegionIsTyped(s, i, a);
      }
    }
    hide TypeAt, Sound, ReclaimOne, MarkRegion, ReclaimableFrames, FrameStart;
  }

  lemma RegionIsTyped(s: Pmm, i: nat, a: int)
    requires Sound(s) && i < |s.regions| && s.regions[i].Covers(a)
    ensures TypeAt(s.regions, a) == s.regions[i].memoryType
  {
    OrderedMeansSortedApart(s.regions);
    TypeAtRegion(s.regions, i, a);
  }

  lemma ReclaimableSplit(s: Pmm, i: nat)
    requires Sound(s) && i < |s.regions| && s.regions[i].memoryType == BOOTLOADER_RECLAIMABLE
    ensures ReclaimableFrames(s) ==
            (set k: nat | k < s.g.frames && s.regions[i].Covers(FrameStart(s.g, k)))
            + ReclaimableFrames(ReclaimOne(s, i).0)
  {
    var u := ReclaimOne(s, i).0;
    forall k: nat | k < s.g.frames
      ensures k in ReclaimableFrames(s) <==>
              s.regions[i].Covers(FrameStart(s.g, k)) || k in ReclaimableFrames(u)
    {
      ReclaimOneTypes(s, i, FrameStart(s.g, k));
      if s.regions[i].Covers(FrameStart(s.g, k)) {
        RegionIsTyped(s, i, FrameStart(s.g, k));
      }
    }
  }

  // ---- merging the map --------------------------------------------------------------------------

  function MergeStep(s: Pmm): Pmm { s.(regions := MergeFrom(s.regions, 0)) }

  lemma MergedOneSound(s: Pmm, i: nat)
    requires Sound(s) && i + 1 < |s.regions| && Mergeable(s.regions[i], s.regions[i + 1])
    ensures Sound(s.(regions := Merged(s.regions, i)))
  {
    var rs := s.regions;
    var t := s.(regions := Merged(rs, i));
    MergedIndex(rs, i);
    MergedWellFormed(rs, i, s.g.pageSize);
    forall k: nat | k < s.g.frames && Protected(t, k)
      ensures k in t.bits
    {
      var j :| 0 <= j < |t.regions| && Protects(t.g, t.regions[j], k);
      assert j < i ==> Protects(s.g, rs[j], k);
      assert j > i ==> Protects(s.g, rs[j + 1], k);
      assert j == i ==> Protects(s.g, rs[i], k) || Protects(s.g, rs[i + 1], k) by {
        FrameOrder(s.g, k, k + 1);
      }
      assert Protected(s, k);
    }
  }

  lemma {:induction false} MergeFromSound(s: Pmm, i: nat)
    requires Sound(s)
    ensures Sound(s.(regions := MergeFrom(s.regions, i)))
    decreases |s.regions| - i
  {
    if i + 1 < |s.regions| {
      if Mergeable(s.regions[i], s.regions[i + 1]) {
        MergedOneSound(s, i);
        MergedIndex(s.regions, i);
        MergeFromSound(s.(regions := Merged(s.regions, i)), i);
      } else {
        MergeFromSound(s, i + 1);
      }
    }
  }

  // ---- runs -------------------------------------------------------------------------------------

  datatype Op =
    | Allocate(frames: U64)
    | AllocateExplicit(at: U64, count: U64)
    | Free(p: U64, n: U64)
    | Reclaim
    | Merge

  ghost function Step(s: Pmm, op: Op): Pmm
    requires s.g.pageSize > 0
  {
    match op
    case Allocate(f) => AllocateStep(s, f).0
    case AllocateExplicit(p, f) => ExplicitStep(s, p, f).0
    case Free(p, f) => FreeStep(s, p, f).0
    case Reclaim => ReclaimFrom(s, 0, true).0
    case Merge => MergeStep(s)
  }

  ghost function Run(s: Pmm, ops: seq<Op>): (t: Pmm)
    requires s.g.pageSize > 0
    ensures t.g == s.g
  {
    if ops == [] then s
    else
      StepKeepsGeometry(Run(s, ops[..|ops| - 1]), ops[|ops| - 1]);
      Step(Run(s, ops[..|ops| - 1]), ops[|ops| - 1])
  }

  lemma StepKeepsGeometry(s: Pmm, op: Op)
    requires s.g.pageSize > 0
    ensures Step(s, op) == s.(regions := Step(s, op).regions, bits := Step(s, op).bits)
  {
    ReclaimKeepsGeometry(s, 0, true);
  }

  lemma {:induction false} ReclaimKeepsGeometry(s: Pmm, i: nat, success: bool)
    requires s.g.pageSize > 0
    ensures ReclaimFrom(s, i, success).0 ==
            s.(regions := ReclaimFrom(s, i, success).0.regions, bits := ReclaimFrom(s, i, success).0.bits)
    decreases |s.regions| - i
  {
    if i < |s.regions| {
      ReclaimKeepsGeometry(ReclaimOne(s, i).0, i + 1, success && ReclaimOne(s, i).1);
      ReclaimKeepsGeometry(s, i + 1, success);
    }
  }

  /** Free calls must free frames they reach; nothing is asked of any other call. */
  predicate Admissible(g: Geometry, op: Op)
    requires g.pageSize > 0
  {
    op.Free? ==> FreesItsOwn(g, op.p, op.n)
  }

  lemma StepSafe(s: Pmm, op: Op)
    requires Sound(s) && IndexReserved(s) && Admissible(s.g, op)
    ensures Sound(Step(s, op)) && IndexReserved(Step(s, op))
  {
    match op
    case Allocate(f) => AllocateExact(s, f);
    case AllocateExplicit(p, f) => ExplicitKeepsSound(s, p, f);
    case Free(p, f) => FreeKeepsSound(s, p, f);
    case Reclaim => ReclaimCorrect(s, 0, true);
    case Merge =>
      MergeFromSound(s, 0);
      MergeCorrect(s.regions, 0, s.g.pageSize);
  }

  /**
   * Safety over whole runs: after any mix of calls every managed frame that touches memory which is not
   * USABLE, the bitmap's own frames included, is still marked used.
   */
  lemma {:induction false} RunSafe(s: Pmm, ops: seq<Op>)
    requires Sound(s) && IndexReserved(s) && forall i :: 0 <= i < |ops| ==> Admissible(s.g, ops[i])
    ensures Sound(Run(s, ops)) && IndexReserved(Run(s, ops))
  {
    if ops != [] {
      var t := Run(s, ops[..|ops| - 1]);
      RunSafe(s, ops[..|ops| - 1]);
      StepSafe(t, ops[|ops| - 1]);
    }
  }

  /** Frame k shares a byte with the bitmap. */
  predicate IndexFrame(s: Pmm, k: int) {
    s.indexStart < FrameStart(s.g, k + 1) && FrameStart(s.g, k) < s.indexStart + s.indexSize
  }

  lemma IndexFrameIsProtected(s: Pmm, k: nat)
    requires Sound(s) && IndexReserved(s) && s.init && k < s.g.frames && IndexFrame(s, k)
    ensures Protected(s, k)
  {
    var a := if s.indexStart < FrameStart(s.g, k) then FrameStart(s.g, k) else s.indexStart;
    FrameOrder(s.g, k, k + 1);
    TypedByteProtects(s, a);
    FrameOfAddress(s.g, k, 1, a);
  }

  /** The f frames at b were free, are used now, and belong neither to guarded memory nor to the bitmap. */
  ghost predicate Usable(t: Pmm, b: nat, f: nat, t': Pmm) {
    forall k :: b <= k < b + f ==> k !in t.bits && k in t'.bits && !Protected(t, k) && !IndexFrame(t, k)
  }

  /** At every moment of every run: no allocation returns a guarded frame, nor one of the bitmap. */
  lemma HandedOutFramesAreUsable(s: Pmm, ops: seq<Op>, f: U64)
    requires Sound(s) && IndexReserved(s) && s.init && forall i :: 0 <= i < |ops| ==> Admissible(s.g, ops[i])
    ensures var t := Run(s, ops);
            var (t', ok, addr) := AllocateStep(t, f);
            ok ==> exists b: nat :: addr == FrameStart(t.g, b) && b + f <= t.g.frames && Usable(t, b, f, t')
  {
    var t := Run(s, ops);
    RunSafe(s, ops);
    AllocateExact(t, f);
    RunKeepsIndex(s, ops);
    var b := FirstFit(t, 0, Wanted(f));
    if AllocateStep(t, f).1 {
      forall k: nat | b <= k < b + f
        ensures !IndexFrame(t, k)
      {
        if IndexFrame(t, k) {
          IndexFrameIsProtected(t, k);
        }
      }
    }
  }

  /** Byte by byte: a block that is handed out holds USABLE memory or addresses of no region, and none of the bitmap. */
  lemma HandedOutBytes(s: Pmm, ops: seq<Op>, f: U64)
    requires Sound(s) && IndexReserved(s) && s.init && forall i :: 0 <= i < |ops| ==> Admissible(s.g, ops[i])
    ensures var t := Run(s, ops);
            var (_, ok, addr) := AllocateStep(t, f);
            ok ==> forall a: int :: addr <= a < addr + f * t.g.pageSize ==>
                     && (TypeAt(t.regions, a) == USABLE || TypeAt(t.regions, a) == NONE)
                     && !(t.indexStart <= a < t.indexStart + t.indexSize)
  {
    hide AllocateStep, Run, TypeAt, Usable, IndexReserved, Sound, Admissible;
    SoundPages(s);
    var t := Run(s, ops);
    RunSafe(s, ops);
    RunKeepsIndex(s, ops);
    HandedOutFramesAreUsable(s, ops, f);
    var (t', ok, addr) := AllocateStep(t, f);
    if ok {
      var b: nat :| addr == FrameStart(t.g, b) && b + f <= t.g.frames && Usable(t, b, f, t');
      FrameOffset(t.g, b, f);
      forall a: int | addr <= a < addr + f * t.g.pageSize
        ensures TypeAt(t.regions, a) == USABLE || TypeAt(t.regions, a) == NONE
        ensures !(t.indexStart <= a < t.indexStart + t.indexSize)
      {
        UsableByte(t, b, f, t', a);
      }
    }
  }

  lemma UsableByte(t: Pmm, b: nat, f: nat, t': Pmm, a: int)
    requires Sound(t) && Usable(t, b, f, t') && FrameStart(t.g, b) <= a < FrameStart(t.g, b + f)
    ensures TypeAt(t.regions, a) == USABLE || TypeAt(t.regions, a) == NONE
    ensures !(t.indexStart <= a < t.indexStart + t.indexSize)
  {
    hide TypeAt, Protected, FrameStart, FloorFrame, WellFormed;
    var k := FloorFrame(t.g, a);
    FrameOfAddress(t.g, b, f, a);
    assert !Protected(t, k) && !IndexFrame(t, k);
    if TypeAt(t.regions, a) != USABLE && TypeAt(t.regions, a) != NONE {
      TypedByteProtects(t, a);
    }
  }

  /**
   * The same for the frames an explicit allocation takes, whatever it asks for: they were free, and belong
   * neither to guarded memory nor to the bitmap.
   */
  lemma TakenFramesAreUsable(s: Pmm, ops: seq<Op>, p: U64, f: U64)
    requires Sound(s) && IndexReserved(s) && s.init && forall i :: 0 <= i < |ops| ==> Admissible(s.g, ops[i])
    ensures var t := Run(s, ops);
            var (t', ok) := ExplicitStep(t, p, f);
            var b, e := FirstTaken(t.g, p), TakenEnd(t.g, p, f);
            ok ==> e <= t.g.frames && t' == t.(bits := t.bits + FrameRange(b, e)) && (b < e ==> Usable(t, b, e - b, t'))
  {
    hide ExplicitStep, FirstTaken, TakenEnd, Run, IndexFrame;
    var t := Run(s, ops);
    RunSafe(s, ops);
    RunKeepsIndex(s, ops);
    if ExplicitStep(t, p, f).1 {
      ExplicitTakes(t, p, f);
      var b, e := FirstTaken(t.g, p), TakenEnd(t.g, p, f);
      forall k: nat | b <= k < e
        ensures !Protected(t, k) && !IndexFrame(t, k)
      {
        if IndexFrame(t, k) {
          IndexFrameIsProtected(t, k);
        }
      }
    }
  }

  lemma {:induction false} RunKeepsIndex(s: Pmm, ops: seq<Op>)
    requires s.g.pageSize > 0
    ensures var t := Run(s, ops);
            t.indexStart == s.indexStart && t.indexSize == s.indexSize && t.init == s.init
  {
    if ops != [] {
      RunKeepsIndex(s, ops[..|ops| - 1]);
      StepKeepsGeometry(Run(s, ops[..|ops| - 1]), ops[|ops| - 1]);
    }
  }
}

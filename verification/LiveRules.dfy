/** Conservation of page frames over runs that free only what they allocated. */
module LiveRules {
  import opened Machine
  import opened Frames
  import opened AllocatorRules
  import opened FreeRules
  import opened RoundTripRules

  /** A block as its owner knows it: the address a call returned or was given, and the frame count. */
  datatype Block = Block(p: U64, f: U64)

  datatype LiveOp =
    | Take(count: U64)
    | TakeAt(at: U64, n: U64)
    | Release(i: nat)

  datatype Live = Live(s: Pmm, blocks: seq<Block>)

  /** Owners ask for at least one frame, at frame boundaries, and give back blocks they hold. */
  predicate Honest(v: Live, op: LiveOp)
    requires v.s.g.pageSize > 0
  {
    match op
    case Take(f) => f > 0
    case TakeAt(p, f) => f > 0 && InWindow(v.s.g, p, f) && p == FrameStart(v.s.g, FloorFrame(v.s.g, p))
    case Release(i) => i < |v.blocks|
  }

  ghost function LiveStep(v: Live, op: LiveOp): (r: (Live, bool))
    requires v.s.g.pageSize > 0 && Honest(v, op)
    ensures r.0.s == v.s.(bits := r.0.s.bits)
  {
    match op
    case Take(f) =>
      var (s', ok, p) := AllocateStep(v.s, f);
      (Live(s', if ok then v.blocks + [Block(p, f)] else v.blocks), ok)
    case TakeAt(p, f) =>
      var (s', ok) := ExplicitStep(v.s, p, f);
      (Live(s', if ok then v.blocks + [Block(p, f)] else v.blocks), ok)
    case Release(i) =>
      var (s', ok) := FreeStep(v.s, v.blocks[i].p, v.blocks[i].f);
      (Live(s', v.blocks[..i] + v.blocks[i + 1..]), ok)
  }

  predicate Holds(g: Geometry, b: Block, k: int)
    requires g.pageSize > 0
  {
    FloorFrame(g, b.p) <= k < FloorFrame(g, b.p) + b.f
  }

  /** A block names whole managed frames that are marked used and that no region guards. */
  ghost predicate Held(s: Pmm, b: Block)
    requires s.g.pageSize > 0
  {
    && b.f > 0 && 0 <= FloorFrame(s.g, b.p) && FloorFrame(s.g, b.p) + b.f <= s.g.frames
    && b.p == FrameStart(s.g, FloorFrame(s.g, b.p))
    && forall k :: Holds(s.g, b, k) ==> k in s.bits && !Protected(s, k)
  }

  ghost predicate Disjoint(g: Geometry, b: Block, c: Block)
    requires g.pageSize > 0
  {
    forall k :: !(Holds(g, b, k) && Holds(g, c, k))
  }

  ghost predicate LiveInv(v: Live) {
    && Sound(v.s) && IndexReserved(v.s)
    && (forall i :: 0 <= i < |v.blocks| ==> Held(v.s, v.blocks[i]))
    && (forall i, j :: 0 <= i < j < |v.blocks| ==> Disjoint(v.s.g, v.blocks[i], v.blocks[j]))
  }

  function FreeFrames(s: Pmm): set<nat> { set k: nat | k < s.g.frames && k !in s.bits }

  function LiveFrames(bs: seq<Block>): nat {
    if bs == [] then 0 else LiveFrames(bs[..|bs| - 1]) + bs[|bs| - 1].f
  }

  /** Free frames and frames held by live blocks, together. */
  function Budget(v: Live): nat { |FreeFrames(v.s)| + LiveFrames(v.blocks) }

  lemma {:induction false} RangeSize(b: nat, f: nat)
    ensures |FrameRange(b, b + f)| == f
  {
    if f == 0 {
      assert FrameRange(b, b) == {};
    } else {
      RangeSize(b, f - 1);
      assert FrameRange(b, b + f) == FrameRange(b, b + f - 1) + {b + f - 1};
    }
  }

  lemma LiveAppend(bs: seq<Block>, b: Block)
    ensures LiveFrames(bs + [b]) == LiveFrames(bs) + b.f
  {
    assert (bs + [b])[..|bs|] == bs;
  }

  lemma {:induction false} LiveRemove(bs: seq<Block>, i: nat)
    requires i < |bs|
    ensures LiveFrames(bs) == LiveFrames(bs[..i] + bs[i + 1..]) + bs[i].f
  {
    var n := |bs| - 1;
    if i == n {
      assert bs[..i] + bs[i + 1..] == bs[..n];
    } else {
      assert (bs[..i] + bs[i + 1..])[..n - 1] == bs[..n][..i] + bs[..n][i + 1..];
      LiveRemove(bs[..n], i);
    }
  }

  /** Handing out free frames moves them from the free set to a new block. */
  lemma TakeKeeps(v: Live, b: int, f: U64, s': Pmm, p: U64)
    requires LiveInv(v) && 0 <= b && f > 0 && b + f <= v.s.g.frames && RunAt(v.s, b, f) && p == FrameStart(v.s.g, b)
    requires s' == v.s.(bits := v.s.bits + FrameRange(b, b + f)) && Sound(s')
    ensures LiveInv(Live(s', v.blocks + [Block(p, f)]))
    ensures Budget(Live(s', v.blocks + [Block(p, f)])) == Budget(v)
  {
    TakeKeepsInv(v, b, f, s', p);
    TakeKeepsBudget(v.s, b, f, s');
    LiveAppend(v.blocks, Block(p, f));
  }

  lemma TakeKeepsBudget(s: Pmm, b: nat, f: U64, s': Pmm)
    requires b + f <= s.g.frames && RunAt(s, b, f) && s' == s.(bits := s.bits + FrameRange(b, b + f))
    ensures |FreeFrames(s')| + f == |FreeFrames(s)|
  {
    assert FreeFrames(s) == FreeFrames(s') + FrameRange(b, b + f);
    assert FreeFrames(s') !! FrameRange(b, b + f);
    RangeSize(b, f);
  }

  lemma TakeKeepsInv(v: Live, b: int, f: U64, s': Pmm, p: U64)
    requires LiveInv(v) && 0 <= b && f > 0 && b + f <= v.s.g.frames && RunAt(v.s, b, f) && p == FrameStart(v.s.g, b)
    requires s' == v.s.(bits := v.s.bits + FrameRange(b, b + f)) && Sound(s')
    ensures LiveInv(Live(s', v.blocks + [Block(p, f)]))
  {
    var s, blk := v.s, Block(p, f);
    AlignedFrames(s.g, b);
    assert forall k :: Protected(s', k) ==> Protected(s, k);
    hide Sound, IndexReserved, FloorFrame, FrameStart, Protected;
    assert Held(s', blk);
    forall i | 0 <= i < |v.blocks|
      ensures Held(s', v.blocks[i]) && Disjoint(s.g, v.blocks[i], blk)
    {
      assert Held(s, v.blocks[i]);
    }
  }

  lemma ReleaseKeeps(v: Live, i: nat)
    requires LiveInv(v) && i < |v.blocks|
    ensures var (w, ok) := LiveStep(v, Release(i));
            ok && LiveInv(w) && Budget(w) == Budget(v) && w.s.g == v.s.g
  {
    var s, blk := v.s, v.blocks[i];
    var b := FloorFrame(s.g, blk.p);
    var w := LiveStep(v, Release(i)).0;
    assert Held(s, blk);
    UnprotectedBlockPasses(s, b, blk.f);
    BlockInWindow(s.g, b, blk.f);
    FreeInWindow(s, blk.p, blk.f);
    WindowFreesItsOwn(s.g, blk.p, blk.f);
    FreeKeepsSound(s, blk.p, blk.f);
    assert w.s == s.(bits := s.bits - FrameRange(b, b + blk.f));
    ReleaseKeepsOthers(v, i, w);
    assert forall k :: b <= k < b + blk.f ==> Holds(s.g, blk, k);
    ReleaseKeepsBudget(s, b, blk.f, w.s);
    LiveRemove(v.blocks, i);
  }

  lemma ReleaseKeepsBudget(s: Pmm, b: nat, f: U64, s': Pmm)
    requires b + f <= s.g.frames && s' == s.(bits := s.bits - FrameRange(b, b + f))
    requires forall k :: b <= k < b + f ==> k in s.bits
    ensures |FreeFrames(s')| == |FreeFrames(s)| + f
  {
    assert FreeFrames(s') == FreeFrames(s) + FrameRange(b, b + f);
    assert FreeFrames(s) !! FrameRange(b, b + f);
    RangeSize(b, f);
  }

  lemma ReleaseKeepsOthers(v: Live, i: nat, w: Live)
    requires LiveInv(v) && i < |v.blocks| && Sound(w.s) && w.blocks == v.blocks[..i] + v.blocks[i + 1..]
    requires var b := FloorFrame(v.s.g, v.blocks[i].p);
             w.s == v.s.(bits := v.s.bits - FrameRange(b, b + v.blocks[i].f))
    ensures LiveInv(w)
  {
    var s := v.s;
    assert forall k :: Protected(w.s, k) ==> Protected(s, k);
    forall j | 0 <= j < |v.blocks| && j != i
      ensures Held(w.s, v.blocks[j])
    {
      assert Held(s, v.blocks[j]);
      assert if j < i then Disjoint(s.g, v.blocks[j], v.blocks[i]) else Disjoint(s.g, v.blocks[i], v.blocks[j]);
      forall k | Holds(s.g, v.blocks[j], k)
        ensures k in w.s.bits
      {
        assert !Holds(s.g, v.blocks[i], k);
      }
    }
    assert forall j :: 0 <= j < |w.blocks| ==> w.blocks[j] == v.blocks[if j < i then j else j + 1];
  }

  lemma TakeAtKeeps(v: Live, p: U64, f: U64)
    requires LiveInv(v) && Honest(v, TakeAt(p, f))
    ensures var (w, ok) := LiveStep(v, TakeAt(p, f));
            LiveInv(w) && Budget(w) == Budget(v) && w.s.g == v.s.g
  {
    hide ExplicitStep, Budget, LiveInv, Verdict;
    InvIsSound(v);
    WindowFrames(v.s.g, p, f);
    ExplicitExact(v.s, p, f);
    ExplicitKeepsSound(v.s, p, f);
    var (s', ok) := ExplicitStep(v.s, p, f);
    if ok {
      TakeKeeps(v, FloorFrame(v.s.g, p), f, s', p);
    }
  }

  lemma InvIsSound(v: Live)
    requires LiveInv(v)
    ensures Sound(v.s)
  {
  }

  /** One honest call keeps live blocks disjoint and the budget constant, and a release never fails. */
  lemma LiveStepKeeps(v: Live, op: LiveOp)
    requires LiveInv(v) && Honest(v, op)
    ensures var (w, ok) := LiveStep(v, op);
            LiveInv(w) && Budget(w) == Budget(v) && w.s.g == v.s.g && (op.Release? ==> ok)
  {
    match op
    case Take(f) =>
      AllocateExact(v.s, f);
      FirstFitIsLeast(v.s, 0, Wanted(f));
      var (s', ok, p) := AllocateStep(v.s, f);
      if ok {
        TakeKeeps(v, FirstFit(v.s, 0, Wanted(f)), f, s', p);
      }
    case TakeAt(p, f) =>
      TakeAtKeeps(v, p, f);
    case Release(i) =>
      ReleaseKeeps(v, i);
  }

  /** Every step of the run is honest in the state it meets. */
  ghost predicate HonestRun(v: Live, ops: seq<LiveOp>)
    requires v.s.g.pageSize > 0
    decreases |ops|
  {
    ops == [] || (Honest(v, ops[0]) && HonestRun(LiveStep(v, ops[0]).0, ops[1..]))
  }

  ghost function LiveRun(v: Live, ops: seq<LiveOp>): Live
    requires v.s.g.pageSize > 0 && HonestRun(v, ops)
    decreases |ops|
  {
    if ops == [] then v else LiveRun(LiveStep(v, ops[0]).0, ops[1..])
  }

  /** Every release of the run gives its block back. */
  ghost predicate ReleasesSucceed(v: Live, ops: seq<LiveOp>)
    requires v.s.g.pageSize > 0 && HonestRun(v, ops)
    decreases |ops|
  {
    ops == [] || ((ops[0].Release? ==> LiveStep(v, ops[0]).1) && ReleasesSucceed(LiveStep(v, ops[0]).0, ops[1..]))
  }

  /** Over any honest run, live blocks stay disjoint, free plus live frames stay constant, and no release fails. */
  lemma {:induction false} LiveRunConserves(v: Live, ops: seq<LiveOp>)
    requires LiveInv(v) && HonestRun(v, ops)
    ensures LiveInv(LiveRun(v, ops)) && Budget(LiveRun(v, ops)) == Budget(v) && ReleasesSucceed(v, ops)
    decreases |ops|
  {
    if ops != [] {
      LiveStepKeeps(v, ops[0]);
      LiveRunConserves(LiveStep(v, ops[0]).0, ops[1..]);
    }
  }
}

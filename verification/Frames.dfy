/** Page frames and addresses as the physical memory manager converts them (Memory/PhysicalMemoryManager). */
module Frames {
  import opened Machine

  /** What `start` detects: the lowest address of the map, the page size and the number of page frames. */
  datatype Geometry = Geometry(base: U64, pageSize: U64, frames: U32)

  /** Firmware's promise about the managed range: whole pages, a 32-bit frame count, no overflow. */
  predicate ValidGeometry(g: Geometry) {
    0 < g.pageSize < TWO_32 && g.base % g.pageSize == 0
    && g.frames + 7 < TWO_32
    && g.base + g.frames * g.pageSize < TWO_64 - 1
  }

  function ToPageFrame(g: Geometry, addr: U64): U32
    requires g.pageSize > 0
  {
    Wrap32(Wrap64(addr - g.base) / g.pageSize)
  }

  function ToPageFrameRoundUp(g: Geometry, addr: U64): U32
    requires g.pageSize > 0
  {
    Wrap32(DivRoundUp(Wrap64(addr - g.base), g.pageSize))
  }

  /** `div_round_up` on 64-bit operands: the sum may wrap. */
  function DivRoundUp(num: U64, divisor: U64): U64
    requires divisor > 0
  {
    QuotientBound(Wrap64(num + divisor - 1), divisor);
    Wrap64(num + divisor - 1) / divisor
  }

  function ToAddress(g: Geometry, frame: U32): U64 {
    Wrap64(g.base + Wrap64(frame * g.pageSize))
  }

  /** The first address of a frame, without any wrap-around. */
  function FrameStart(g: Geometry, k: int): int {
    g.base + k * g.pageSize
  }

  /** The frame an address lies in, and the first frame at or above it. */
  function FloorFrame(g: Geometry, p: int): int
    requires g.pageSize > 0
  {
    (p - g.base) / g.pageSize
  }

  function CeilFrame(g: Geometry, p: int): int
    requires g.pageSize > 0
  {
    (p - g.base + g.pageSize - 1) / g.pageSize
  }

  /**
   * A request of f frames at p that starts in or behind the managed range, does not overflow the address
   * space and whose frame numbers fit a 32-bit frame index.
   */
  predicate InWindow(g: Geometry, p: U64, f: nat)
    requires g.pageSize > 0
  {
    g.base <= p && p + f * g.pageSize < TWO_64 && p - g.base + g.pageSize - 1 < TWO_64
    && CeilFrame(g, p) + f < TWO_32
  }

  lemma FrameOrder(g: Geometry, k: int, l: int)
    requires g.pageSize > 0
    ensures k < l <==> FrameStart(g, k) < FrameStart(g, l)
    ensures k < l ==> FrameStart(g, k) + g.pageSize <= FrameStart(g, l)
    ensures FrameStart(g, k + 1) == FrameStart(g, k) + g.pageSize
  {
    ProductBound(l - k, g.pageSize);
    assert (l - k) * g.pageSize == l * g.pageSize - k * g.pageSize;
    assert (k + 1) * g.pageSize == k * g.pageSize + g.pageSize;
  }

  lemma FloorFrameFacts(g: Geometry, p: int)
    requires g.pageSize > 0
    ensures FrameStart(g, FloorFrame(g, p)) <= p < FrameStart(g, FloorFrame(g, p)) + g.pageSize
    ensures FrameStart(g, CeilFrame(g, p)) - g.pageSize < p <= FrameStart(g, CeilFrame(g, p))
  {
    var x := p - g.base;
    var y := x + g.pageSize - 1;
    assert x == (x / g.pageSize) * g.pageSize + x % g.pageSize;
    assert y == (y / g.pageSize) * g.pageSize + y % g.pageSize;
  }

  /** Inside the window neither subtraction, nor rounding, nor truncation loses anything. */
  lemma WindowFrames(g: Geometry, p: U64, f: nat)
    requires ValidGeometry(g) && InWindow(g, p, f)
    ensures ToPageFrame(g, p) == FloorFrame(g, p) && ToPageFrameRoundUp(g, p) == CeilFrame(g, p)
    ensures 0 <= FloorFrame(g, p) <= CeilFrame(g, p) && CeilFrame(g, p) + f < TWO_32
    ensures f < TWO_32 && Wrap64(f * g.pageSize) == f * g.pageSize && (f * g.pageSize) / g.pageSize == f
  {
    hide InWindow, ValidGeometry, FloorFrame, CeilFrame, ToPageFrame, ToPageFrameRoundUp;
    WindowSpan(g, p, f);
    FrameIndices(g, p);
    ExactFrames(g, p);
    MultipleIsAligned(f, g.pageSize);
  }

  lemma ExactFrames(g: Geometry, p: U64)
    requires 0 < g.pageSize && g.base <= p && p - g.base + g.pageSize - 1 < TWO_64
    ensures 0 <= FloorFrame(g, p) < TWO_32 ==> ToPageFrame(g, p) == FloorFrame(g, p)
    ensures 0 <= CeilFrame(g, p) < TWO_32 ==> ToPageFrameRoundUp(g, p) == CeilFrame(g, p)
  {
    hide Wrap64, Wrap32;
    WrapFits(p - g.base);
    WrapFits(p - g.base + g.pageSize - 1);
    Wrap32Fits(FloorFrame(g, p));
    Wrap32Fits(CeilFrame(g, p));
  }

  lemma FrameIndices(g: Geometry, p: int)
    requires g.pageSize > 0 && g.base <= p
    ensures 0 <= FloorFrame(g, p) <= CeilFrame(g, p) <= FloorFrame(g, p) + 1
  {
    FloorFrameFacts(g, p);
    FrameOrder(g, FloorFrame(g, p), -1);
    FrameOrder(g, CeilFrame(g, p), FloorFrame(g, p));
    FrameOrder(g, FloorFrame(g, p) + 1, CeilFrame(g, p));
  }

  lemma WindowSpan(g: Geometry, p: U64, f: nat)
    requires ValidGeometry(g) && InWindow(g, p, f)
    ensures g.base <= p && 0 <= f * g.pageSize < TWO_64 && p - g.base + g.pageSize - 1 < TWO_64
    ensures g.pageSize > 0 && CeilFrame(g, p) + f < TWO_32
  {
    ProductBound(f, g.pageSize);
  }

  lemma FrameOffset(g: Geometry, k: int, n: int)
    ensures FrameStart(g, k + n) == FrameStart(g, k) + n * g.pageSize
  {
  }

  /** The frames a request rounded up covers all begin inside the requested addresses. */
  lemma FreedFramesBeginInside(g: Geometry, p: int, f: nat, k: int)
    requires g.pageSize > 0 && CeilFrame(g, p) <= k < CeilFrame(g, p) + f
    ensures p <= FrameStart(g, k) < p + f * g.pageSize
  {
    hide CeilFrame, FrameStart;
    var c := CeilFrame(g, p);
    FloorFrameFacts(g, p);
    FrameOrder(g, c, k);
    FrameOrder(g, k, c + f);
    FrameOffset(g, c, f);
  }

  /** For addresses that frames begin at, rounding does nothing. */
  lemma AlignedFrames(g: Geometry, k: int)
    requires g.pageSize > 0
    ensures FloorFrame(g, FrameStart(g, k)) == k == CeilFrame(g, FrameStart(g, k))
  {
    var P := g.pageSize;
    DivModUnique(k * P, P, k, 0);
    DivModUnique(k * P + P - 1, P, k, P - 1);
  }

  lemma AddressOfFrame(g: Geometry, k: U32)
    requires ValidGeometry(g) && k <= g.frames
    ensures ToAddress(g, k) == FrameStart(g, k)
    ensures FrameStart(g, k) <= FrameStart(g, g.frames) < TWO_64 - 1
  {
    FrameOrder(g, k, g.frames);
    FrameOrder(g, 0, k);
    WrapFits(k * g.pageSize);
    WrapFits(FrameStart(g, k));
  }
}

/** What loading program headers means for memory (App/ELFLoader, `load_segments`). */
module ElfImages {
  import opened Machine

  const BUF_SIZE := 8192
  const PT_LOAD: U32 := 1

  datatype ProgramHeader =
    ProgramHeader(segmentType: U32, offset: U64, virtualAddress: U64, fileSize: U64, memorySize: U64)

  /** The conversion of a 64-bit offset to `int` in front of the node's seek. */
  function ToInt32(x: U64): int {
    if Wrap32(x) >= 0x8000_0000 then Wrap32(x) - TWO_32 else Wrap32(x)
  }

  /** The conversion keeps exactly the offsets below 2 GiB. */
  lemma OffsetSurvives(x: U64)
    ensures ToInt32(x) == x <==> x < 0x8000_0000
  {
    Wrap32Fits(x);
  }

  /** In a file of that size, a header is sought at its own offset exactly below the size and below 2 GiB. */
  lemma SoughtAtOffset(ph: ProgramHeader, size: nat)
    ensures Seekable(ph, size) && ToInt32(ph.offset) == ph.offset <==> ph.offset < Min(size, 0x8000_0000)
  {
    OffsetSurvives(ph.offset);
    hide ToInt32;
  }

  /** A segment at offset 2^32 + 5 is loaded from offset 5. */
  lemma WrongOffsetExample(m: seq<U8>, content: seq<U8>)
    requires |m| > 0 && |content| > 5
    ensures var ph := ProgramHeader(PT_LOAD, TWO_32 + 5, 0, 1, 1);
            Seekable(ph, |content|) && Loadable(ph, content, |m|) && Write(m, ph, content)[0] == content[5]
  {
    assert Wrap32(TWO_32 + 5) == 5;
  }

  /** Seeking to a header works exactly when the converted offset names a byte of the file. */
  predicate Seekable(ph: ProgramHeader, size: nat) { 0 <= ToInt32(ph.offset) < size }

  /** The bytes a load touches: file bytes are copied in full, even when they exceed the memory size. */
  function Extent(ph: ProgramHeader): nat { Max(ph.fileSize, ph.memorySize) }

  predicate Touches(ph: ProgramHeader, a: int) {
    ph.segmentType == PT_LOAD && ph.virtualAddress <= a < ph.virtualAddress + Extent(ph)
  }

  /** A header whose load terminates and stays inside memory. */
  predicate Loadable(ph: ProgramHeader, content: seq<U8>, memory: nat) {
    ph.segmentType == PT_LOAD && Seekable(ph, |content|) ==>
      ToInt32(ph.offset) + ph.fileSize <= |content| && ph.virtualAddress + Extent(ph) <= memory
  }

  /** Memory after one segment: file bytes first, zeros up to the memory size, everything else as before. */
  function Write(m: seq<U8>, ph: ProgramHeader, content: seq<U8>): (r: seq<U8>)
    requires Seekable(ph, |content|) && Loadable(ph, content, |m|)
    ensures |r| == |m|
  {
    if ph.segmentType != PT_LOAD then m
    else
      var va := ph.virtualAddress;
      m[..va] + content[ToInt32(ph.offset)..ToInt32(ph.offset) + ph.fileSize]
      + (if ph.memorySize > ph.fileSize then seq(ph.memorySize - ph.fileSize, _ => 0) else [])
      + m[va + Extent(ph)..]
  }

  /** The number of headers handled before the first one that cannot be sought. */
  function Handled(phs: seq<ProgramHeader>, size: nat): (n: nat)
    ensures n <= |phs|
  {
    if phs == [] then 0
    else if phs[0].segmentType == PT_LOAD && !Seekable(phs[0], size) then 0
    else 1 + Handled(phs[1..], size)
  }

  ghost predicate AllLoadable(phs: seq<ProgramHeader>, content: seq<U8>, memory: nat) {
    forall i :: 0 <= i < |phs| ==> Loadable(phs[i], content, memory)
  }

  predicate AllSeekable(phs: seq<ProgramHeader>, size: nat) {
    forall i :: 0 <= i < |phs| ==> phs[i].segmentType == PT_LOAD ==> Seekable(phs[i], size)
  }

  /** Memory after all headers, in order. */
  function Image(m: seq<U8>, phs: seq<ProgramHeader>, content: seq<U8>): (r: seq<U8>)
    requires AllLoadable(phs, content, |m|) && AllSeekable(phs, |content|)
    ensures |r| == |m|
  {
    if phs == [] then m
    else
      var n := |phs| - 1;
      var before := Image(m, phs[..n], content);
      if phs[n].segmentType == PT_LOAD then Write(before, phs[n], content) else before
  }

  lemma {:induction false} HandledIsFirst(phs: seq<ProgramHeader>, size: nat, n: nat)
    requires n <= |phs| && (forall i :: 0 <= i < n ==> phs[i].segmentType == PT_LOAD ==> Seekable(phs[i], size))
    requires n < |phs| ==> phs[n].segmentType == PT_LOAD && !Seekable(phs[n], size)
    ensures Handled(phs, size) == n
  {
    if n > 0 {
      HandledIsFirst(phs[1..], size, n - 1);
    }
  }

  lemma WriteAt(m: seq<U8>, ph: ProgramHeader, content: seq<U8>, a: nat)
    requires Seekable(ph, |content|) && Loadable(ph, content, |m|) && a < |m|
    ensures Write(m, ph, content)[a] ==
            if !Touches(ph, a) then m[a]
            else if a < ph.virtualAddress + ph.fileSize then content[ToInt32(ph.offset) + a - ph.virtualAddress]
            else 0
  {
  }

  /** An address no loaded segment touches keeps its byte. */
  lemma {:induction false} ImageOutside(m: seq<U8>, phs: seq<ProgramHeader>, content: seq<U8>, a: nat)
    requires AllLoadable(phs, content, |m|) && AllSeekable(phs, |content|) && a < |m|
    requires forall i :: 0 <= i < |phs| ==> !Touches(phs[i], a)
    ensures Image(m, phs, content)[a] == m[a]
  {
    if phs != [] {
      var n := |phs| - 1;
      ImageOutside(m, phs[..n], content, a);
      if phs[n].segmentType == PT_LOAD {
        WriteAt(Image(m, phs[..n], content), phs[n], content, a);
      }
    }
  }

  /** Where segments overlap, the last header that touches an address decides its byte. */
  lemma {:induction false} ImageInside(m: seq<U8>, phs: seq<ProgramHeader>, content: seq<U8>, j: nat, a: nat)
    requires AllLoadable(phs, content, |m|) && AllSeekable(phs, |content|) && a < |m|
    requires j < |phs| && Touches(phs[j], a) && forall i :: j < i < |phs| ==> !Touches(phs[i], a)
    ensures var ph := phs[j];
            Image(m, phs, content)[a] ==
            if a < ph.virtualAddress + ph.fileSize then content[ToInt32(ph.offset) + a - ph.virtualAddress] else 0
  {
    var n := |phs| - 1;
    if phs[n].segmentType == PT_LOAD {
      WriteAt(Image(m, phs[..n], content), phs[n], content, a);
    }
    if j < n {
      ImageInside(m, phs[..n], content, j, a);
    }
  }

  /** Segments that share no memory address. */
  ghost predicate Disjoint(phs: seq<ProgramHeader>) {
    forall i, j, a :: 0 <= i < j < |phs| ==> !(Touches(phs[i], a) && Touches(phs[j], a))
  }

  /** A header as the gABI allows it: its file bytes exist, fit its memory size and land inside memory. */
  predicate WellPlaced(ph: ProgramHeader, content: seq<U8>, memory: nat) {
    ph.segmentType == PT_LOAD ==>
      && ph.fileSize <= ph.memorySize && ph.virtualAddress + ph.memorySize <= memory
      && ph.offset < |content| && ph.offset + ph.fileSize <= |content|
  }

  /** The segment's file bytes are at its address and zeros follow up to its memory size. */
  ghost predicate Loaded(r: seq<U8>, ph: ProgramHeader, content: seq<U8>)
    requires ph.segmentType == PT_LOAD && WellPlaced(ph, content, |r|)
  {
    var va := ph.virtualAddress;
    && r[va..va + ph.fileSize] == content[ph.offset..ph.offset + ph.fileSize]
    && forall a :: va + ph.fileSize <= a < va + ph.memorySize ==> r[a] == 0
  }

  /**
   * The System V gABI reading of PT_LOAD for an executable of at most 2 GiB with disjoint segments: file
   * bytes where the header puts them, zeros up to the memory size, nothing else changed.
   */
  lemma ImageIsGabi(m: seq<U8>, phs: seq<ProgramHeader>, content: seq<U8>)
    requires |content| <= 0x8000_0000 && Disjoint(phs)
    requires forall i :: 0 <= i < |phs| ==> WellPlaced(phs[i], content, |m|)
    ensures AllLoadable(phs, content, |m|) && AllSeekable(phs, |content|)
    ensures var r := Image(m, phs, content);
            && (forall i :: 0 <= i < |phs| && phs[i].segmentType == PT_LOAD ==> Loaded(r, phs[i], content))
            && (forall a :: 0 <= a < |m| && (forall i :: 0 <= i < |phs| ==> !Touches(phs[i], a)) ==> r[a] == m[a])
  {
    forall i | 0 <= i < |phs|
      ensures phs[i].segmentType == PT_LOAD ==> Seekable(phs[i], |content|)
      ensures Loadable(phs[i], content, |m|)
    {
      WellPlacedLoads(phs[i], content, |m|);
    }
    var r := Image(m, phs, content);
    forall i | 0 <= i < |phs| && phs[i].segmentType == PT_LOAD
      ensures Loaded(r, phs[i], content)
    {
      SegmentLoaded(m, phs, content, i);
    }
    forall a | 0 <= a < |m| && (forall i :: 0 <= i < |phs| ==> !Touches(phs[i], a))
      ensures r[a] == m[a]
    {
      ImageOutside(m, phs, content, a);
    }
  }

  lemma WellPlacedLoads(ph: ProgramHeader, content: seq<U8>, memory: nat)
    requires |content| <= 0x8000_0000 && WellPlaced(ph, content, memory)
    ensures Loadable(ph, content, memory)
    ensures ph.segmentType == PT_LOAD ==> Seekable(ph, |content|) && ToInt32(ph.offset) == ph.offset
  {
    Wrap32Fits(ph.offset);
  }

  lemma SegmentLoaded(m: seq<U8>, phs: seq<ProgramHeader>, content: seq<U8>, i: nat)
    requires |content| <= 0x8000_0000 && Disjoint(phs) && i < |phs| && phs[i].segmentType == PT_LOAD
    requires AllLoadable(phs, content, |m|) && AllSeekable(phs, |content|) && WellPlaced(phs[i], content, |m|)
    ensures Loaded(Image(m, phs, content), phs[i], content)
  {
    hide Image, Loadable, Seekable, ToInt32, WellPlaced;
    var ph, r := phs[i], Image(m, phs, content);
    WellPlacedLoads(ph, content, |m|);
    WellPlacedFits(ph, content, |m|);
    forall a | ph.virtualAddress <= a < ph.virtualAddress + ph.memorySize
      ensures r[a] == if a < ph.virtualAddress + ph.fileSize then content[ph.offset + a - ph.virtualAddress] else 0
    {
      assert Touches(ph, a);
      ImageInside(m, phs, content, i, a);
    }
    SameStretch(r, ph.virtualAddress, content, ph.offset, ph.fileSize);
  }

  lemma WellPlacedFits(ph: ProgramHeader, content: seq<U8>, memory: nat)
    requires ph.segmentType == PT_LOAD && WellPlaced(ph, content, memory)
    ensures ph.fileSize <= ph.memorySize && ph.virtualAddress + ph.memorySize <= memory
    ensures ph.offset + ph.fileSize <= |content|
  {
  }

  lemma SameStretch(r: seq<U8>, va: nat, content: seq<U8>, offset: nat, n: nat)
    requires va + n <= |r| && offset + n <= |content|
    requires forall a :: va <= a < va + n ==> r[a] == content[offset + a - va]
    ensures r[va..va + n] == content[offset..offset + n]
  {
  }

  // ---- when the copy loop ends ------------------------------------------------------------------------

  /** What is left to copy after k turns of the copy loop with that many bytes left in the file. */
  function LeftAfter(toCopy: nat, available: nat, k: nat): (left: nat)
    decreases k
  {
    if k == 0 || toCopy == 0 then toCopy
    else
      var memRead := Min(BUF_SIZE, available);
      LeftAfter(toCopy - Min(memRead, toCopy), available - memRead, k - 1)
  }

  /** The copy loop ends exactly when the file holds all the bytes the header asks for. */
  lemma CopyEndsExactly(toCopy: nat, available: nat)
    ensures (exists k :: LeftAfter(toCopy, available, k) == 0) <==> toCopy <= available
  {
    if toCopy <= available {
      CopyEnds(toCopy, available);
    } else {
      forall k
        ensures LeftAfter(toCopy, available, k) != 0
      {
        CopySpins(toCopy, available, k);
      }
    }
  }

  lemma {:induction false} CopyEnds(toCopy: nat, available: nat)
    requires toCopy <= available
    ensures LeftAfter(toCopy, available, toCopy) == 0
    decreases toCopy
  {
    if toCopy > 0 {
      var memRead := Min(BUF_SIZE, available);
      var rest := toCopy - Min(memRead, toCopy);
      CopyEnds(rest, available - memRead);
      MoreTurns(rest, available - memRead, rest, toCopy - 1);
    }
  }

  lemma {:induction false} MoreTurns(toCopy: nat, available: nat, k: nat, l: nat)
    requires k <= l && LeftAfter(toCopy, available, k) == 0
    ensures LeftAfter(toCopy, available, l) == 0
    decreases l
  {
    if toCopy > 0 {
      var memRead := Min(BUF_SIZE, available);
      MoreTurns(toCopy - Min(memRead, toCopy), available - memRead, k - 1, l - 1);
    }
  }

  lemma {:induction false} CopySpins(toCopy: nat, available: nat, k: nat)
    requires toCopy > available
    ensures LeftAfter(toCopy, available, k) >= toCopy - available > 0
    decreases k
  {
    if k > 0 {
      var memRead := Min(BUF_SIZE, available);
      CopySpins(toCopy - memRead, available - memRead, k - 1);
    }
  }
}

/** Memory regions, their order and the address arithmetic around them (KRE/Memory). */
module Regions {
  import opened Machine

  datatype MemoryRegionType =
    | NONE | USABLE | USED | RESERVED | USERSPACE | HHDM | PMM_RESERVED
    | KERNEL_HEAP | KERNEL_CODE | ACPI | BOOTLOADER_RECLAIMABLE

  datatype MemoryRegion = MemoryRegion(start: U64, size: U64, memoryType: MemoryRegionType) {

    /** The end address, clamped to the largest address when it would overflow. */
    function End(): U64 {
      if start > TWO_64 - 1 - size then TWO_64 - 1 else start + size
    }

    /** The overlap test the source calls `contains`. */
    predicate Contains(other: MemoryRegion) {
      start < other.End() && other.start < End()
    }

    /** The order regions are sorted by: start first, then size. */
    predicate Leq(other: MemoryRegion) {
      if start == other.start then size <= other.size else start < other.start
    }

    predicate Covers(a: int) { start <= a < start + size }
  }

  /** Regions that are not empty and do not reach the last address overlap exactly when they share an address. */
  lemma ContainsMeaning(r: MemoryRegion, s: MemoryRegion)
    requires r.size > 0 && s.size > 0 && r.start + r.size < TWO_64 && s.start + s.size < TWO_64
    ensures r.Contains(s) <==> exists a: int :: r.Covers(a) && s.Covers(a)
  {
    if r.Contains(s) {
      var a := Max(r.start, s.start);
      assert r.Covers(a) && s.Covers(a);
    }
  }

  predicate MemoryIsAligned(addr: U64, boundary: U64)
    requires boundary > 0
  {
    addr % boundary == 0
  }

  /** Rounding as written: rounding up always goes to the next boundary, even from an aligned address. */
  function MemoryAlign(addr: U64, boundary: U64, roundUp: bool): U64
    requires boundary > 0
  {
    var pages := addr / boundary;
    Wrap64((if roundUp then Wrap64(pages + 1) else pages) * boundary)
  }

  lemma RegionOrderIsTotal(r: MemoryRegion, s: MemoryRegion, t: MemoryRegion)
    ensures r.Leq(s) || s.Leq(r)
    ensures r.Leq(s) && s.Leq(t) ==> r.Leq(t)
    ensures r.Leq(s) && s.Leq(r) ==> r.start == s.start && r.size == s.size
  {
  }

  /** Rounding is exact as long as the result fits: down to the floor, up to the boundary above it. */
  lemma MemoryAlignMeaning(addr: U64, boundary: U64)
    requires 0 < boundary
    ensures MemoryAlign(addr, boundary, false) == Floor(addr, boundary)
    ensures Floor(addr, boundary) + boundary < TWO_64 ==>
              MemoryAlign(addr, boundary, true) == Floor(addr, boundary) + boundary
  {
    var pages := addr / boundary;
    FloorAsProduct(addr, boundary);
    QuotientBound(addr, boundary);
    FloorFacts(addr, boundary);
    assert Wrap64(pages * boundary) == pages * boundary;
    if Floor(addr, boundary) + boundary < TWO_64 {
      QuotientBelow(pages + 1, boundary, TWO_64);
      assert Wrap64(pages + 1) == pages + 1;
    }
  }

  lemma QuotientBelow(q: nat, p: int, limit: int)
    requires p > 0 && q * p < limit
    ensures q < limit
  {
    assert q <= q * p;
  }

  /** Rounding an aligned address up does not leave it alone: it moves it one boundary further. */
  lemma RoundingUpSkipsAligned(addr: U64, boundary: U64)
    requires 0 < boundary && Floor(addr, boundary) + boundary < TWO_64
    ensures MemoryAlign(addr, boundary, true) == Ceiling(addr, boundary) <==> !MemoryIsAligned(addr, boundary)
    ensures MemoryIsAligned(addr, boundary) ==> MemoryAlign(addr, boundary, true) == addr + boundary
  {
    MemoryAlignMeaning(addr, boundary);
  }

  /** Half-open ranges that share no address. */
  predicate Apart(r: MemoryRegion, s: MemoryRegion) {
    r.start + r.size <= s.start || s.start + s.size <= r.start
  }

  /** A map in order: every region ends where a later one starts, or before. */
  ghost predicate Ordered(rs: seq<MemoryRegion>) {
    forall i, j :: 0 <= i < j < |rs| ==> rs[i].start + rs[i].size <= rs[j].start
  }

  ghost predicate PairwiseApart(rs: seq<MemoryRegion>) {
    forall i, j :: 0 <= i < j < |rs| ==> Apart(rs[i], rs[j])
  }

  ghost predicate Sorted(rs: seq<MemoryRegion>) {
    forall i, j :: 0 <= i < j < |rs| ==> rs[i].Leq(rs[j])
  }

  lemma OrderedMeansSortedApart(rs: seq<MemoryRegion>)
    ensures Ordered(rs) <==> Sorted(rs) && PairwiseApart(rs)
  {
    if Ordered(rs) {
      assert Sorted(rs);
    }
    if Sorted(rs) && PairwiseApart(rs) {
      forall i, j | 0 <= i < j < |rs|
        ensures rs[i].start + rs[i].size <= rs[j].start
      {
        assert rs[i].Leq(rs[j]) && Apart(rs[i], rs[j]);
      }
    }
  }

  /** The type of the region that holds an address, NONE when no region does. */
  ghost function TypeAt(rs: seq<MemoryRegion>, a: int): MemoryRegionType {
    if exists i :: 0 <= i < |rs| && rs[i].Covers(a) then
      var i :| 0 <= i < |rs| && rs[i].Covers(a);
      rs[i].memoryType
    else
      NONE
  }

  lemma TypeAtRegion(rs: seq<MemoryRegion>, i: int, a: int)
    requires PairwiseApart(rs) && 0 <= i < |rs| && rs[i].Covers(a)
    ensures TypeAt(rs, a) == rs[i].memoryType
  {
    forall j | 0 <= j < |rs| && rs[j].Covers(a)
      ensures j == i
    {
    }
  }

  /** The bytes a map gives to the types in kinds. */
  function SizeOf(rs: seq<MemoryRegion>, kinds: set<MemoryRegionType>): nat {
    if rs == [] then 0 else SizeOf(rs[..|rs| - 1], kinds) + SizeIn(rs[|rs| - 1], kinds)
  }

  function SizeIn(r: MemoryRegion, kinds: set<MemoryRegionType>): nat {
    if r.memoryType in kinds then r.size else 0
  }

  const USABLE_KINDS: set<MemoryRegionType> := {USABLE}
  const RESERVED_KINDS: set<MemoryRegionType> :=
    {NONE, USED, RESERVED, USERSPACE, HHDM, PMM_RESERVED, KERNEL_HEAP, KERNEL_CODE, ACPI, BOOTLOADER_RECLAIMABLE}

  lemma SizeOfAppend(rs: seq<MemoryRegion>, r: MemoryRegion, kinds: set<MemoryRegionType>)
    ensures SizeOf(rs + [r], kinds) == SizeOf(rs, kinds) + SizeIn(r, kinds)
  {
    assert (rs + [r])[..|rs|] == rs;
  }

  lemma {:induction false} SizeOfUpdate(rs: seq<MemoryRegion>, i: int, r: MemoryRegion, kinds: set<MemoryRegionType>)
    requires 0 <= i < |rs|
    ensures SizeOf(rs[i := r], kinds) == SizeOf(rs, kinds) - SizeIn(rs[i], kinds) + SizeIn(r, kinds)
  {
    var n := |rs| - 1;
    if i == n {
      assert rs[i := r][..n] == rs[..n];
    } else {
      assert rs[i := r][..n] == rs[..n][i := r];
      SizeOfUpdate(rs[..n], i, r, kinds);
    }
  }

  lemma {:induction false} SizeOfRemove(rs: seq<MemoryRegion>, i: int, kinds: set<MemoryRegionType>)
    requires 0 <= i < |rs|
    ensures SizeOf(rs, kinds) == SizeOf(rs[..i] + rs[i + 1..], kinds) + SizeIn(rs[i], kinds)
  {
    var n := |rs| - 1;
    if i == n {
      assert rs[..i] + rs[i + 1..] == rs[..n];
    } else {
      assert (rs[..i] + rs[i + 1..])[..n - 1] == rs[..n][..i] + rs[..n][i + 1..];
      SizeOfRemove(rs[..n], i, kinds);
    }
  }

  /** The place in ss of the last element of a permutation rs, and what is left without it. */
  lemma MatchLast<T>(rs: seq<T>, ss: seq<T>) returns (j: nat)
    requires multiset(rs) == multiset(ss) && rs != []
    ensures j < |ss| && ss[j] == rs[|rs| - 1]
    ensures multiset(rs[..|rs| - 1]) == multiset(ss[..j] + ss[j + 1..])
  {
    var n := |rs| - 1;
    var x := rs[n];
    MultisetRemove(rs, n);
    assert rs[..n] + rs[n + 1..] == rs[..n];
    assert x in multiset(ss);
    j :| j < |ss| && ss[j] == x;
    MultisetRemove(ss, j);
    assert multiset(rs[..n]) == multiset(rs) - multiset{x};
    assert multiset(ss[..j] + ss[j + 1..]) == multiset(ss) - multiset{x};
  }

  lemma {:induction false} SizeOfPermutation(rs: seq<MemoryRegion>, ss: seq<MemoryRegion>, kinds: set<MemoryRegionType>)
    requires multiset(rs) == multiset(ss)
    ensures SizeOf(rs, kinds) == SizeOf(ss, kinds)
    decreases |rs|
  {
    if rs == [] {
      assert |multiset(ss)| == |ss|;
    } else {
      var j := MatchLast(rs, ss);
      SizeOfRemove(ss, j, kinds);
      SizeOfPermutation(rs[..|rs| - 1], ss[..j] + ss[j + 1..], kinds);
    }
  }

  /** Disjoint regions below 2^64 in order never add up to more than 2^64 bytes. */
  lemma {:induction false} OrderedSizeBound(rs: seq<MemoryRegion>, kinds: set<MemoryRegionType>, end: nat)
    requires Ordered(rs)
    requires forall i :: 0 <= i < |rs| ==> rs[i].start + rs[i].size <= end
    ensures SizeOf(rs, kinds) <= end
  {
    if rs != [] {
      var n := |rs| - 1;
      OrderedSizeBound(rs[..n], kinds, rs[n].start);
    }
  }

  lemma MultisetRemove<T>(s: seq<T>, i: int)
    requires 0 <= i < |s|
    ensures multiset(s) == multiset(s[..i] + s[i + 1..]) + multiset{s[i]}
  {
    assert s == s[..i] + [s[i]] + s[i + 1..];
  }

  /** Reordering a list of disjoint regions leaves it disjoint. */
  lemma ApartPermutation(rs: seq<MemoryRegion>, ss: seq<MemoryRegion>)
    requires multiset(rs) == multiset(ss) && PairwiseApart(rs)
    ensures PairwiseApart(ss)
  {
    forall i, j | 0 <= i < j < |ss|
      ensures Apart(ss[i], ss[j])
    {
      var x, y := ss[i], ss[j];
      assert ss == ss[..i] + [x] + ss[i + 1..j] + [y] + ss[j + 1..];
      assert multiset{x} + multiset{y} <= multiset(ss);
      var k, l := TwoPlaces(rs, x, y);
      assert if k < l then Apart(rs[k], rs[l]) else Apart(rs[l], rs[k]);
    }
  }

  lemma TwoPlaces<T>(s: seq<T>, x: T, y: T) returns (i: nat, k: nat)
    requires multiset{x} + multiset{y} <= multiset(s)
    ensures i < |s| && k < |s| && i != k && s[i] == x && s[k] == y
  {
    assert x in multiset(s) by { assert (multiset{x} + multiset{y})[x] >= 1; }
    i :| i < |s| && s[i] == x;
    var rest := s[..i] + s[i + 1..];
    MultisetRemove(s, i);
    assert y in rest by {
      assert multiset(s)[y] >= (multiset{x} + multiset{y})[y] == multiset{x}[y] + 1;
      assert multiset(rest)[y] >= 1;
    }
    var j: nat :| j < |rest| && rest[j] == y;
    k := if j < i then j else j + 1;
  }

  /** Two disjoint maps that cover an address with the same type agree on it. */
  lemma TypeAtAgrees(rs: seq<MemoryRegion>, ss: seq<MemoryRegion>, a: int)
    requires PairwiseApart(rs) && PairwiseApart(ss)
    requires forall i :: 0 <= i < |rs| && rs[i].Covers(a) ==>
               exists j :: 0 <= j < |ss| && ss[j].Covers(a) && ss[j].memoryType == rs[i].memoryType
    requires forall j :: 0 <= j < |ss| && ss[j].Covers(a) ==> exists i :: 0 <= i < |rs| && rs[i].Covers(a)
    ensures TypeAt(rs, a) == TypeAt(ss, a)
  {
    if i :| 0 <= i < |rs| && rs[i].Covers(a) {
      TypeAtRegion(rs, i, a);
      var j :| 0 <= j < |ss| && ss[j].Covers(a) && ss[j].memoryType == rs[i].memoryType;
      TypeAtRegion(ss, j, a);
    }
  }

  lemma TypeAtPermutation(rs: seq<MemoryRegion>, ss: seq<MemoryRegion>, a: int)
    requires multiset(rs) == multiset(ss) && PairwiseApart(rs)
    ensures TypeAt(rs, a) == TypeAt(ss, a)
  {
    ApartPermutation(rs, ss);
    assert forall i :: 0 <= i < |rs| ==> rs[i] in multiset(ss);
    assert forall j :: 0 <= j < |ss| ==> ss[j] in multiset(rs);
    if i :| 0 <= i < |rs| && rs[i].Covers(a) {
      TypeAtRegion(rs, i, a);
      var j :| 0 <= j < |ss| && ss[j] == rs[i];
      TypeAtRegion(ss, j, a);
    }
  }
}

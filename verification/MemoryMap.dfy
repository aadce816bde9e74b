/** The memory map object: a fixed table of regions, a count and two counters (KRE/Memory). */
module MemoryMaps {
  import opened Machine
  import opened Regions
  import opened ClaimRules
  import opened MergeRules
  import opened Sorting

  const EMPTY := MemoryRegion(0, 0, NONE)

  /** The regions before the first NONE entry. */
  function UntilNone(rs: seq<MemoryRegion>): (n: nat)
    ensures n <= |rs|
    ensures forall k :: 0 <= k < n ==> rs[k].memoryType != NONE
    ensures n < |rs| ==> rs[n].memoryType == NONE
  {
    if rs == [] || rs[0].memoryType == NONE then 0 else 1 + UntilNone(rs[1..])
  }

  lemma {:induction false} UntilNoneIsFirst(rs: seq<MemoryRegion>, n: nat)
    requires n <= |rs| && (forall k :: 0 <= k < n ==> rs[k].memoryType != NONE)
    requires n == |rs| || rs[n].memoryType == NONE
    ensures UntilNone(rs) == n
  {
    if n > 0 {
      UntilNoneIsFirst(rs[1..], n - 1);
    }
  }

  /** The claimant after its size was rounded, as `claim` rounds it. */
  function SizeRounded(c: MemoryRegion, p: U32): MemoryRegion
    requires p > 0
  {
    if MemoryIsAligned(c.size, p) then c else c.(size := MemoryAlign(c.size, p, true))
  }

  /** The claimant after its start was rounded, as `claim` rounds it. */
  function StartRounded(c: MemoryRegion, p: U32): MemoryRegion
    requires p > 0
  {
    if MemoryIsAligned(c.start, p) then c else c.(start := MemoryAlign(c.start, p, false))
  }

  lemma RoundedGrant(r: MemoryRegion, c: MemoryRegion, p: U32)
    requires p > 0 && PageAligned(r, p) && Hosts(r, c)
    ensures SizeRounded(c, p).size == Granted(r, c, p).size
    ensures StartRounded(SizeRounded(c, p), p) == Granted(r, c, p)
    ensures r.start == c.start || r.End() == SizeRounded(c, p).End() ==> SizeRounded(c, p) == Granted(r, c, p)
    ensures r.End() == SizeRounded(c, p).End() <==> r.start + r.size == c.start + Ceiling(c.size, p)
  {
    GrantFits(r, c, p);
    MemoryAlignMeaning(c.size, p);
    MemoryAlignMeaning(c.start, p);
    AlignedSum(r.start, r.size, p);
    AlignedSum(r.start + r.size, Ceiling(c.size, p), p);
  }

  /** What an interior claim splits off to its right, in 64-bit arithmetic. */
  function RightPart(r: MemoryRegion, c: MemoryRegion): MemoryRegion {
    MemoryRegion(c.End(), Wrap64(r.size - c.size - Wrap64(c.start - r.start)), USABLE)
  }

  /** What an interior claim leaves of its host, in 64-bit arithmetic. */
  function LeftPart(r: MemoryRegion, c: MemoryRegion): MemoryRegion {
    r.(size := Wrap64(r.size - Wrap64(c.size + RightPart(r, c).size)))
  }

  /** The regions a split writes, in 64-bit arithmetic: the shrunken host first, the claimed pages last. */
  function SplitPieces(r: MemoryRegion, c: MemoryRegion, p: U32): (ps: seq<MemoryRegion>)
    requires p > 0
    ensures 2 <= |ps| <= 3
  {
    var c1 := SizeRounded(c, p);
    if r.start == c1.start then
      [r.(start := Wrap64(r.start + c1.size), size := Wrap64(r.size - c1.size)), c1]
    else if r.End() == c1.End() then
      [r.(size := Wrap64(r.size - c1.size)), c1]
    else
      var c2 := StartRounded(c1, p);
      [LeftPart(r, c2), RightPart(r, c2), c2]
  }

  /** Inside a page-aligned host no step wraps, so the split writes exactly the pieces of the claim. */
  lemma SplitArithmetic(r: MemoryRegion, c: MemoryRegion, p: U32)
    requires p > 0 && PageAligned(r, p) && Hosts(r, c) && !Exact(r, c)
    ensures SplitPieces(r, c, p) == Pieces(r, c, p)
    ensures SplitPieces(r, c, p)[|SplitPieces(r, c, p)| - 1] == Granted(r, c, p)
  {
    hide Floor, Ceiling, MemoryAlign, MemoryIsAligned, StartRounded;
    RoundedGrant(r, c, p);
    UnwrappedSplit(r, Granted(r, c, p));
  }

  /** Nothing wraps when g lies inside r. */
  lemma UnwrappedSplit(r: MemoryRegion, g: MemoryRegion)
    requires r.start <= g.start && g.start + g.size <= r.start + r.size < TWO_64 - 1
    ensures Wrap64(r.size - g.size) == r.size - g.size && g.End() == g.start + g.size
    ensures g.start == r.start ==> Wrap64(r.start + g.size) == r.start + g.size
    ensures Wrap64(g.start - r.start) == g.start - r.start
    ensures Wrap64(r.size - g.size - (g.start - r.start)) == r.start + r.size - (g.start + g.size)
    ensures Wrap64(g.size + (r.start + r.size - (g.start + g.size))) == r.start + r.size - g.start
    ensures Wrap64(r.size - (r.start + r.size - g.start)) == g.start - r.start
  {
  }

  /** The table after a split: the first piece in place, the others right behind the last region. */
  lemma CarveInTable(s: seq<MemoryRegion>, n: int, i: int, ps: seq<MemoryRegion>, t: seq<MemoryRegion>)
    requires 0 <= i < n && 0 < |ps| && n + |ps| - 1 <= |s| == |t|
    requires t[i] == ps[0]
    requires forall k :: 1 <= k < |ps| ==> t[n + k - 1] == ps[k]
    requires forall k :: 0 <= k < n && k != i ==> t[k] == s[k]
    ensures t[..n + |ps| - 1] == Carve(s[..n], i, ps)
  {
  }

  /** The sums of the USABLE and of all other sizes, as 64-bit counters hold them. */
  function Tally(rs: seq<MemoryRegion>): Counters {
    Counters(Wrap64(SizeOf(rs, USABLE_KINDS)), Wrap64(SizeOf(rs, RESERVED_KINDS)))
  }

  lemma EmptyTally()
    ensures Tally([]) == Counters(0, 0)
  {
  }

  lemma TallyAppend(rs: seq<MemoryRegion>, r: MemoryRegion)
    ensures Tally(rs + [r]) ==
            if r.memoryType == USABLE then Tally(rs).(free := Wrap64(Tally(rs).free + r.size))
            else Tally(rs).(reserved := Wrap64(Tally(rs).reserved + r.size))
  {
    SizeOfAppend(rs, r, USABLE_KINDS);
    SizeOfAppend(rs, r, RESERVED_KINDS);
    KindOf(r.memoryType);
    WrapSum(SizeOf(rs, USABLE_KINDS), r.size);
    WrapSum(SizeOf(rs, RESERVED_KINDS), r.size);
  }

  /** For a map below 2^64 the tally is the true sum. */
  lemma TallyAccounts(rs: seq<MemoryRegion>, p: int)
    requires p > 0 && WellFormed(rs, p)
    ensures Accounts(Tally(rs), rs)
  {
    TotalSizeBound(rs);
  }

  class MemoryMap {
    const entries: array<MemoryRegion>
    var freeMem: U64
    var reservedMem: U64
    var numRegions: nat

    ghost predicate Valid()
      reads this, entries
    {
      entries.Length == LIMIT && numRegions <= LIMIT
      && forall k :: numRegions <= k < LIMIT ==> entries[k] == EMPTY
    }

    ghost function Regions(): seq<MemoryRegion>
      reads this, entries
      requires Valid()
    {
      entries[..numRegions]
    }

    ghost function Counts(): Counters
      reads this
    {
      Counters(freeMem, reservedMem)
    }

    constructor (regions: seq<MemoryRegion>)
      requires |regions| == LIMIT
      ensures Valid() && fresh(entries)
      ensures Regions() == regions[..UntilNone(regions)]
      ensures Counts() == Tally(Regions())
    {
      entries := new MemoryRegion[LIMIT](_ => EMPTY);
      freeMem, reservedMem, numRegions := 0, 0, 0;
      new;
      assert Regions() == [] && Counts() == Tally([]) by { EmptyTally(); }
      Load(regions);
    }

    /** The constructor's loop: copies regions until the first NONE (lines 85 to 98). */
    method Load(regions: seq<MemoryRegion>)
      requires Valid() && |regions| == LIMIT && Regions() == [] && Counts() == Tally([])
      modifies this, entries
      ensures Valid() && Regions() == regions[..UntilNone(regions)] && Counts() == Tally(Regions())
    {
      hide Tally, Wrap64, UntilNone, SizeOf;
      var i := 0;
      while i < LIMIT
        invariant 0 <= i <= LIMIT && Valid()
        invariant Regions() == regions[..i] && Counts() == Tally(regions[..i])
        invariant forall k :: 0 <= k < i ==> regions[k].memoryType != NONE
      {
        if regions[i].memoryType == NONE {
          numRegions := i;
          break;
        }
        Append(regions[i]);
        assert regions[..i + 1] == regions[..i] + [regions[i]];
        i := i + 1;
      }
      UntilNoneIsFirst(regions, i);
    }

    /** Adds one region of the constructor's argument (lines 86 to 93). */
    method Append(r: MemoryRegion)
      requires Valid() && numRegions < LIMIT
      modifies this, entries
      ensures Valid() && Regions() == old(Regions()) + [r]
      ensures old(Counts()) == Tally(old(Regions())) ==> Counts() == Tally(Regions())
    {
      hide Tally, Wrap64, SizeOf;
      TallyAppend(Regions(), r);
      entries[numRegions] := r;
      numRegions := numRegions + 1;
      if r.memoryType == USABLE {
        freeMem := Wrap64(freeMem + r.size);
      } else {
        reservedMem := Wrap64(reservedMem + r.size);
      }
    }

    /** Splits the region at i around the claimant, as far as the table has room (lines 150 to 178). */
    method Split(i: nat, claimant: MemoryRegion, boundary: U32) returns (done: bool, c: MemoryRegion)
      requires Valid() && boundary > 0 && i < numRegions
      modifies this`numRegions, entries
      ensures Valid()
      ensures done <==> |old(Regions())| + |SplitPieces(old(Regions())[i], claimant, boundary)| - 1 < LIMIT
      ensures !done ==> entries[..] == old(entries[..]) && numRegions == old(numRegions)
      ensures !done ==> c == claimant || c == SizeRounded(claimant, boundary)
      ensures done ==> var ps := SplitPieces(old(Regions())[i], claimant, boundary);
                       Regions() == Carve(old(Regions()), i, ps) && c == ps[|ps| - 1]
    {
      hide MemoryAlign, MemoryIsAligned, Wrap64, MemoryRegion.End;
      ghost var s := entries[..];
      var r := entries[i];
      ghost var n := numRegions;
      done, c := false, claimant;
      if numRegions + 1 >= LIMIT {
        return;
      }
      if !MemoryIsAligned(claimant.size, boundary) {
        c := c.(size := MemoryAlign(claimant.size, boundary, true));
      }
      if r.start == c.start {
        entries[i] := r.(start := Wrap64(r.start + c.size), size := Wrap64(r.size - c.size));
      } else if r.End() == c.End() {
        entries[i] := r.(size := Wrap64(r.size - c.size));
      } else {
        if numRegions + 2 >= LIMIT {
          return;
        }
        if !MemoryIsAligned(c.start, boundary) {
          c := c.(start := MemoryAlign(c.start, boundary, false));
        }
        var rightPartSize := Wrap64(r.size - c.size - Wrap64(c.start - r.start));
        entries[i] := r.(size := Wrap64(r.size - Wrap64(c.size + rightPartSize)));
        entries[numRegions] := MemoryRegion(c.End(), rightPartSize, USABLE);
        numRegions := numRegions + 1;
      }
      entries[numRegions] := c;
      numRegions := numRegions + 1;
      done := true;
      CarveInTable(s, n, i, SplitPieces(r, claimant, boundary), entries[..]);
    }

    /** The first entry of the whole table that hosts the claimant; empty entries host nothing. */
    method FindHost(claimant: MemoryRegion) returns (i: nat)
      requires Valid() && claimant.size > 0
      ensures i <= |Regions()|
      ensures forall k :: 0 <= k < i ==> !Hosts(Regions()[k], claimant)
      ensures i < |Regions()| ==> Hosts(Regions()[i], claimant)
    {
      i := 0;
      while i < LIMIT
        invariant 0 <= i <= LIMIT
        invariant forall k :: 0 <= k < i ==> !Hosts(entries[k], claimant)
      {
        if Hosts(entries[i], claimant) {
          assert entries[i] != EMPTY;
          return;
        }
        i := i + 1;
      }
      i := numRegions;
    }

    /** Gives an entry another type. */
    method Retype(i: nat, t: MemoryRegionType)
      requires Valid() && i < |Regions()|
      modifies entries
      ensures Valid() && Regions() == old(Regions())[i := old(Regions())[i].(memoryType := t)]
    {
      entries[i] := entries[i].(memoryType := t);
    }

    /** Sorts the used part of the table. */
    method Resort()
      requires Valid()
      modifies entries
      ensures Valid() && Sorted(Regions()) && multiset(Regions()) == old(multiset(Regions()))
    {
      Sort(entries, numRegions);
      assert forall k :: numRegions <= k < LIMIT ==> entries[k] == entries[numRegions..][k - numRegions];
    }

    /** Moves size bytes from one counter to the other. */
    method Recount(c: MemoryRegion)
      modifies this`freeMem, this`reservedMem
      ensures Counts() == Charge(old(Counts()), c)
    {
      if c.memoryType == USABLE {
        freeMem := Wrap64(freeMem + c.size);
        reservedMem := Wrap64(reservedMem - c.size);
      } else {
        freeMem := Wrap64(freeMem - c.size);
        reservedMem := Wrap64(reservedMem + c.size);
      }
    }

    /**
     * Carves the claimant out of the one region that hosts it. `c` is the claimant as the caller finds it
     * afterwards: the source rounds its argument in place.
     */
    method Claim(claimant: MemoryRegion, boundary: U32) returns (claimed: bool, c: MemoryRegion)
      requires Valid() && boundary > 0 && WellFormed(Regions(), boundary) && claimant.size > 0
      modifies this, entries
      ensures Valid()
      ensures claimed <==> Claimable(old(Regions()), claimant, boundary)
      ensures !claimed ==> Regions() == old(Regions()) && Counts() == old(Counts())
      ensures claimed ==> ClaimedFrom(old(Regions()), claimant, boundary, Regions(), c)
                          && Counts() == Charge(old(Counts()), c)
    {
      ghost var rs := Regions();
      var numRegsBefore := numRegions;
      claimed, c := false, claimant;
      var i := FindHost(claimant);
      if i == numRegions {
        return;
      }
      HostsAreAt(rs, i, claimant, boundary);
      PiecesSplit(rs[i], claimant, boundary);
      hide Hosts, WellFormed, Pieces, SplitPieces, Carve, Charge;
      if Exact(entries[i], claimant) {
        ExactCarve(rs, i, claimant, boundary);
        Retype(i, claimant.memoryType);
        claimed := true;
      } else {
        SplitArithmetic(rs[i], claimant, boundary);
        claimed, c := Split(i, claimant, boundary);
        if !claimed {
          return;
        }
      }
      Recount(c);
      if numRegions != numRegsBefore {
        Resort();
      }
      assert ClaimedAt(rs, i, claimant, boundary, Regions());
    }

    /** Adds the region after i to region i and closes the gap; the last entry keeps a stale copy. */
    method Absorb(i: nat)
      requires entries.Length == LIMIT && i + 1 < numRegions <= LIMIT
      modifies this`numRegions, entries
      ensures numRegions == old(numRegions) - 1
      ensures entries[..numRegions] == Merged(old(entries[..numRegions]), i)
    {
      ghost var rs := entries[..numRegions];
      var next := entries[i + 1];
      entries[i] := entries[i].(size := Wrap64(entries[i].size + next.size));
      assert entries[..i + 1] + entries[i + 2..numRegions] == Merged(rs, i);
      numRegions := ArrayDelete(entries, i + 1, numRegions);
    }

    /** Clears every entry behind the last region. */
    method ClearTail()
      requires entries.Length == LIMIT && numRegions <= LIMIT
      modifies entries
      ensures Valid() && entries[..numRegions] == old(entries[..numRegions])
    {
      var i := numRegions;
      while i < LIMIT
        invariant numRegions <= i <= LIMIT
        invariant entries[..numRegions] == old(entries[..numRegions])
        invariant forall k :: numRegions <= k < i ==> entries[k] == EMPTY
      {
        entries[i] := EMPTY;
        i := i + 1;
      }
    }

    /** Merges touching neighbours of equal type. The index is a 64-bit register: `i--` at 0 wraps. */
    method Merge()
      requires Valid() && 0 < numRegions
      modifies this`numRegions, entries
      ensures Valid() && Regions() == MergeFrom(old(Regions()), 0)
    {
      hide Merged, Mergeable, MergeFrom;
      ghost var rs := Regions();
      var i: U64 := 0;
      while i < numRegions - 1
        invariant 0 <= i < numRegions <= LIMIT && entries.Length == LIMIT
        invariant MergeFrom(entries[..numRegions], i) == MergeFrom(rs, 0)
        decreases numRegions - i
      {
        ghost var ss := entries[..numRegions];
        MergeFromUnfolds(ss, i);
        if Mergeable(entries[i], entries[i + 1]) {
          Absorb(i);
          i := Wrap64(i - 1);
        }
        i := Wrap64(i + 1);
      }
      MergeFromUnfolds(entries[..numRegions], i);
      ClearTail();
    }
  }

  /** Claiming a whole region retypes it in place; the map stays sorted. */
  lemma ExactCarve(rs: seq<MemoryRegion>, i: int, c: MemoryRegion, p: int)
    requires p > 0 && WellFormed(rs, p) && 0 <= i < |rs| && Hosts(rs[i], c) && Exact(rs[i], c)
    ensures Carve(rs, i, Pieces(rs[i], c, p)) == rs[i := rs[i].(memoryType := c.memoryType)]
    ensures Sorted(rs[i := rs[i].(memoryType := c.memoryType)])
    ensures HasRoom(rs, i, c, p)
  {
    RetypedIsSorted(rs, i, c.memoryType);
  }

  lemma HostsAreAt(rs: seq<MemoryRegion>, i: int, c: MemoryRegion, p: int)
    requires p > 0 && WellFormed(rs, p) && c.size > 0 && 0 <= i < |rs| && Hosts(rs[i], c)
    ensures forall j :: 0 <= j < |rs| && Hosts(rs[j], c) ==> j == i
  {
    forall j | 0 <= j < |rs| && Hosts(rs[j], c)
      ensures j == i
    {
      HostIsUnique(rs, i, j, c, p);
    }
  }
}

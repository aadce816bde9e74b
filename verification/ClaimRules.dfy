/** What claiming part of a memory map means, on the list of its regions (KRE/Memory, `MemoryMap::claim`). */
module ClaimRules {
  import opened Machine
  import opened Regions

  const LIMIT := 64

  /** A region of whole pages that ends before the largest address, the value `end` keeps for overflow. */
  predicate PageAligned(r: MemoryRegion, p: int)
    requires p > 0
  {
    r.start % p == 0 && r.size % p == 0 && r.start + r.size < TWO_64 - 1
  }

  /** The firmware's promise about a map: page-aligned regions in order, none overlapping. */
  ghost predicate WellFormed(rs: seq<MemoryRegion>, p: int)
    requires p > 0
  {
    Ordered(rs) && forall i :: 0 <= i < |rs| ==> PageAligned(rs[i], p)
  }

  /** The region a claim is carved out of. */
  predicate Hosts(r: MemoryRegion, c: MemoryRegion) {
    r.start <= c.start && c.End() <= r.End()
  }

  predicate Exact(r: MemoryRegion, c: MemoryRegion) {
    r.start == c.start && r.size == c.size
  }

  /** The whole pages a claim receives: its start rounded down and its size rounded up. */
  function Granted(r: MemoryRegion, c: MemoryRegion, p: int): (g: MemoryRegion)
    requires p > 0 && PageAligned(r, p) && Hosts(r, c)
    ensures g.start % p == 0 && g.size % p == 0 && g.memoryType == c.memoryType
    ensures c.start + c.size <= r.start + r.size
    ensures r.start <= g.start <= c.start && c.size <= g.size < c.size + p
    ensures g.start + g.size <= r.start + r.size
  {
    GrantFits(r, c, p);
    MemoryRegion(Floor(c.start, p), Ceiling(c.size, p), c.memoryType)
  }

  lemma GrantFits(r: MemoryRegion, c: MemoryRegion, p: int)
    requires p > 0 && PageAligned(r, p) && Hosts(r, c)
    ensures c.start + c.size <= r.start + r.size
    ensures r.start <= Floor(c.start, p) <= c.start
    ensures c.size <= Ceiling(c.size, p) < c.size + p
    ensures Floor(c.start, p) + Ceiling(c.size, p) <= r.start + r.size
    ensures Floor(c.start, p) % p == 0 && Ceiling(c.size, p) % p == 0
  {
    FloorFacts(c.start, p);
    FloorFacts(c.size, p);
    FloorGreatest(c.start, r.start, p);
    AlignedSum(r.start, r.size, p);
    AlignedSum(r.start + r.size, Floor(c.start, p), p);
    CeilingLeast(c.size, r.start + r.size - Floor(c.start, p), p);
  }

  /** Whether the rounded claim touches an end of the region it is carved out of. */
  predicate AtEdge(r: MemoryRegion, c: MemoryRegion, p: int)
    requires p > 0
  {
    r.start == c.start || r.start + r.size == c.start + Ceiling(c.size, p)
  }

  /** The regions that replace the host: what is left of it first, the granted pages last. */
  function Pieces(r: MemoryRegion, c: MemoryRegion, p: int): (ps: seq<MemoryRegion>)
    requires p > 0 && PageAligned(r, p) && Hosts(r, c)
    ensures 1 <= |ps| <= 3
  {
    var g := Granted(r, c, p);
    if Exact(r, c) then
      [r.(memoryType := c.memoryType)]
    else if r.start == c.start then
      [r.(start := r.start + g.size, size := r.size - g.size), g]
    else if AtEdge(r, c, p) then
      [r.(size := r.size - g.size), g]
    else
      [r.(size := g.start - r.start),
       MemoryRegion(g.start + g.size, r.start + r.size - (g.start + g.size), USABLE),
       g]
  }

  /** The map right after a claim, before it is sorted again. */
  function Carve(rs: seq<MemoryRegion>, i: int, ps: seq<MemoryRegion>): seq<MemoryRegion>
    requires 0 <= i < |rs| && |ps| > 0
  {
    rs[i := ps[0]] + ps[1..]
  }

  /** Room for the pieces: the source keeps the last entry of the table free after every split. */
  predicate HasRoom(rs: seq<MemoryRegion>, i: int, c: MemoryRegion, p: int)
    requires p > 0 && 0 <= i < |rs| && PageAligned(rs[i], p) && Hosts(rs[i], c)
  {
    |Pieces(rs[i], c, p)| == 1 || |rs| + |Pieces(rs[i], c, p)| - 1 < LIMIT
  }

  /** Pieces that lie inside r and do not overlap. */
  ghost predicate Splits(r: MemoryRegion, ps: seq<MemoryRegion>) {
    |ps| > 0 && PairwiseApart(ps)
    && forall k :: 0 <= k < |ps| ==> r.start <= ps[k].start && ps[k].start + ps[k].size <= r.start + r.size
  }

  lemma PiecesSplit(r: MemoryRegion, c: MemoryRegion, p: int)
    requires p > 0 && PageAligned(r, p) && Hosts(r, c)
    ensures Splits(r, Pieces(r, c, p))
    ensures forall k :: 0 <= k < |Pieces(r, c, p)| ==> PageAligned(Pieces(r, c, p)[k], p)
    ensures Exact(r, c) ==> Granted(r, c, p).start == c.start && Granted(r, c, p).size == c.size
  {
    var g := Granted(r, c, p);
    AlignedSum(r.start, g.size, p);
    AlignedSum(r.size, g.size, p);
    AlignedSum(g.start, r.start, p);
    AlignedSum(g.start, g.size, p);
    AlignedSum(r.start, r.size, p);
    AlignedSum(r.start + r.size, g.start + g.size, p);
    FloorFacts(c.start, p);
    if !Exact(r, c) && r.start != c.start && AtEdge(r, c, p) {
      AlignedSum(r.start + r.size, g.size, p);
      assert c.start % p == 0;
      assert g.start == c.start;
    }
  }

  /** An address the granted pages, or the retyped right part of an interior claim, hold. */
  predicate Spills(r: MemoryRegion, c: MemoryRegion, p: int, a: int)
    requires p > 0 && PageAligned(r, p) && Hosts(r, c)
  {
    !Exact(r, c) && !AtEdge(r, c, p) && Granted(r, c, p).start + Granted(r, c, p).size <= a < r.start + r.size
  }

  lemma CarveApart(rs: seq<MemoryRegion>, i: int, ps: seq<MemoryRegion>)
    requires PairwiseApart(rs) && 0 <= i < |rs| && Splits(rs[i], ps)
    ensures PairwiseApart(Carve(rs, i, ps))
  {
    var ss := Carve(rs, i, ps);
    forall j, k | 0 <= j < k < |ss|
      ensures Apart(ss[j], ss[k])
    {
      assert j < i ==> Apart(rs[j], rs[i]);
      assert i < j < |rs| ==> Apart(rs[i], rs[j]);
      assert i < k < |rs| ==> Apart(rs[i], rs[k]);
      assert k < |rs| ==> Apart(rs[j], rs[k]);
      assert |rs| <= k ==> ss[k] == ps[k - |rs| + 1];
      assert |rs| <= j ==> ss[j] == ps[j - |rs| + 1];
      assert j == i && |rs| <= k ==> Apart(ps[0], ps[k - |rs| + 1]);
    }
  }

  lemma CarveTypeAt(rs: seq<MemoryRegion>, i: int, ps: seq<MemoryRegion>, a: int)
    requires PairwiseApart(rs) && 0 <= i < |rs| && Splits(rs[i], ps)
    ensures !rs[i].Covers(a) ==> TypeAt(Carve(rs, i, ps), a) == TypeAt(rs, a)
    ensures forall k :: 0 <= k < |ps| && ps[k].Covers(a) ==> TypeAt(Carve(rs, i, ps), a) == ps[k].memoryType
  {
    var ss := Carve(rs, i, ps);
    CarveApart(rs, i, ps);
    forall k | 0 <= k < |ps| && ps[k].Covers(a)
      ensures TypeAt(ss, a) == ps[k].memoryType
    {
      TypeAtRegion(ss, if k == 0 then i else |rs| + k - 1, a);
    }
    if !rs[i].Covers(a) {
      assert forall j :: 0 <= j < |ss| && ss[j].Covers(a) ==> j < |rs| && j != i && ss[j] == rs[j];
      assert forall j :: 0 <= j < |rs| && j != i ==> ss[j] == rs[j];
      TypeAtAgrees(rs, ss, a);
    }
  }

  lemma {:induction false} SizeOfConcat(rs: seq<MemoryRegion>, ps: seq<MemoryRegion>, kinds: set<MemoryRegionType>)
    ensures SizeOf(rs + ps, kinds) == SizeOf(rs, kinds) + SizeOf(ps, kinds)
  {
    if ps == [] {
      assert rs + ps == rs;
    } else {
      assert (rs + ps)[..|rs + ps| - 1] == rs + ps[..|ps| - 1];
      SizeOfConcat(rs, ps[..|ps| - 1], kinds);
    }
  }

  lemma CarveSize(rs: seq<MemoryRegion>, i: int, ps: seq<MemoryRegion>, kinds: set<MemoryRegionType>)
    requires 0 <= i < |rs| && |ps| > 0
    ensures SizeOf(Carve(rs, i, ps), kinds) == SizeOf(rs, kinds) - SizeIn(rs[i], kinds) + SizeOf(ps, kinds)
  {
    SizeOfUpdate(rs, i, ps[0], kinds);
    SizeOfConcat(rs[i := ps[0]], ps[1..], kinds);
    assert ps == [ps[0]] + ps[1..];
    SizeOfConcat([ps[0]], ps[1..], kinds);
    assert [ps[0]][..0] == [];
  }

  lemma AlignedPermutation(rs: seq<MemoryRegion>, ss: seq<MemoryRegion>, p: int)
    requires p > 0 && multiset(ss) == multiset(rs)
    requires forall k :: 0 <= k < |rs| ==> PageAligned(rs[k], p)
    ensures forall k :: 0 <= k < |ss| ==> PageAligned(ss[k], p)
  {
    assert forall k :: 0 <= k < |ss| ==> ss[k] in multiset(rs);
  }

  /** A carved and re-sorted map is well-formed again. */
  lemma ClaimKeepsOrder(rs: seq<MemoryRegion>, i: int, c: MemoryRegion, p: int, ss: seq<MemoryRegion>)
    requires p > 0 && WellFormed(rs, p) && 0 <= i < |rs| && Hosts(rs[i], c)
    requires ClaimedAt(rs, i, c, p, ss)
    ensures WellFormed(ss, p)
  {
    var ps := Pieces(rs[i], c, p);
    var carved := Carve(rs, i, ps);
    OrderedMeansSortedApart(rs);
    PiecesSplit(rs[i], c, p);
    CarveApart(rs, i, ps);
    ApartPermutation(carved, ss);
    assert forall k :: 0 <= k < |carved| ==> carved[k] in rs || carved[k] in ps;
    AlignedPermutation(carved, ss, p);
    OrderedMeansSortedApart(ss);
  }

  /** Retyping a region in place leaves the map sorted, so no sort is needed. */
  lemma RetypedIsSorted(rs: seq<MemoryRegion>, i: int, t: MemoryRegionType)
    requires Ordered(rs) && 0 <= i < |rs|
    ensures Sorted(rs[i := rs[i].(memoryType := t)])
  {
    OrderedMeansSortedApart(rs);
  }

  /** The address-to-type function after a claim, at every address. */
  lemma ClaimTypeAt(rs: seq<MemoryRegion>, i: int, c: MemoryRegion, p: int, ss: seq<MemoryRegion>, a: int)
    requires p > 0 && WellFormed(rs, p) && 0 <= i < |rs| && Hosts(rs[i], c)
    requires multiset(ss) == multiset(Carve(rs, i, Pieces(rs[i], c, p)))
    ensures TypeAt(ss, a) ==
            if Granted(rs[i], c, p).Covers(a) then c.memoryType
            else if Spills(rs[i], c, p, a) then USABLE
            else TypeAt(rs, a)
  {
    var r := rs[i];
    var ps := Pieces(r, c, p);
    OrderedMeansSortedApart(rs);
    PiecesSplit(r, c, p);
    CarveApart(rs, i, ps);
    TypeAtPermutation(Carve(rs, i, ps), ss, a);
    CarveTypeAt(rs, i, ps, a);
    if r.Covers(a) {
      TypeAtRegion(rs, i, a);
      PiecesCover(r, c, p, a);
    }
  }

  lemma PiecesCover(r: MemoryRegion, c: MemoryRegion, p: int, a: int)
    requires p > 0 && PageAligned(r, p) && Hosts(r, c) && r.Covers(a)
    ensures exists k :: 0 <= k < |Pieces(r, c, p)| && Pieces(r, c, p)[k].Covers(a)
                        && Pieces(r, c, p)[k].memoryType ==
                           if Granted(r, c, p).Covers(a) then c.memoryType
                           else if Spills(r, c, p, a) then USABLE
                           else r.memoryType
  {
    PiecesSplit(r, c, p);
    var ps, g := Pieces(r, c, p), Granted(r, c, p);
    if g.Covers(a) {
      assert ps[|ps| - 1].Covers(a);
    } else if Spills(r, c, p, a) {
      assert ps[1].Covers(a);
    } else {
      assert ps[0].Covers(a);
    }
  }

  /** Whether a claim leaves every address outside the granted pages alone. */
  predicate KeepsOutside(r: MemoryRegion, c: MemoryRegion, p: int)
    requires p > 0 && PageAligned(r, p) && Hosts(r, c)
  {
    r.memoryType == USABLE || Exact(r, c) || AtEdge(r, c, p)
    || Granted(r, c, p).start + Granted(r, c, p).size == r.start + r.size
  }

  /** Types change on the granted pages only, exactly when the split-off right part was USABLE already. */
  lemma ClaimTouchesOnlyGrant(rs: seq<MemoryRegion>, i: int, c: MemoryRegion, p: int, ss: seq<MemoryRegion>)
    requires p > 0 && WellFormed(rs, p) && 0 <= i < |rs| && Hosts(rs[i], c)
    requires multiset(ss) == multiset(Carve(rs, i, Pieces(rs[i], c, p)))
    ensures (forall a {:trigger TypeAt(ss, a)} ::
               TypeAt(ss, a) == if Granted(rs[i], c, p).Covers(a) then c.memoryType else TypeAt(rs, a))
            <==> KeepsOutside(rs[i], c, p)
  {
    var r := rs[i];
    var g := Granted(r, c, p);
    OrderedMeansSortedApart(rs);
    forall a {:trigger TypeAt(ss, a)}
      ensures TypeAt(ss, a) == if g.Covers(a) then c.memoryType else if Spills(r, c, p, a) then USABLE
              else TypeAt(rs, a)
      ensures Spills(r, c, p, a) ==> TypeAt(rs, a) == r.memoryType
    {
      ClaimTypeAt(rs, i, c, p, ss, a);
      if Spills(r, c, p, a) {
        TypeAtRegion(rs, i, a);
      }
    }
    if !KeepsOutside(r, c, p) {
      var a := g.start + g.size;
      assert Spills(r, c, p, a) && TypeAt(ss, a) == USABLE;
    }
  }

  /** Both counters of a map, as the source keeps them. */
  datatype Counters = Counters(free: U64, reserved: U64)

  /** The counters after granting g, whatever the map held there before. */
  function Charge(n: Counters, g: MemoryRegion): Counters {
    if g.memoryType == USABLE then
      Counters(Wrap64(n.free + g.size), Wrap64(n.reserved - g.size))
    else
      Counters(Wrap64(n.free - g.size), Wrap64(n.reserved + g.size))
  }

  ghost predicate Accounts(n: Counters, rs: seq<MemoryRegion>) {
    n.free == SizeOf(rs, USABLE_KINDS) && n.reserved == SizeOf(rs, RESERVED_KINDS)
  }

  /**
   * The counters stay the sums of the USABLE and of all other sizes exactly when the claim turns USABLE
   * memory into something else or the other way round, and retypes nothing beside it.
   */
  lemma ClaimAccounting(rs: seq<MemoryRegion>, i: int, c: MemoryRegion, p: int, ss: seq<MemoryRegion>, n: Counters)
    requires p > 0 && WellFormed(rs, p) && 0 <= i < |rs| && Hosts(rs[i], c) && c.size > 0
    requires multiset(ss) == multiset(Carve(rs, i, Pieces(rs[i], c, p)))
    requires Accounts(n, rs)
    ensures Accounts(Charge(n, Granted(rs[i], c, p)), ss) <==>
            (rs[i].memoryType == USABLE) != (c.memoryType == USABLE) && KeepsOutside(rs[i], c, p)
  {
    hide SizeOf, Pieces, Carve, Floor, Ceiling;
    var r := rs[i];
    var g := Granted(r, c, p);
    var spilled := if Exact(r, c) || AtEdge(r, c, p) then 0 else r.start + r.size - (g.start + g.size);
    ClaimWeights(rs, i, c, p, ss);
    ChargeMatches(SizeOf(rs, USABLE_KINDS), SizeOf(rs, RESERVED_KINDS), g.size, spilled,
                  r.memoryType == USABLE, c.memoryType == USABLE);
  }

  lemma ClaimWeights(rs: seq<MemoryRegion>, i: int, c: MemoryRegion, p: int, ss: seq<MemoryRegion>)
    requires p > 0 && WellFormed(rs, p) && 0 <= i < |rs| && Hosts(rs[i], c)
    requires multiset(ss) == multiset(Carve(rs, i, Pieces(rs[i], c, p)))
    ensures var g := Granted(rs[i], c, p);
            var spilled := if Exact(rs[i], c) || AtEdge(rs[i], c, p) then 0
                           else rs[i].start + rs[i].size - (g.start + g.size);
            var u, v := SizeOf(rs, USABLE_KINDS), SizeOf(rs, RESERVED_KINDS);
            var host, claim := rs[i].memoryType == USABLE, c.memoryType == USABLE;
            && u + v < TWO_64
            && g.size + spilled <= (if host then u else v)
            && SizeOf(ss, USABLE_KINDS) ==
               u + (if claim then g.size else 0) - (if host then g.size else 0) + (if host then 0 else spilled)
            && SizeOf(ss, RESERVED_KINDS) ==
               v + (if claim then 0 else g.size) - (if host then 0 else g.size + spilled)
  {
    var r := rs[i];
    ClaimSize(rs, i, c, p, ss, USABLE_KINDS);
    ClaimSize(rs, i, c, p, ss, RESERVED_KINDS);
    PiecesSize(r, c, p, USABLE_KINDS);
    PiecesSize(r, c, p, RESERVED_KINDS);
    HostSizeBound(rs, i, USABLE_KINDS);
    HostSizeBound(rs, i, RESERVED_KINDS);
    TotalSizeBound(rs);
    KindOf(r.memoryType);
    KindOf(c.memoryType);
    KindOf(USABLE);
  }

  lemma KindOf(t: MemoryRegionType)
    ensures t in USABLE_KINDS <==> t == USABLE
    ensures t in RESERVED_KINDS <==> t != USABLE
  {
  }

  /** The arithmetic of the counters: u and v are the sums, wrapped at 64 bits. */
  lemma ChargeMatches(u: nat, v: nat, granted: nat, spilled: nat, hostUsable: bool, claimUsable: bool)
    requires u + v < TWO_64 && 0 < granted
    requires granted + spilled <= if hostUsable then u else v
    ensures var u' := u + (if claimUsable then granted else 0) - (if hostUsable then granted else 0)
                      + (if hostUsable then 0 else spilled);
            var v' := v + (if claimUsable then 0 else granted) - (if hostUsable then 0 else granted + spilled);
            var n := if claimUsable then (Wrap64(u + granted), Wrap64(v - granted))
                     else (Wrap64(u - granted), Wrap64(v + granted));
            n == (u', v') <==> hostUsable != claimUsable && (hostUsable || spilled == 0)
  {
  }

  lemma ClaimSize(rs: seq<MemoryRegion>, i: int, c: MemoryRegion, p: int, ss: seq<MemoryRegion>,
                  kinds: set<MemoryRegionType>)
    requires p > 0 && 0 <= i < |rs| && PageAligned(rs[i], p) && Hosts(rs[i], c)
    requires multiset(ss) == multiset(Carve(rs, i, Pieces(rs[i], c, p)))
    ensures SizeOf(ss, kinds) == SizeOf(rs, kinds) - SizeIn(rs[i], kinds) + SizeOf(Pieces(rs[i], c, p), kinds)
  {
    CarveSize(rs, i, Pieces(rs[i], c, p), kinds);
    SizeOfPermutation(ss, Carve(rs, i, Pieces(rs[i], c, p)), kinds);
  }

  /** What the pieces of a claim weigh: the grant, the retyped right part and the rest of the host. */
  lemma PiecesSize(r: MemoryRegion, c: MemoryRegion, p: int, kinds: set<MemoryRegionType>)
    requires p > 0 && PageAligned(r, p) && Hosts(r, c)
    ensures var g := Granted(r, c, p);
            var spilled := if Exact(r, c) || AtEdge(r, c, p) then 0 else r.start + r.size - (g.start + g.size);
            SizeOf(Pieces(r, c, p), kinds) ==
            SizeIn(g, kinds) + (if USABLE in kinds then spilled else 0)
            + (if r.memoryType in kinds then r.size - g.size - spilled else 0)
  {
    var ps := Pieces(r, c, p);
    FewSizes(ps[0], if |ps| > 1 then ps[1] else ps[0], ps[|ps| - 1], kinds);
    assert |ps| == 1 ==> ps == [ps[0]];
    assert |ps| == 2 ==> ps == [ps[0], ps[1]];
    assert |ps| == 3 ==> ps == [ps[0], ps[1], ps[2]];
  }

  lemma FewSizes(x: MemoryRegion, y: MemoryRegion, z: MemoryRegion, kinds: set<MemoryRegionType>)
    ensures SizeOf([x], kinds) == SizeIn(x, kinds)
    ensures SizeOf([x, y], kinds) == SizeIn(x, kinds) + SizeIn(y, kinds)
    ensures SizeOf([x, y, z], kinds) == SizeIn(x, kinds) + SizeIn(y, kinds) + SizeIn(z, kinds)
  {
    SizeOfAppend([], x, kinds);
    SizeOfAppend([x], y, kinds);
    SizeOfAppend([x, y], z, kinds);
    assert [] + [x] == [x] && [x] + [y] == [x, y] && [x, y] + [z] == [x, y, z];
  }

  lemma {:induction false} HostSizeBound(rs: seq<MemoryRegion>, i: int, kinds: set<MemoryRegionType>)
    requires 0 <= i < |rs|
    ensures SizeIn(rs[i], kinds) <= SizeOf(rs, kinds)
  {
    SizeOfRemove(rs, i, kinds);
  }

  lemma {:induction false} TotalSizeBound(rs: seq<MemoryRegion>)
    requires Ordered(rs) && forall i :: 0 <= i < |rs| ==> rs[i].start + rs[i].size < TWO_64 - 1
    ensures SizeOf(rs, USABLE_KINDS) + SizeOf(rs, RESERVED_KINDS) < TWO_64
  {
    SizesPartition(rs);
    OrderedSizeBound(rs, USABLE_KINDS + RESERVED_KINDS, TWO_64 - 1);
  }

  lemma {:induction false} SizesPartition(rs: seq<MemoryRegion>)
    ensures SizeOf(rs, USABLE_KINDS) + SizeOf(rs, RESERVED_KINDS) == SizeOf(rs, USABLE_KINDS + RESERVED_KINDS)
  {
    if rs != [] {
      SizesPartition(rs[..|rs| - 1]);
    }
  }

  /** At most one region hosts a claim that is not empty. */
  lemma HostIsUnique(rs: seq<MemoryRegion>, i: int, j: int, c: MemoryRegion, p: int)
    requires p > 0 && WellFormed(rs, p) && c.size > 0
    requires 0 <= i < |rs| && 0 <= j < |rs| && Hosts(rs[i], c) && Hosts(rs[j], c)
    ensures i == j
  {
    GrantFits(rs[i], c, p);
    GrantFits(rs[j], c, p);
  }

  /** ss is the map rs with the pages c asks for carved out of its region i. */
  ghost predicate ClaimedAt(rs: seq<MemoryRegion>, i: int, c: MemoryRegion, p: int, ss: seq<MemoryRegion>)
    requires p > 0 && 0 <= i < |rs| && PageAligned(rs[i], p) && Hosts(rs[i], c)
  {
    && multiset(ss) == multiset(Carve(rs, i, Pieces(rs[i], c, p)))
    && Sorted(ss)
    && (Exact(rs[i], c) ==> ss == Carve(rs, i, Pieces(rs[i], c, p)))
  }

  /** A claim can be granted: some region hosts it and the table has room for the pieces. */
  ghost predicate Claimable(rs: seq<MemoryRegion>, c: MemoryRegion, p: int)
    requires p > 0 && WellFormed(rs, p)
  {
    exists i :: 0 <= i < |rs| && Hosts(rs[i], c) && HasRoom(rs, i, c, p)
  }

  /** A page-aligned region hosts a claimant that is not empty exactly when it covers all its bytes, of any type. */
  lemma HostsExactly(r: MemoryRegion, c: MemoryRegion, p: int)
    requires p > 0 && PageAligned(r, p) && c.size > 0
    ensures Hosts(r, c) <==> forall a :: c.start <= a < c.start + c.size ==> r.Covers(a)
  {
    if forall a :: c.start <= a < c.start + c.size ==> r.Covers(a) {
      assert r.Covers(c.start) && r.Covers(c.start + c.size - 1);
    }
  }

  /** The entries of the table a claim adds: none, one at an end of the region, two in its middle. */
  function EntriesAdded(r: MemoryRegion, c: MemoryRegion, p: int): nat
    requires p > 0
  {
    if r.start == c.start && r.size == c.size then 0
    else if r.start == c.start || r.start + r.size == c.start + (c.size + p - 1) / p * p then 1
    else 2
  }

  /**
   * A claim succeeds if and only if one region covers all the claimed bytes, whatever the two types are, and the
   * table of 64 entries, whose last one stays free after a split, has room for the entries it adds.
   */
  lemma ClaimSucceedsExactly(rs: seq<MemoryRegion>, c: MemoryRegion, p: int)
    requires p > 0 && WellFormed(rs, p) && c.size > 0
    ensures Claimable(rs, c, p) <==>
            exists i :: 0 <= i < |rs|
                        && (forall a :: c.start <= a < c.start + c.size ==> rs[i].Covers(a))
                        && (EntriesAdded(rs[i], c, p) == 0 || |rs| + EntriesAdded(rs[i], c, p) < 64)
  {
    hide Hosts, EntriesAdded;
    forall i | 0 <= i < |rs|
      ensures Hosts(rs[i], c) <==> forall a :: c.start <= a < c.start + c.size ==> rs[i].Covers(a)
      ensures Hosts(rs[i], c) ==> |Pieces(rs[i], c, p)| == 1 + EntriesAdded(rs[i], c, p)
    {
      HostsExactly(rs[i], c, p);
      if Hosts(rs[i], c) {
        PiecesCount(rs[i], c, p);
      }
    }
    hide Pieces;
  }

  lemma PiecesCount(r: MemoryRegion, c: MemoryRegion, p: int)
    requires p > 0 && PageAligned(r, p) && Hosts(r, c)
    ensures |Pieces(r, c, p)| == 1 + EntriesAdded(r, c, p)
  {
    RoundedUp(c.size, p);
  }

  lemma RoundedUp(size: nat, p: int)
    requires p > 0
    ensures (size + p - 1) / p * p == Ceiling(size, p) && 0 <= (size + p - 1) / p
  {
    QuotientBound(size + p - 1, p);
    var q := size / p;
    assert size == q * p + size % p;
    if size % p == 0 {
      DivModUnique(size + p - 1, p, q, p - 1);
    } else {
      DivModUnique(size + p - 1, p, q + 1, size % p - 1);
      assert (q + 1) * p == q * p + p;
    }
  }

  /** ss is rs after a granted claim, and g the pages that were granted. */
  ghost predicate ClaimedFrom(rs: seq<MemoryRegion>, c: MemoryRegion, p: int, ss: seq<MemoryRegion>, g: MemoryRegion)
    requires p > 0 && WellFormed(rs, p)
  {
    exists i :: 0 <= i < |rs| && Hosts(rs[i], c) && g == Granted(rs[i], c, p) && ClaimedAt(rs, i, c, p, ss)
  }

  /**
   * A granted claim that turns USABLE memory into something else, or the other way round, and retypes nothing
   * beside its pages: the map stays ordered and page-aligned, types change on the granted pages only, and the
   * counters stay the sums of the sizes.
   */
  lemma ClaimCorrect(rs: seq<MemoryRegion>, c: MemoryRegion, p: int, ss: seq<MemoryRegion>, g: MemoryRegion,
                     n: Counters)
    requires p > 0 && WellFormed(rs, p) && c.size > 0 && ClaimedFrom(rs, c, p, ss, g) && Accounts(n, rs)
    requires forall i :: 0 <= i < |rs| && Hosts(rs[i], c) ==>
               (rs[i].memoryType == USABLE) != (c.memoryType == USABLE) && KeepsOutside(rs[i], c, p)
    ensures WellFormed(ss, p) && Accounts(Charge(n, g), ss)
    ensures forall a {:trigger TypeAt(ss, a)} :: TypeAt(ss, a) == if g.Covers(a) then c.memoryType else TypeAt(rs, a)
    ensures g.start == Floor(c.start, p) && g.size == Ceiling(c.size, p)
  {
    var i :| 0 <= i < |rs| && Hosts(rs[i], c) && g == Granted(rs[i], c, p) && ClaimedAt(rs, i, c, p, ss);
    hide TypeAt, SizeOf, Carve, Pieces, Charge;
    ClaimKeepsOrder(rs, i, c, p, ss);
    ClaimTouchesOnlyGrant(rs, i, c, p, ss);
    ClaimAccounting(rs, i, c, p, ss, n);
  }

  /** The granted pages hold the whole claim exactly when its offset in the first page fits the rounded size. */
  lemma GrantCovers(r: MemoryRegion, c: MemoryRegion, p: int)
    requires p > 0 && PageAligned(r, p) && Hosts(r, c) && c.size > 0
    ensures (forall a :: c.start <= a < c.start + c.size ==> Granted(r, c, p).Covers(a))
            <==> c.start % p + c.size <= Ceiling(c.size, p)
  {
    var g := Granted(r, c, p);
    FloorFacts(c.start, p);
    if !(c.start % p + c.size <= Ceiling(c.size, p)) {
      assert !g.Covers(c.start + c.size - 1);
    }
  }

  // ---- claims that go wrong ----------------------------------------------------------------------------

  /** 4 KiB at an offset of 2 KiB get the page they begin in, and not their last 2 KiB. */
  lemma UncoveredClaimExample()
    ensures var r, c := MemoryRegion(0, 0x4000, USABLE), MemoryRegion(0x1800, 0x1000, RESERVED);
            && PageAligned(r, 0x1000) && Hosts(r, c) && Granted(r, c, 0x1000) == MemoryRegion(0x1000, 0x1000, RESERVED)
            && c.Covers(0x27FF) && !Granted(r, c, 0x1000).Covers(0x27FF)
  {
  }

  const THREE_PAGES := MemoryRegion(0, 0x3000, RESERVED)
  const MIDDLE_PAGE := MemoryRegion(0x1000, 0x1000, USABLE)

  lemma MiddlePage()
    ensures PageAligned(THREE_PAGES, 0x1000) && Hosts(THREE_PAGES, MIDDLE_PAGE)
    ensures Granted(THREE_PAGES, MIDDLE_PAGE, 0x1000) == MIDDLE_PAGE
    ensures Spills(THREE_PAGES, MIDDLE_PAGE, 0x1000, 0x2000) && !KeepsOutside(THREE_PAGES, MIDDLE_PAGE, 0x1000)
  {
    hide Floor, Ceiling;
    assert Floor(0x1000, 0x1000) == 0x1000 && Ceiling(0x1000, 0x1000) == 0x1000 by { AlignedPage(); }
  }

  lemma AlignedPage()
    ensures Floor(0x1000, 0x1000) == 0x1000 && Ceiling(0x1000, 0x1000) == 0x1000
  {
  }

  /** The map of three RESERVED pages after its middle page was claimed as USABLE. */
  function AfterMiddleClaim(): seq<MemoryRegion>
  {
    MiddlePage();
    Carve([THREE_PAGES], 0, Pieces(THREE_PAGES, MIDDLE_PAGE, 0x1000))
  }

  /** The claim makes the last page USABLE, and the counters miss it. */
  lemma RetypedPageExample()
    ensures TypeAt([THREE_PAGES], 0x2000) == RESERVED && TypeAt(AfterMiddleClaim(), 0x2000) == USABLE
    ensures Accounts(Counters(0, 0x3000), [THREE_PAGES])
    ensures !Accounts(Charge(Counters(0, 0x3000), MIDDLE_PAGE), AfterMiddleClaim())
  {
    hide Carve, Pieces, Granted, Spills, KeepsOutside, Accounts, TypeAt, PageAligned, Hosts, Charge;
    var rs, ss := [THREE_PAGES], AfterMiddleClaim();
    MiddlePage();
    OneRegionInOrder(THREE_PAGES, 0x1000);
    OneRegionAccounts(THREE_PAGES);
    TypeAtRegion(rs, 0, 0x2000);
    ClaimTypeAt(rs, 0, MIDDLE_PAGE, 0x1000, ss, 0x2000);
    ClaimAccounting(rs, 0, MIDDLE_PAGE, 0x1000, ss, Counters(0, 0x3000));
  }

  lemma OneRegionInOrder(r: MemoryRegion, p: int)
    requires p > 0 && PageAligned(r, p)
    ensures WellFormed([r], p) && PairwiseApart([r])
  {
  }

  /** A claim of a RESERVED page for another purpose wraps the counter of free memory below zero. */
  lemma WrongChargeExample()
    ensures var r, c := MemoryRegion(0, 0x1000, RESERVED), MemoryRegion(0, 0x1000, KERNEL_CODE);
            && PageAligned(r, 0x1000) && Hosts(r, c) && Accounts(Counters(0, 0x1000), [r])
            && Charge(Counters(0, 0x1000), Granted(r, c, 0x1000)) == Counters(TWO_64 - 0x1000, 0x2000)
  {
    OneRegionAccounts(MemoryRegion(0, 0x1000, RESERVED));
  }

  lemma OneRegionAccounts(r: MemoryRegion)
    requires r.memoryType == RESERVED
    ensures Accounts(Counters(0, r.size), [r])
  {
    assert [r][..0] == [];
  }
}

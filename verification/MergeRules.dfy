/** What merging touching regions means, on the list of regions (KRE/Memory, `MemoryMap::merge`). */
module MergeRules {
  import opened Machine
  import opened Regions
  import opened ClaimRules

  predicate Mergeable(r: MemoryRegion, s: MemoryRegion) {
    r.memoryType == s.memoryType && r.End() == s.start
  }

  /** The map with region i + 1 added to region i. */
  function Merged(rs: seq<MemoryRegion>, i: nat): seq<MemoryRegion>
    requires i + 1 < |rs|
  {
    rs[..i] + [rs[i].(size := Wrap64(rs[i].size + rs[i + 1].size))] + rs[i + 2..]
  }

  /** The same memory seen as the same types, byte for byte and sum for sum. */
  ghost predicate SameMemory(rs: seq<MemoryRegion>, ss: seq<MemoryRegion>) {
    && (forall a: int {:trigger TypeAt(ss, a)} {:trigger TypeAt(rs, a)} :: TypeAt(ss, a) == TypeAt(rs, a))
    && (forall kinds :: SizeOf(ss, kinds) == SizeOf(rs, kinds))
  }

  /** No two neighbours among the first n + 1 regions could still be merged. */
  ghost predicate Settled(rs: seq<MemoryRegion>, n: nat) {
    forall k :: 0 <= k < n && k + 1 < |rs| ==> !Mergeable(rs[k], rs[k + 1])
  }

  lemma MergedWellFormed(rs: seq<MemoryRegion>, i: nat, p: int)
    requires p > 0 && WellFormed(rs, p) && i + 1 < |rs| && Mergeable(rs[i], rs[i + 1])
    ensures WellFormed(Merged(rs, i), p)
    ensures Merged(rs, i)[i].size == rs[i].size + rs[i + 1].size
  {
    AlignedSum(rs[i].size, rs[i + 1].size, p);
    assert Wrap64(rs[i].size + rs[i + 1].size) == rs[i].size + rs[i + 1].size;
    MergedIndex(rs, i);
  }

  lemma MergedIndex(rs: seq<MemoryRegion>, i: nat)
    requires i + 1 < |rs|
    ensures |Merged(rs, i)| == |rs| - 1
    ensures forall k :: 0 <= k < i ==> Merged(rs, i)[k] == rs[k]
    ensures Merged(rs, i)[i] == rs[i].(size := Wrap64(rs[i].size + rs[i + 1].size))
    ensures forall k :: i < k < |rs| - 1 ==> Merged(rs, i)[k] == rs[k + 1]
  {
  }

  lemma MergedTypeAt(rs: seq<MemoryRegion>, i: nat, p: int, a: int)
    requires p > 0 && WellFormed(rs, p) && i + 1 < |rs| && Mergeable(rs[i], rs[i + 1])
    ensures TypeAt(Merged(rs, i), a) == TypeAt(rs, a)
  {
    var ss := Merged(rs, i);
    MergedIndex(rs, i);
    MergedWellFormed(rs, i, p);
    OrderedMeansSortedApart(rs);
    OrderedMeansSortedApart(ss);
    if j :| 0 <= j < |rs| && rs[j].Covers(a) {
      TypeAtRegion(rs, j, a);
      TypeAtRegion(ss, if j <= i then j else j - 1, a);
    }
  }

  lemma MergedSize(rs: seq<MemoryRegion>, i: nat, p: int, kinds: set<MemoryRegionType>)
    requires p > 0 && WellFormed(rs, p) && i + 1 < |rs| && Mergeable(rs[i], rs[i + 1])
    ensures SizeOf(Merged(rs, i), kinds) == SizeOf(rs, kinds)
  {
    var grown := rs[i].(size := Wrap64(rs[i].size + rs[i + 1].size));
    MergedWellFormed(rs, i, p);
    SizeOfRemove(rs, i + 1, kinds);
    var rest := rs[..i + 1] + rs[i + 2..];
    SizeOfUpdate(rest, i, grown, kinds);
    assert rest[i := grown] == Merged(rs, i);
  }

  lemma MergedSameMemory(rs: seq<MemoryRegion>, i: nat, p: int)
    requires p > 0 && WellFormed(rs, p) && i + 1 < |rs| && Mergeable(rs[i], rs[i + 1])
    ensures SameMemory(rs, Merged(rs, i))
  {
    forall a: int
      ensures TypeAt(Merged(rs, i), a) == TypeAt(rs, a)
    {
      MergedTypeAt(rs, i, p, a);
    }
    forall kinds
      ensures SizeOf(Merged(rs, i), kinds) == SizeOf(rs, kinds)
    {
      MergedSize(rs, i, p, kinds);
    }
  }

  lemma MergedStaysSettled(rs: seq<MemoryRegion>, i: nat)
    requires i + 1 < |rs| && Settled(rs, i)
    ensures Settled(Merged(rs, i), i)
  {
    MergedIndex(rs, i);
  }

  /** The map `merge` leaves when it arrives at index i. */
  function MergeFrom(rs: seq<MemoryRegion>, i: nat): seq<MemoryRegion>
    decreases |rs| - i
  {
    if i + 1 >= |rs| then rs
    else if Mergeable(rs[i], rs[i + 1]) then MergeFrom(Merged(rs, i), i)
    else MergeFrom(rs, i + 1)
  }

  lemma MergeFromUnfolds(rs: seq<MemoryRegion>, i: nat)
    ensures i + 1 >= |rs| ==> MergeFrom(rs, i) == rs
    ensures i + 1 < |rs| && Mergeable(rs[i], rs[i + 1]) ==>
              |Merged(rs, i)| == |rs| - 1 && MergeFrom(rs, i) == MergeFrom(Merged(rs, i), i)
    ensures i + 1 < |rs| && !Mergeable(rs[i], rs[i + 1]) ==> MergeFrom(rs, i) == MergeFrom(rs, i + 1)
  {
  }

  /** Merging keeps order and alignment, every address' type and every total, and leaves nothing to merge. */
  lemma {:induction false} MergeCorrect(rs: seq<MemoryRegion>, i: nat, p: int)
    requires p > 0 && WellFormed(rs, p) && Settled(rs, i)
    ensures WellFormed(MergeFrom(rs, i), p)
    ensures SameMemory(rs, MergeFrom(rs, i))
    ensures Settled(MergeFrom(rs, i), |MergeFrom(rs, i)|)
    ensures |rs| > 0 ==> 0 < |MergeFrom(rs, i)| <= |rs|
    decreases |rs| - i
  {
    hide WellFormed, Merged, SizeOf;
    if i + 1 >= |rs| {
      assert Settled(rs, |rs|);
    } else if Mergeable(rs[i], rs[i + 1]) {
      MergedIndex(rs, i);
      MergedWellFormed(rs, i, p);
      MergedSameMemory(rs, i, p);
      MergedStaysSettled(rs, i);
      MergeCorrect(Merged(rs, i), i, p);
    } else {
      MergeCorrect(rs, i + 1, p);
    }
  }

  // ---- merging by bounds and types alone ---------------------------------------------------------------

  /** s is the regions i up to k of rs in one piece: all of its type, each beginning where the one before ends. */
  ghost predicate JoinOf(s: MemoryRegion, rs: seq<MemoryRegion>, i: nat, k: nat) {
    && i < k <= |rs|
    && (forall j :: i <= j < k ==> rs[j].memoryType == s.memoryType)
    && (forall j :: i < j < k ==> rs[j - 1].start + rs[j - 1].size == rs[j].start)
    && s.start == rs[i].start && s.start + s.size == rs[k - 1].start + rs[k - 1].size
  }

  /** ss is rs cut in front of the regions `cuts` names, each stretch in one piece. */
  ghost predicate Joins(rs: seq<MemoryRegion>, cuts: seq<nat>, ss: seq<MemoryRegion>) {
    && |cuts| == |ss| + 1 && cuts[0] == 0 && cuts[|ss|] == |rs|
    && forall k :: 0 <= k < |ss| ==> JoinOf(ss[k], rs, cuts[k], cuts[k + 1])
  }

  lemma JoinTwo(r: MemoryRegion, s: MemoryRegion, t: MemoryRegion, rs: seq<MemoryRegion>, i: nat, j: nat, k: nat)
    requires JoinOf(r, rs, i, j) && JoinOf(s, rs, j, k)
    requires r.memoryType == s.memoryType && r.start + r.size == s.start && t == r.(size := t.size)
    requires t.size == r.size + s.size
    ensures JoinOf(t, rs, i, k)
  {
  }

  lemma MergedJoins(rs: seq<MemoryRegion>, cuts: seq<nat>, ss: seq<MemoryRegion>, i: nat, p: int)
    requires p > 0 && WellFormed(ss, p) && Joins(rs, cuts, ss) && i + 1 < |ss| && Mergeable(ss[i], ss[i + 1])
    ensures Joins(rs, cuts[..i + 1] + cuts[i + 2..], Merged(ss, i))
  {
    var ds, ts := cuts[..i + 1] + cuts[i + 2..], Merged(ss, i);
    MergedIndex(ss, i);
    MergedWellFormed(ss, i, p);
    assert forall k :: 0 <= k <= i ==> ds[k] == cuts[k];
    assert forall k :: i < k < |ds| ==> ds[k] == cuts[k + 1];
    JoinTwo(ss[i], ss[i + 1], ts[i], rs, cuts[i], cuts[i + 1], cuts[i + 2]);
    hide JoinOf, Merged;
    forall k | 0 <= k < |ts|
      ensures JoinOf(ts[k], rs, ds[k], ds[k + 1])
    {
      if k < i {
        assert JoinOf(ss[k], rs, cuts[k], cuts[k + 1]);
      } else if k > i {
        assert JoinOf(ss[k + 1], rs, cuts[k + 1], cuts[k + 2]);
      }
    }
  }

  lemma {:induction false} MergeFromJoins(rs: seq<MemoryRegion>, cuts: seq<nat>, ss: seq<MemoryRegion>, i: nat, p: int)
    returns (ds: seq<nat>)
    requires p > 0 && WellFormed(ss, p) && Joins(rs, cuts, ss)
    ensures Joins(rs, ds, MergeFrom(ss, i))
    decreases |ss| - i
  {
    hide WellFormed, Merged, Joins, Mergeable;
    MergeFromUnfolds(ss, i);
    if i + 1 >= |ss| {
      ds := cuts;
    } else if Mergeable(ss[i], ss[i + 1]) {
      MergedWellFormed(ss, i, p);
      MergedJoins(rs, cuts, ss, i, p);
      JoinsCuts(rs, cuts, ss);
      ds := MergeFromJoins(rs, cuts[..i + 1] + cuts[i + 2..], Merged(ss, i), i, p);
    } else {
      ds := MergeFromJoins(rs, cuts, ss, i + 1, p);
    }
  }

  lemma JoinsCuts(rs: seq<MemoryRegion>, cuts: seq<nat>, ss: seq<MemoryRegion>)
    requires Joins(rs, cuts, ss)
    ensures |cuts| == |ss| + 1
  {
  }

  /**
   * What `merge` makes of a map: stretches of regions of one type, each beginning where the one before it ends,
   * become one region each, and two neighbours of the result differ in type or do not touch.
   */
  lemma MergeMeaning(rs: seq<MemoryRegion>, p: int)
    requires p > 0 && WellFormed(rs, p)
    ensures var ss := MergeFrom(rs, 0);
            && (exists cuts :: Joins(rs, cuts, ss))
            && forall k :: 0 <= k < |ss| - 1 ==>
                 ss[k].memoryType != ss[k + 1].memoryType || ss[k].start + ss[k].size != ss[k + 1].start
  {
    hide MergeFrom;
    var each := seq(|rs| + 1, k => k);
    assert Joins(rs, each, rs);
    var cuts := MergeFromJoins(rs, each, rs, 0, p);
    MergeCorrect(rs, 0, p);
    var ss := MergeFrom(rs, 0);
    forall k | 0 <= k < |ss| - 1
      ensures ss[k].memoryType != ss[k + 1].memoryType || ss[k].start + ss[k].size != ss[k + 1].start
    {
      assert !Mergeable(ss[k], ss[k + 1]) && PageAligned(ss[k], p);
    }
  }
}

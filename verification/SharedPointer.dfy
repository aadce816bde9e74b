/** Shared pointers and their control blocks (KRE/Memory.h). */
module SharedPointers {
  import opened RefRules

  /** An object behind a raw pointer: how often it was deleted, and the block that wraps it. */
  class Resource {
    var deletions: nat
    ghost var owner: RefControlBlock?

    constructor ()
      ensures deletions == 0 && owner == null
    {
      deletions, owner := 0, null;
    }
  }

  class RefControlBlock {
    var strongRefCount: nat
    const rawPtr: Resource
    var freed: bool

    constructor (ptr: Resource)
      ensures strongRefCount == 0 && rawPtr == ptr && !freed
    {
      strongRefCount, rawPtr, freed := 0, ptr, false;
    }

    /** The block has the given strong count, or is freed, and its deleter ran so many times. */
    ghost predicate Wired(count: Option<nat>, runs: nat)
      reads this, rawPtr
    {
      && rawPtr.owner == this && rawPtr.deletions == runs
      && freed == count.None? && (count.Some? ==> count.value == strongRefCount)
    }
  }

  /** All live handles and all control blocks ever made, with what they are meant to hold. */
  class Registry {
    ghost var world: World<SharedPointer, RefControlBlock>

    constructor ()
      ensures world == World(map[], map[], map[]) && Valid()
    {
      world := World(map[], map[], map[]);
    }

    ghost predicate Valid()
      reads this, world.holds.Keys, world.runs.Keys, set b | b in world.runs :: b.rawPtr
    {
      Wired(world) && Consistent(world)
    }
  }

  /** The fields of all handles and blocks are what the world says. */
  ghost predicate Wired(w: World<SharedPointer, RefControlBlock>)
    reads w.holds.Keys, w.runs.Keys, set b | b in w.runs :: b.rawPtr
  {
    && (forall h :: h in w.holds ==> h.Holds(w.holds[h]))
    && (forall b :: b in w.runs ==> b.Wired(CountOf(w, b), w.runs[b]))
  }

  /** Only the changed handles and the changed block need another look. */
  twostate lemma StillWired(w: World<SharedPointer, RefControlBlock>, new n: World<SharedPointer, RefControlBlock>,
                            new hs: set<SharedPointer>, new x: Option<RefControlBlock>)
    requires old(Wired(w)) && SameElsewhere(w, n, hs, x)
    requires forall h :: h in w.holds && h !in hs ==> unchanged(h)
    requires forall b :: b in w.runs && x != Some(b) ==> unchanged(b) && unchanged(b.rawPtr)
    requires forall h :: h in hs && h in n.holds ==> h.Holds(n.holds[h])
    requires x.Some? && x.value in n.runs ==> x.value.Wired(CountOf(n, x.value), n.runs[x.value])
    ensures Wired(n)
  {
    forall h | h in n.holds
      ensures h.Holds(n.holds[h])
    {
      if h !in hs {
        assert old(h.Holds(w.holds[h]));
      }
    }
    forall b | b in n.runs
      ensures b.Wired(CountOf(n, b), n.runs[b])
    {
      if x != Some(b) {
        assert old(b.Wired(CountOf(w, b), w.runs[b]));
      }
    }
  }

  /** Objects belong to one block each, so a block's object is no other block's. */
  lemma OneBlockEach(w: World<SharedPointer, RefControlBlock>, c: RefControlBlock)
    requires Wired(w) && c in w.runs
    ensures forall b :: b in w.runs && b.rawPtr == c.rawPtr ==> b == c
  {
    assert c.Wired(CountOf(w, c), w.runs[c]);
    forall b | b in w.runs && b.rawPtr == c.rawPtr
      ensures b == c
    {
      assert b.Wired(CountOf(w, b), w.runs[b]);
    }
  }

  lemma NeverWrapped(w: World<SharedPointer, RefControlBlock>, raw: Resource?)
    requires Wired(w) && (raw != null ==> raw.owner == null)
    ensures forall b :: b in w.runs ==> b.rawPtr != raw
  {
    forall b | b in w.runs
      ensures b.rawPtr != raw
    {
      assert b.Wired(CountOf(w, b), w.runs[b]);
    }
  }

  class SharedPointer {
    var ptr: Resource?
    var refs: RefControlBlock?

    /** The handle holds a block and points to its object, or neither. */
    ghost predicate Holds(x: Option<RefControlBlock>)
      reads this
    {
      match x
      case None => refs == null && ptr == null
      case Some(b) => refs == b && ptr == b.rawPtr
    }

    /** Wraps a raw pointer that no handle has wrapped before; a null pointer makes an empty handle. */
    constructor (raw: Resource?, ghost r: Registry)
      requires r.Valid() && (raw != null ==> raw.deletions == 0 && raw.owner == null)
      modifies r, raw
      ensures r.Valid() && this !in old(r.world.holds) && (raw == null <==> refs == null)
      ensures refs != null ==> fresh(refs) && refs.rawPtr == raw
      ensures r.world == Apply(old(r.world), Creation(this, refs))
    {
      hide Apply, Consistent, Wired, SameElsewhere, CountOf;
      NeverWrapped(r.world, raw);
      ptr, refs := raw, null;
      new;
      ghost var w := r.world;
      if raw != null {
        var block := new RefControlBlock(raw);
        refs := block;
        refs.strongRefCount := refs.strongRefCount + 1;
        raw.owner := block;
        CreateApplies(w, this, block);
        r.world := Apply(w, Create(this, block));
        StillWired(w, r.world, {this}, Some(block));
      } else {
        CreateNullApplies(w, this);
        r.world := Apply(w, CreateNull(this));
        StillWired(w, r.world, {this}, None);
      }
    }

    /** Copies another handle; a converting copy does the same with another pointer type. */
    constructor FromCopy(other: SharedPointer, ghost r: Registry)
      requires r.Valid() && other in r.world.holds
      modifies r, other.refs
      ensures r.Valid() && this !in old(r.world.holds) && refs == old(other.refs)
      ensures r.world == Apply(old(r.world), Copy(this, other))
    {
      hide Apply, Consistent, SameElsewhere, CountOf, Share;
      ptr, refs := other.ptr, other.refs;
      new;
      ghost var w := r.world;
      CopyApplies(w, this, other);
      ShareParts(w, this, other);
      HoldsAndCounts(w, other);
      hide Wired;
      if refs != null {
        refs.strongRefCount := refs.strongRefCount + 1;
      }
      r.world := Apply(w, Copy(this, other));
      StillWired(w, r.world, {this}, w.holds[other]);
    }

    /** Takes over what another handle holds. */
    constructor FromMove(other: SharedPointer, ghost r: Registry)
      requires r.Valid() && other in r.world.holds
      modifies r, other
      ensures r.Valid() && this !in old(r.world.holds) && refs == old(other.refs) && other.refs == null
      ensures r.world == Apply(old(r.world), Move(this, other))
    {
      hide Apply, Consistent, SameElsewhere, CountOf, Transfer;
      ptr, refs := other.ptr, other.refs;
      new;
      ghost var w := r.world;
      MoveApplies(w, this, other);
      TransferParts(w, this, other);
      HoldsAndCounts(w, other);
      hide Wired;
      other.ptr := null;
      other.refs := null;
      r.world := Apply(w, Move(this, other));
      StillWired(w, r.world, {this, other}, None);
    }

    /** Gives up the block; the last handle runs the deleter and frees the block. */
    method Reset0(ghost r: Registry)
      requires r.Valid() && this in r.world.holds && refs != null
      modifies r, this, refs, refs.rawPtr
      ensures r.Valid() && refs == null && r.world == Release(old(r.world), this)
    {
      hide Consistent, SameElsewhere, CountOf, Release;
      ghost var w, block := r.world, refs;
      HoldsAndCounts(w, this);
      ReleaseParts(w, this, block);
      OneBlockEach(w, block);
      hide Wired;
      refs.strongRefCount := refs.strongRefCount - 1;
      if refs.strongRefCount == 0 {
        refs.rawPtr.deletions := refs.rawPtr.deletions + 1;
        refs.freed := true;
      }
      ptr := null;
      refs := null;
      r.world := Release(w, this);
      StillWired(w, r.world, {this}, Some(block));
    }

    method Reset(ghost r: Registry)
      requires r.Valid() && this in r.world.holds
      modifies r, this, refs, if refs == null then {} else {refs.rawPtr}
      ensures r.Valid() && refs == null && r.world == Apply(old(r.world), RefRules.Reset(this))
    {
      ResetApplies(r.world, this);
      HoldsAndCounts(r.world, this);
      hide Apply, Consistent, Wired;
      if refs == null {
        return;
      }
      Reset0(r);
    }

    /** The destructor: the handle is gone. */
    method Destroy(ghost r: Registry)
      requires r.Valid() && this in r.world.holds
      modifies r, this, refs, if refs == null then {} else {refs.rawPtr}
      ensures r.Valid() && this !in r.world.holds && r.world == Apply(old(r.world), RefRules.Destroy(this))
    {
      DestroyApplies(r.world, this);
      HoldsAndCounts(r.world, this);
      hide Apply, Consistent, Wired, Release;
      if refs != null {
        Reset0(r);
      }
      WiredWithout(r.world, this);
      r.world := r.world.(holds := r.world.holds - {this});
    }

    /** Copy assignment: nothing happens when both handles hold the same block. */
    method Assign(other: SharedPointer, ghost r: Registry)
      requires r.Valid() && this in r.world.holds && other in r.world.holds
      modifies r, this, refs, other.refs, if refs == null then {} else {refs.rawPtr}
      ensures r.Valid() && refs == old(other.refs) && r.world == Apply(old(r.world), RefRules.Assign(this, other))
    {
      AssignApplies(r.world, this, other);
      ReleasedHolds(r.world, this);
      HoldsAndCounts(r.world, this);
      HoldsAndCounts(r.world, other);
      hide Apply, Consistent, Release, Wired, Share;
      if this == other {
        return;
      }
      if refs == other.refs {
        return;
      }
      if refs != null {
        Reset0(r);
      }
      if other.refs != null {
        Join(other, r);
      } else {
        ShareNothing(r.world, this, other);
      }
    }

    /** An empty handle joins the holders of another one's block. */
    method Join(other: SharedPointer, ghost r: Registry)
      requires r.Valid() && this in r.world.holds && refs == null && other in r.world.holds && other.refs != null
      modifies r, this, other.refs
      ensures r.Valid() && refs == other.refs == old(other.refs) && r.world == Share(old(r.world), this, other)
    {
      hide Consistent, SameElsewhere, CountOf, Share;
      ghost var w := r.world;
      HoldsAndCounts(w, this);
      HoldsAndCounts(w, other);
      ShareParts(w, this, other);
      hide Wired;
      ptr := other.ptr;
      refs := other.refs;
      refs.strongRefCount := refs.strongRefCount + 1;
      r.world := Share(w, this, other);
      StillWired(w, r.world, {this}, w.holds[other]);
    }

    method Swap(other: SharedPointer, ghost r: Registry)
      requires r.Valid() && this in r.world.holds && other in r.world.holds && this != other
      modifies r, this, other
      ensures r.Valid() && refs == old(other.refs) && other.refs == old(refs)
      ensures r.world == Swapped(old(r.world), this, other)
    {
      hide Consistent, SameElsewhere, CountOf;
      ghost var w := r.world;
      SwapKeeps(w, this, other);
      HoldsAndCounts(w, this);
      HoldsAndCounts(w, other);
      hide Wired;
      var tmpPtr := ptr;
      ptr := other.ptr;
      other.ptr := tmpPtr;
      var tmpRefs := refs;
      refs := other.refs;
      other.refs := tmpRefs;
      r.world := Swapped(w, this, other);
      StillWired(w, r.world, {this, other}, None);
    }

    /** Move assignment: by way of a temporary handle, which takes the old block with it. */
    method MoveAssign(other: SharedPointer, ghost r: Registry)
      requires r.Valid() && this in r.world.holds && other in r.world.holds
      modifies r, this, other, refs, if refs == null then {} else {refs.rawPtr}
      ensures r.Valid() && refs == old(other.refs) && (this != other ==> other.refs == null)
      ensures r.world == Apply(old(r.world), RefRules.MoveAssign(this, other))
    {
      hide Apply, Consistent, Release, Wired, Transfer;
      ghost var w := r.world;
      MoveAssignApplies(w, this, other);
      var tmp := new SharedPointer.FromMove(other, r);
      MoveApplies(w, tmp, other);
      Swap(tmp, r);
      DestroyApplies(r.world, tmp);
      MovedBySwap(w, this, other, tmp);
      tmp.Destroy(r);
    }

    /** The number of handles that hold the block of this one. */
    method GetRefCount(ghost r: Registry) returns (n: nat)
      requires r.Valid() && this in r.world.holds
      ensures refs == null ==> n == 0
      ensures refs != null ==> n == |Holders(r.world.holds, refs)| && n > 0
    {
      HoldsAndCounts(r.world, this);
      assert refs != null ==> BlockSound(r.world, refs);
      return if refs != null then refs.strongRefCount else 0;
    }

    /** What a live handle points to is never a deleted object. */
    method Get(ghost r: Registry) returns (p: Resource?)
      requires r.Valid() && this in r.world.holds
      ensures p != null <==> refs != null
      ensures p != null ==> p == refs.rawPtr && p.deletions == 0
    {
      HoldsAndCounts(r.world, this);
      assert refs != null ==> BlockSound(r.world, refs);
      return ptr;
    }
  }

  /** What a live handle holds is a block in use. */
  lemma HoldsAndCounts(w: World<SharedPointer, RefControlBlock>, h: SharedPointer)
    requires Wired(w) && Consistent(w) && h in w.holds
    ensures h.Holds(w.holds[h])
    ensures w.holds[h].Some? ==> var b := w.holds[h].value;
                                 && b in w.runs && b in w.count && w.count[b] > 0
                                 && b.Wired(Some(w.count[b]), w.runs[b])
  {
    HeldIsCounted(w, h);
  }

  lemma WiredWithout(w: World<SharedPointer, RefControlBlock>, h: SharedPointer)
    requires Wired(w)
    ensures Wired(w.(holds := w.holds - {h}))
  {
  }


  ghost function Creation(h: SharedPointer, block: RefControlBlock?): Event<SharedPointer, RefControlBlock> {
    if block == null then CreateNull(h) else var b: RefControlBlock := block; Create(h, b)
  }

  lemma CreateApplies<H, B>(w: World<H, B>, h: H, b: B)
    requires Consistent(w) && h !in w.holds && b !in w.runs
    ensures var r := Apply(w, Create(h, b));
            && Consistent(r) && r == World(w.holds[h := Some(b)], w.count[b := 1], w.runs[b := 0])
            && SameElsewhere(w, r, {h}, Some(b)) && CountOf(r, b) == Some(1)
  {
    StepKeeps(w, Create(h, b));
  }

  lemma CreateNullApplies<H, B>(w: World<H, B>, h: H)
    requires Consistent(w) && h !in w.holds
    ensures var r := Apply(w, CreateNull(h));
            Consistent(r) && r == w.(holds := w.holds[h := None]) && SameElsewhere(w, r, {h}, None)
  {
    StepKeeps(w, CreateNull(h));
  }

  lemma CopyApplies<H, B>(w: World<H, B>, h: H, o: H)
    requires Consistent(w) && h !in w.holds && o in w.holds
    ensures var r := Apply(w, Copy(h, o));
            Consistent(r) && r == Share(w, h, o)
  {
    StepKeeps(w, Copy(h, o));
  }

  lemma MoveApplies<H, B>(w: World<H, B>, h: H, o: H)
    requires Consistent(w) && h !in w.holds && o in w.holds
    ensures var r := Apply(w, Move(h, o));
            Consistent(r) && r == Transfer(w, h, o) && r.holds == w.holds[h := w.holds[o]][o := None]
  {
    StepKeeps(w, Move(h, o));
  }

  lemma ResetApplies<H, B>(w: World<H, B>, h: H)
    requires Consistent(w) && h in w.holds
    ensures var r := Apply(w, Reset(h));
            Consistent(r) && r == Release(w, h) && (w.holds[h] == None ==> r == w)
  {
    StepKeeps(w, Reset(h));
  }

  lemma DestroyApplies<H, B>(w: World<H, B>, h: H)
    requires Consistent(w) && h in w.holds
    ensures var r, d := Apply(w, Destroy(h)), Release(w, h);
            Consistent(r) && r == d.(holds := d.holds - {h}) && (w.holds[h] == None ==> d == w)
  {
    StepKeeps(w, Destroy(h));
  }

  lemma AssignApplies<H, B>(w: World<H, B>, h: H, o: H)
    requires Consistent(w) && h in w.holds && o in w.holds
    ensures var r := Apply(w, Assign(h, o));
            && Consistent(r) && Consistent(Release(w, h))
            && r == if w.holds[h] == w.holds[o] then w else Share(Release(w, h), h, o)
  {
    StepKeeps(w, Assign(h, o));
    ReleaseKeeps(w, h);
  }

  lemma MoveAssignApplies<H, B>(w: World<H, B>, h: H, o: H)
    requires Consistent(w) && h in w.holds && o in w.holds
    ensures var r := Apply(w, MoveAssign(h, o));
            Consistent(r) && r == if h == o then w else Transfer(Release(w, h), h, o)
  {
    StepKeeps(w, MoveAssign(h, o));
  }

  lemma ReleasedHolds<H, B>(w: World<H, B>, h: H)
    requires Consistent(w) && h in w.holds
    ensures Consistent(Release(w, h)) && Release(w, h).holds == w.holds[h := None]
    ensures w.holds[h] == None ==> Release(w, h) == w
  {
    ReleaseKeeps(w, h);
  }

  /** Sharing an empty handle leaves an empty handle as it is. */
  lemma ShareNothing<H, B>(w: World<H, B>, h: H, o: H)
    requires Consistent(w) && h in w.holds && o in w.holds && w.holds[h] == None && w.holds[o] == None
    ensures Share(w, h, o) == w
  {
    assert w.holds[h := None] == w.holds;
  }

  /** Two handles exchange what they hold. */
  ghost function Swapped<H, B>(w: World<H, B>, h: H, o: H): World<H, B>
    requires h in w.holds && o in w.holds
  {
    w.(holds := w.holds[h := w.holds[o]][o := w.holds[h]])
  }

  lemma SwapKeeps<H, B>(w: World<H, B>, h: H, o: H)
    requires Consistent(w) && h in w.holds && o in w.holds && h != o
    ensures Consistent(Swapped(w, h, o)) && SameElsewhere(w, Swapped(w, h, o), {h, o}, None)
  {
    forall b | b in w.runs
      ensures BlockSound(Swapped(w, h, o), b)
    {
      HoldersCount(w.holds, h, w.holds[o], b);
      HoldersCount(w.holds[h := w.holds[o]], o, w.holds[h], b);
      assert BlockSound(w, b);
    }
  }

  /** Moving to a temporary, swapping with it and destroying it is a move assignment. */
  lemma MovedBySwap<H, B>(w: World<H, B>, h: H, o: H, t: H)
    requires Consistent(w) && h in w.holds && o in w.holds && t !in w.holds
    requires Consistent(Swapped(Transfer(w, t, o), h, t))
    ensures var s := Swapped(Transfer(w, t, o), h, t);
            var r := Release(s, t);
            r.(holds := r.holds - {t}) == if h == o then w else Transfer(Release(w, h), h, o)
  {
    hide Consistent, Release;
    var s := Swapped(Transfer(w, t, o), h, t);
    if h == o {
      assert s.holds[t] == None && s.holds - {t} == w.holds;
      ReleasedHolds(s, t);
    } else {
      assert s.holds[t] == w.holds[h];
      ReleasedHolds(w, h);
      ReleasedHolds(s, t);
      SameRelease(w, h, s, t);
      assert Release(s, t).holds - {t} == Transfer(Release(w, h), h, o).holds;
    }
  }

  /** Releasing does to the blocks whatever handle does it. */
  lemma SameRelease<H, B>(w: World<H, B>, h: H, s: World<H, B>, t: H)
    requires Consistent(w) && Consistent(s) && h in w.holds && t in s.holds && w.holds[h] == s.holds[t]
    requires w.count == s.count && w.runs == s.runs
    ensures Release(w, h).count == Release(s, t).count && Release(w, h).runs == Release(s, t).runs
  {
    hide Consistent;
    HeldIsCounted(w, h);
  }
}

/** Shared ownership: which handles hold which control blocks, and when an object is deleted (KRE/Memory.h). */
module RefRules {
  datatype Option<T> = None | Some(value: T)

  /**
   * The live handles with the block each of them holds, the strong counts of the blocks not yet freed, and how
   * often the deleter of each block ever created has run.
   */
  datatype World<H, B> = World(holds: map<H, Option<B>>, count: map<B, nat>, runs: map<B, nat>)

  /** What a program can do with its handles. */
  datatype Event<H, B> =
    | Create(h: H, b: B)
    | CreateNull(h: H)
    | Copy(h: H, other: H)
    | Move(h: H, other: H)
    | Assign(h: H, other: H)
    | MoveAssign(h: H, other: H)
    | Reset(h: H)
    | Destroy(h: H)

  /** New handles and blocks are new, all others live. */
  ghost predicate Enabled<H, B>(w: World<H, B>, e: Event<H, B>) {
    match e
    case Create(h, b) => h !in w.holds && b !in w.runs
    case CreateNull(h) => h !in w.holds
    case Copy(h, o) => h !in w.holds && o in w.holds
    case Move(h, o) => h !in w.holds && o in w.holds
    case Assign(h, o) => h in w.holds && o in w.holds
    case MoveAssign(h, o) => h in w.holds && o in w.holds
    case Reset(h) => h in w.holds
    case Destroy(h) => h in w.holds
  }

  // ---- what the operations do ----------------------------------------------------------------------------

  ghost function Point<H, B>(w: World<H, B>, h: H, x: Option<B>): World<H, B> { w.(holds := w.holds[h := x]) }

  /** The handle gives up what it holds; with the last handle the deleter runs and the block is freed. */
  ghost function Release<H, B>(w: World<H, B>, h: H): World<H, B>
    requires Consistent(w) && h in w.holds
  {
    HeldIsCounted(w, h);
    match w.holds[h]
    case None => w
    case Some(b) =>
      if w.count[b] > 1 then Point(w, h, None).(count := w.count[b := w.count[b] - 1])
      else World(w.holds[h := None], w.count - {b}, w.runs[b := w.runs[b] + 1])
  }

  /** An empty or new handle joins the holders of what another one holds. */
  ghost function Share<H, B>(w: World<H, B>, h: H, o: H): World<H, B>
    requires Consistent(w) && o in w.holds
  {
    HeldIsCounted(w, o);
    match w.holds[o]
    case None => Point(w, h, None)
    case Some(b) => Point(w, h, Some(b)).(count := w.count[b := w.count[b] + 1])
  }

  /** An empty or new handle takes over what another one holds. */
  ghost function Transfer<H, B>(w: World<H, B>, h: H, o: H): World<H, B>
    requires o in w.holds
  {
    Point(Point(w, h, w.holds[o]), o, None)
  }

  /** Assigning a handle that holds the same block changes nothing. */
  ghost function Apply<H, B>(w: World<H, B>, e: Event<H, B>): World<H, B>
    requires Consistent(w) && Enabled(w, e)
  {
    match e
    case Create(h, b) => World(w.holds[h := Some(b)], w.count[b := 1], w.runs[b := 0])
    case CreateNull(h) => Point(w, h, None)
    case Copy(h, o) => Share(w, h, o)
    case Move(h, o) => Transfer(w, h, o)
    case Assign(h, o) =>
      if w.holds[h] == w.holds[o] then w
      else
        ReleaseKeeps(w, h);
        Share(Release(w, h), h, o)
    case MoveAssign(h, o) => if h == o then w else Transfer(Release(w, h), h, o)
    case Reset(h) => Release(w, h)
    case Destroy(h) => var r := Release(w, h); r.(holds := r.holds - {h})
  }

  // ---- the invariant -------------------------------------------------------------------------------------

  ghost function Holders<H, B>(holds: map<H, Option<B>>, b: B): set<H> {
    set h | h in holds && holds[h] == Some(b)
  }

  /** One block: counted by its handles while it has any, and deleted once when it has none. */
  ghost predicate BlockSound<H, B>(w: World<H, B>, b: B)
    requires b in w.runs
  {
    var n := |Holders(w.holds, b)|;
    (b in w.count <==> n > 0) && (b in w.count ==> w.count[b] == n) && w.runs[b] == if n > 0 then 0 else 1
  }

  ghost predicate Consistent<H, B>(w: World<H, B>) {
    && (forall h :: h in w.holds && w.holds[h].Some? ==> w.holds[h].value in w.runs)
    && (forall b :: b in w.count ==> b in w.runs)
    && (forall b :: b in w.runs ==> BlockSound(w, b))
  }

  lemma HeldIsCounted<H, B>(w: World<H, B>, h: H)
    requires Consistent(w) && h in w.holds
    ensures w.holds[h].Some? ==> var b := w.holds[h].value; b in w.runs && b in w.count && w.count[b] > 0
  {
    if w.holds[h].Some? {
      var b := w.holds[h].value;
      assert h in Holders(w.holds, b);
      assert BlockSound(w, b);
    }
  }

  // ---- handles change hands ------------------------------------------------------------------------------

  lemma HoldersAfterPoint<H, B>(holds: map<H, Option<B>>, h: H, x: Option<B>, b: B)
    ensures Holders(holds[h := x], b)
         == if x == Some(b) then Holders(holds, b) + {h} else Holders(holds, b) - {h}
  {
  }

  lemma HoldersAfterRemove<H, B>(holds: map<H, Option<B>>, h: H, b: B)
    ensures Holders(holds - {h}, b) == Holders(holds, b) - {h}
  {
  }

  // ---- every step keeps the invariant --------------------------------------------------------------------

  /** The number of handles of a block when one handle is pointed elsewhere. */
  lemma HoldersCount<H, B>(holds: map<H, Option<B>>, h: H, x: Option<B>, b: B)
    ensures var before, after := |Holders(holds, b)|, |Holders(holds[h := x], b)|;
            var had, has := h in holds && holds[h] == Some(b), x == Some(b);
            after == before + (if has && !had then 1 else 0) - (if had && !has then 1 else 0)
  {
    HoldersAfterPoint(holds, h, x, b);
    var s := Holders(holds, b);
    if h in s {
      assert s + {h} == s;
    } else {
      assert s - {h} == s;
    }
  }

  lemma RemoveCount<H, B>(holds: map<H, Option<B>>, h: H, b: B)
    ensures var before, after := |Holders(holds, b)|, |Holders(holds - {h}, b)|;
            after == before - (if h in holds && holds[h] == Some(b) then 1 else 0)
  {
    HoldersAfterRemove(holds, h, b);
    var s := Holders(holds, b);
    if h !in s {
      assert s - {h} == s;
    }
  }

  lemma ReleaseKeeps<H, B>(w: World<H, B>, h: H)
    requires Consistent(w) && h in w.holds
    ensures Consistent(Release(w, h)) && Release(w, h).holds == w.holds[h := None]
  {
    var r := Release(w, h);
    forall b | b in r.runs
      ensures BlockSound(r, b)
    {
      HoldersCount(w.holds, h, None, b);
      assert BlockSound(w, b);
    }
  }

  /**
   * What every handle holds afterwards: copying and assigning give the handle what the other one holds, moving
   * empties the other one as well, and no third handle changes. Moving a handle into itself changes nothing.
   */
  lemma HeldAfter<H, B>(w: World<H, B>, e: Event<H, B>)
    requires Consistent(w) && Enabled(w, e)
    ensures Apply(w, e).holds ==
            match e
            case Create(h, b) => w.holds[h := Some(b)]
            case CreateNull(h) => w.holds[h := None]
            case Copy(h, o) => w.holds[h := w.holds[o]]
            case Move(h, o) => w.holds[h := w.holds[o]][o := None]
            case Assign(h, o) => w.holds[h := w.holds[o]]
            case MoveAssign(h, o) => if h == o then w.holds else w.holds[h := w.holds[o]][o := None]
            case Reset(h) => w.holds[h := None]
            case Destroy(h) => w.holds - {h}
  {
    hide Consistent;
    match e
    case Assign(h, o) =>
      ReleaseKeeps(w, h);
      if w.holds[h] == w.holds[o] {
        assert w.holds[h := w.holds[o]] == w.holds;
      }
    case MoveAssign(h, _) => ReleaseKeeps(w, h);
    case Reset(h) => ReleaseKeeps(w, h);
    case Destroy(h) =>
      ReleaseKeeps(w, h);
      assert w.holds[h := None] - {h} == w.holds - {h};
    case _ =>
  }

  lemma ShareKeeps<H, B>(w: World<H, B>, h: H, o: H)
    requires Consistent(w) && o in w.holds && (h in w.holds ==> w.holds[h] == None)
    ensures Consistent(Share(w, h, o))
  {
    HeldIsCounted(w, o);
    var r := Share(w, h, o);
    forall b | b in r.runs
      ensures BlockSound(r, b)
    {
      HoldersCount(w.holds, h, w.holds[o], b);
      assert BlockSound(w, b);
    }
  }

  lemma TransferKeeps<H, B>(w: World<H, B>, h: H, o: H)
    requires Consistent(w) && o in w.holds && h != o && (h in w.holds ==> w.holds[h] == None)
    ensures Consistent(Transfer(w, h, o))
  {
    var r := Transfer(w, h, o);
    forall b | b in r.runs
      ensures BlockSound(r, b)
    {
      HoldersCount(w.holds, h, w.holds[o], b);
      HoldersCount(w.holds[h := w.holds[o]], o, None, b);
      assert BlockSound(w, b);
    }
  }

  lemma CreateKeeps<H, B>(w: World<H, B>, h: H, c: B)
    requires Consistent(w) && h !in w.holds && c !in w.runs
    ensures Consistent(World(w.holds[h := Some(c)], w.count[c := 1], w.runs[c := 0]))
  {
    var r := World(w.holds[h := Some(c)], w.count[c := 1], w.runs[c := 0]);
    forall b | b in r.runs
      ensures BlockSound(r, b)
    {
      HoldersCount(w.holds, h, Some(c), b);
      if b == c {
        assert Holders(w.holds, c) == {};
      } else {
        assert BlockSound(w, b);
      }
    }
  }

  /** A handle without a block comes or goes. */
  lemma NullKeeps<H, B>(w: World<H, B>, h: H)
    requires Consistent(w) && (h in w.holds ==> w.holds[h] == None)
    ensures Consistent(Point(w, h, None)) && Consistent(w.(holds := w.holds - {h}))
  {
    forall b | b in w.runs
      ensures BlockSound(Point(w, h, None), b) && BlockSound(w.(holds := w.holds - {h}), b)
    {
      HoldersCount(w.holds, h, None, b);
      RemoveCount(w.holds, h, b);
      assert BlockSound(w, b);
    }
  }

  lemma StepKeeps<H, B>(w: World<H, B>, e: Event<H, B>)
    requires Consistent(w) && Enabled(w, e)
    ensures Consistent(Apply(w, e))
  {
    hide Consistent, Release, Share, Transfer;
    match e
    case Create(h, b) => CreateKeeps(w, h, b);
    case CreateNull(h) => NullKeeps(w, h);
    case Copy(h, o) => ShareKeeps(w, h, o);
    case Move(h, o) => TransferKeeps(w, h, o);
    case Assign(h, o) =>
      if w.holds[h] != w.holds[o] {
        ReleaseKeeps(w, h);
        ShareKeeps(Release(w, h), h, o);
      }
    case MoveAssign(h, o) =>
      if h != o {
        ReleaseKeeps(w, h);
        TransferKeeps(Release(w, h), h, o);
      }
    case Reset(h) => ReleaseKeeps(w, h);
    case Destroy(h) =>
      ReleaseKeeps(w, h);
      NullKeeps(Release(w, h), h);
  }

  // ---- what a step leaves alone --------------------------------------------------------------------------

  /** Only the handles hs and at most one block differ. */
  ghost predicate SameElsewhere<H, B>(w: World<H, B>, n: World<H, B>, hs: set<H>, x: Option<B>) {
    && (forall h :: h in n.holds && h !in hs ==> h in w.holds && w.holds[h] == n.holds[h])
    && (forall b :: b in n.runs && x != Some(b) ==> b in w.runs && SameBlock(w, n, b))
  }

  ghost predicate SameBlock<H, B>(w: World<H, B>, n: World<H, B>, b: B)
    requires b in w.runs && b in n.runs
  {
    w.runs[b] == n.runs[b] && CountOf(w, b) == CountOf(n, b)
  }

  ghost function CountOf<H, B>(w: World<H, B>, b: B): Option<nat> { if b in w.count then Some(w.count[b]) else None }

  lemma ReleaseParts<H, B>(w: World<H, B>, h: H, c: B)
    requires Consistent(w) && h in w.holds && w.holds[h] == Some(c)
    ensures var n := Release(w, h);
            && Consistent(n) && n.holds == w.holds[h := None] && SameElsewhere(w, n, {h}, Some(c))
            && c in w.count && c in w.runs && w.count[c] > 0 && c in n.runs
            && CountOf(n, c) == (if w.count[c] > 1 then Some(w.count[c] - 1) else None)
            && n.runs[c] == if w.count[c] > 1 then w.runs[c] else w.runs[c] + 1
  {
    HeldIsCounted(w, h);
    ReleaseKeeps(w, h);
  }

  lemma ShareParts<H, B>(w: World<H, B>, h: H, o: H)
    requires Consistent(w) && o in w.holds && (h in w.holds ==> w.holds[h] == None)
    ensures var n := Share(w, h, o);
            && Consistent(n) && n.holds == w.holds[h := w.holds[o]] && SameElsewhere(w, n, {h}, w.holds[o])
            && (w.holds[o].Some? ==>
                  var c := w.holds[o].value;
                  c in w.count && c in w.runs && c in n.runs && n.runs[c] == w.runs[c]
                    && CountOf(n, c) == Some(w.count[c] + 1))
  {
    HeldIsCounted(w, o);
    ShareKeeps(w, h, o);
  }

  lemma TransferParts<H, B>(w: World<H, B>, h: H, o: H)
    requires Consistent(w) && o in w.holds && h != o && (h in w.holds ==> w.holds[h] == None)
    ensures var n := Transfer(w, h, o);
            && Consistent(n) && n.holds == w.holds[h := w.holds[o]][o := None] && SameElsewhere(w, n, {h, o}, None)
  {
    TransferKeeps(w, h, o);
  }

  // ---- whole runs ----------------------------------------------------------------------------------------

  ghost predicate CanRun<H, B>(w: World<H, B>, es: seq<Event<H, B>>)
    requires Consistent(w)
    decreases |es|
  {
    es == [] || (Enabled(w, es[0]) && (StepKeeps(w, es[0]); CanRun(Apply(w, es[0]), es[1..])))
  }

  ghost function Run<H, B>(w: World<H, B>, es: seq<Event<H, B>>): (r: World<H, B>)
    requires Consistent(w) && CanRun(w, es)
    ensures Consistent(r)
    decreases |es|
  {
    if es == [] then w
    else
      StepKeeps(w, es[0]);
      Run(Apply(w, es[0]), es[1..])
  }

  /**
   * After any run from an empty world, the strong count of a block is the number of handles that hold it; its
   * deleter has not run while there is one, and has run exactly once when there is none.
   */
  lemma CountsAreHandles<H, B>(es: seq<Event<H, B>>, b: B)
    requires CanRun(World(map[], map[], map[]), es)
    ensures var r := Run(World(map[], map[], map[]), es);
            b in r.runs ==>
              var n := |Holders(r.holds, b)|;
              (b in r.count <==> n > 0) && (n > 0 ==> r.count[b] == n) && r.runs[b] == if n > 0 then 0 else 1
  {
    var r := Run(World(map[], map[], map[]), es);
    if b in r.runs {
      assert BlockSound(r, b);
    }
  }

  /** The deleter of a block runs in the very step that takes its last handle away, and in no other. */
  lemma DeletedWithLastHandle<H, B>(w: World<H, B>, e: Event<H, B>, b: B)
    requires Consistent(w) && Enabled(w, e) && b in w.runs
    ensures var r := Apply(w, e);
            && b in r.runs
            && r.runs[b] == w.runs[b] + (if Holders(w.holds, b) != {} && Holders(r.holds, b) == {} then 1 else 0)
            && (Holders(w.holds, b) == {} ==> Holders(r.holds, b) == {})
  {
    var r := Apply(w, e);
    StepKeeps(w, e);
    assert BlockSound(w, b) && BlockSound(r, b);
    assert w.runs[b] <= r.runs[b];
  }

  /** Once every handle is empty or gone, every object ever wrapped has been deleted exactly once. */
  lemma NothingLeaks<H, B>(es: seq<Event<H, B>>, b: B)
    requires CanRun(World(map[], map[], map[]), es)
    requires var r := Run(World(map[], map[], map[]), es);
             b in r.runs && forall h :: h in r.holds ==> r.holds[h] == None
    ensures var r := Run(World(map[], map[], map[]), es);
            r.runs[b] == 1 && r.count == map[]
  {
    var r := Run(World(map[], map[], map[]), es);
    forall c | c in r.runs
      ensures r.runs[c] == 1 && c !in r.count
    {
      assert BlockSound(r, c) && Holders(r.holds, c) == {};
    }
  }
}

/** The shape of a device tree, apart from the objects that make it up (Device/DeviceModule). */
module DeviceRules {
  /** A rooted tree: the bus of every device but the root, with depths that make it acyclic. */
  datatype Tree<D> = Tree(root: D, bus: map<D, D>, depth: map<D, nat>, height: nat)

  ghost predicate WellFormed<D>(t: Tree<D>) {
    && t.root in t.depth && t.depth[t.root] == 0 && t.bus.Keys == t.depth.Keys - {t.root}
    && (forall d :: d in t.bus ==> t.bus[d] in t.depth && t.depth[d] == t.depth[t.bus[d]] + 1)
    && forall d :: d in t.depth ==> t.depth[d] <= t.height
  }

  /** d is top or stands below it. */
  ghost predicate Below<D>(t: Tree<D>, d: D, top: D)
    requires WellFormed(t) && d in t.depth
    decreases t.depth[d]
  {
    d == top || (d in t.bus && Below(t, t.bus[d], top))
  }

  /** Every device reaches the root. */
  lemma {:induction false} AllBelowRoot<D>(t: Tree<D>, d: D)
    requires WellFormed(t) && d in t.depth
    ensures Below(t, d, t.root)
    decreases t.depth[d]
  {
    if d != t.root {
      AllBelowRoot(t, t.bus[d]);
    }
  }

  /** What stands below a device stands below what that device stands on. */
  lemma {:induction false} BelowUp<D>(t: Tree<D>, d: D, c: D)
    requires WellFormed(t) && d in t.depth && c in t.bus && Below(t, d, c)
    ensures Below(t, d, t.bus[c])
    decreases t.depth[d]
  {
    if d != c {
      BelowUp(t, t.bus[d], c);
    }
  }

  /** A device below another one stands below one of its children. */
  lemma {:induction false} BelowChild<D>(t: Tree<D>, d: D, top: D) returns (c: D)
    requires WellFormed(t) && d in t.depth && d != top && Below(t, d, top)
    ensures c in t.bus && t.bus[c] == top && Below(t, d, c)
    decreases t.depth[d]
  {
    if t.bus[d] == top {
      c := d;
    } else {
      c := BelowChild(t, t.bus[d], top);
    }
  }

  /** Nothing stands below two devices of the same depth. */
  lemma {:induction false} OneAncestorPerDepth<D>(t: Tree<D>, d: D, a: D, b: D)
    requires WellFormed(t) && d in t.depth && a in t.depth && b in t.depth && t.depth[a] == t.depth[b]
    requires Below(t, d, a) && Below(t, d, b)
    ensures a == b
    decreases t.depth[d]
  {
    DepthBelow(t, d, a);
    if d != a && d != b {
      OneAncestorPerDepth(t, t.bus[d], a, b);
    } else {
      DepthBelow(t, d, b);
      Highest(t, d, a);
      Highest(t, d, b);
    }
  }

  lemma {:induction false} DepthBelow<D>(t: Tree<D>, d: D, top: D)
    requires WellFormed(t) && d in t.depth && top in t.depth && Below(t, d, top)
    ensures t.depth[top] <= t.depth[d]
    decreases t.depth[d]
  {
    if d != top {
      DepthBelow(t, t.bus[d], top);
    }
  }

  lemma Highest<D>(t: Tree<D>, d: D, top: D)
    requires WellFormed(t) && d in t.depth && top in t.depth && Below(t, d, top) && t.depth[d] == t.depth[top]
    ensures d == top
  {
    if d != top {
      DepthBelow(t, t.bus[d], top);
    }
  }

  ghost function Subtree<D>(t: Tree<D>, top: D): set<D>
    requires WellFormed(t)
  {
    set d | d in t.depth && Below(t, d, top)
  }

  /** What stands on a device stands below the same devices, and below itself. */
  lemma BelowStep<D>(t: Tree<D>, c: D, d: D)
    requires WellFormed(t) && c in t.bus
    ensures Below(t, c, d) <==> c == d || Below(t, t.bus[c], d)
  {
  }

  lemma InOwnSubtree<D>(t: Tree<D>, d: D)
    requires WellFormed(t) && d in t.depth
    ensures d in Subtree(t, d)
  {
  }

  /** Everything below some of the devices in a list. */
  ghost function Subtrees<D>(t: Tree<D>, tops: seq<D>): set<D>
    requires WellFormed(t)
  {
    if tops == [] then {} else Subtrees(t, tops[..|tops| - 1]) + Subtree(t, tops[|tops| - 1])
  }

  lemma {:induction false} InSubtrees<D>(t: Tree<D>, tops: seq<D>, d: D)
    requires WellFormed(t) && d in t.depth
    ensures d in Subtrees(t, tops) <==> exists k :: 0 <= k < |tops| && Below(t, d, tops[k])
  {
    if tops != [] {
      var n := |tops| - 1;
      InSubtrees(t, tops[..n], d);
      if k :| 0 <= k < |tops| && Below(t, d, tops[k]) {
        if k < n {
          assert Below(t, d, tops[..n][k]);
        }
      }
      if k :| 0 <= k < n && Below(t, d, tops[..n][k]) {
        assert Below(t, d, tops[k]);
      }
    }
  }

  /** A device and all that stands below its children is all that stands below it. */
  lemma ChildrenCover<D>(t: Tree<D>, top: D, children: seq<D>)
    requires WellFormed(t) && top in t.depth
    requires (forall c :: c in children ==> c in t.bus && t.bus[c] == top)
    requires forall c :: c in t.bus && t.bus[c] == top ==> c in children
    ensures Subtree(t, top) == {top} + Subtrees(t, children)
  {
    forall d | d in t.depth
      ensures d in Subtree(t, top) <==> d == top || d in Subtrees(t, children)
    {
      InSubtrees(t, children, d);
      if d != top && Below(t, d, top) {
        var c := BelowChild(t, d, top);
        var k :| 0 <= k < |children| && children[k] == c;
      }
      if d in Subtrees(t, children) {
        var k :| 0 <= k < |children| && Below(t, d, children[k]);
        assert children[k] in children;
        BelowUp(t, d, children[k]);
      }
    }
    SubtreesInside(t, children);
  }

  lemma {:induction false} SubtreesInside<D>(t: Tree<D>, tops: seq<D>)
    requires WellFormed(t)
    ensures Subtrees(t, tops) <= t.depth.Keys
  {
    if tops != [] {
      SubtreesInside(t, tops[..|tops| - 1]);
    }
  }

  /** Nothing stands below two different children of a device. */
  lemma ChildrenApart<D>(t: Tree<D>, children: seq<D>, i: nat)
    requires WellFormed(t) && i < |children| && children[i] in t.bus
    requires forall k :: 0 <= k <= i ==> children[k] in t.bus && t.bus[children[k]] == t.bus[children[i]]
    requires forall k :: 0 <= k < i ==> children[k] != children[i]
    ensures Subtrees(t, children[..i]) !! Subtree(t, children[i])
  {
    SubtreesInside(t, children[..i]);
    forall d | d in Subtrees(t, children[..i])
      ensures d !in Subtree(t, children[i])
    {
      InSubtrees(t, children[..i], d);
      var k :| 0 <= k < i && Below(t, d, children[..i][k]);
      if Below(t, d, children[i]) {
        OneAncestorPerDepth(t, d, children[k], children[i]);
      }
    }
  }

  /** A device does not stand below its child. */
  lemma NotBelowChild<D>(t: Tree<D>, c: D)
    requires WellFormed(t) && c in t.bus
    ensures t.bus[c] !in Subtree(t, c)
  {
    if Below(t, t.bus[c], c) {
      DepthBelow(t, t.bus[c], c);
    }
  }

  /** A device and all that stands below its first children. */
  ghost function Visited<D>(t: Tree<D>, top: D, children: seq<D>, i: nat): set<D>
    requires WellFormed(t) && i <= |children|
  {
    {top} + Subtrees(t, children[..i])
  }

  ghost predicate AreChildren<D>(t: Tree<D>, top: D, children: seq<D>) {
    && NoDuplicates(children)
    && (forall c :: c in children ==> c in t.bus && t.bus[c] == top)
    && (forall c :: c in t.bus && t.bus[c] == top ==> c in children)
  }

  /** Visiting the children one by one visits everything below the device. */
  lemma VisitedAll<D>(t: Tree<D>, top: D, children: seq<D>)
    requires WellFormed(t) && top in t.depth && AreChildren(t, top, children)
    ensures Visited(t, top, children, 0) == {top} && Visited(t, top, children, |children|) == Subtree(t, top)
  {
    ChildrenCover(t, top, children);
    assert children[..|children|] == children;
  }

  /** The next child is a deeper device, and nothing below it has been visited. */
  lemma VisitNext<D>(t: Tree<D>, top: D, children: seq<D>, i: nat)
    requires WellFormed(t) && top in t.depth && AreChildren(t, top, children) && i < |children|
    ensures children[i] in t.depth && t.depth[top] < t.depth[children[i]] <= t.height
    ensures Visited(t, top, children, i + 1) == Visited(t, top, children, i) + Subtree(t, children[i])
    ensures Visited(t, top, children, i) !! Subtree(t, children[i])
    ensures Visited(t, top, children, i) <= t.depth.Keys
  {
    assert forall k :: 0 <= k <= i ==> children[k] in children;
    ChildrenApart(t, children, i);
    NotBelowChild(t, children[i]);
    SubtreesInside(t, children[..i]);
    assert children[..i + 1][..i] == children[..i];
  }

  lemma BelowRoot<D>(t: Tree<D>)
    requires WellFormed(t)
    ensures forall d :: d in t.depth ==> Below(t, d, t.root)
  {
    forall d | d in t.depth
      ensures Below(t, d, t.root)
    {
      AllBelowRoot(t, d);
    }
  }

  lemma WholeTree<D>(t: Tree<D>)
    requires WellFormed(t)
    ensures t.root in t.depth && Subtree(t, t.root) == t.depth.Keys
  {
    forall d | d in t.depth
      ensures Below(t, d, t.root)
    {
      AllBelowRoot(t, d);
    }
  }

  ghost function AddLeaf<D>(t: Tree<D>, bus: D, d: D): Tree<D>
    requires bus in t.depth
  {
    var k := t.depth[bus] + 1;
    Tree(t.root, t.bus[d := bus], t.depth[d := k], if k > t.height then k else t.height)
  }

  /** A device leaves with everything below it. */
  ghost function RemoveSubtree<D>(t: Tree<D>, d: D): Tree<D>
    requires WellFormed(t)
  {
    t.(bus := t.bus - Subtree(t, d), depth := t.depth - Subtree(t, d))
  }

  /** The devices in a list get another bus. */
  ghost function Repoint<D>(bus: map<D, D>, children: seq<D>, d: D): map<D, D> {
    if children == [] then bus else Repoint(bus, children[..|children| - 1], d)[children[|children| - 1] := d]
  }

  lemma {:induction false} RepointAt<D>(bus: map<D, D>, children: seq<D>, d: D)
    requires forall c :: c in children ==> c in bus
    ensures Repoint(bus, children, d).Keys == bus.Keys
    ensures forall c :: c in bus ==> Repoint(bus, children, d)[c] == if c in children then d else bus[c]
  {
    if children != [] {
      var n := |children| - 1;
      RepointAt(bus, children[..n], d);
      assert children == children[..n] + [children[n]];
    }
  }

  /** Another device takes the place of the root, and its children. */
  ghost function ReplaceRoot<D>(t: Tree<D>, d: D, children: seq<D>): Tree<D>
    requires WellFormed(t)
  {
    Tree(d, Repoint(t.bus, children, d), (t.depth - {t.root})[d := 0], t.height)
  }

  lemma AddLeafKeeps<D>(t: Tree<D>, bus: D, d: D)
    requires WellFormed(t) && bus in t.depth && d !in t.depth
    ensures WellFormed(AddLeaf(t, bus, d))
  {
  }

  /** What stands on a device that is left did not stand below the one that leaves. */
  lemma RemoveSubtreeKeeps<D>(t: Tree<D>, d: D)
    requires WellFormed(t) && d in t.bus
    ensures WellFormed(RemoveSubtree(t, d))
  {
    var gone := Subtree(t, d);
    forall c | c in t.bus && c !in gone
      ensures t.bus[c] !in gone
    {
      BelowStep(t, c, d);
    }
  }

  lemma ReplaceRootKeeps<D>(t: Tree<D>, d: D, children: seq<D>)
    requires WellFormed(t) && d !in t.depth && AreChildren(t, t.root, children)
    ensures WellFormed(ReplaceRoot(t, d, children))
  {
    RepointAt(t.bus, children, d);
  }

  // ---- lists of children -----------------------------------------------------------------------------------

  /** The list without the first occurrence of x. */
  function Without<T(==)>(s: seq<T>, x: T): (r: seq<T>)
    ensures x !in s ==> r == s
  {
    if s == [] then [] else if s[0] == x then s[1..] else [s[0]] + Without(s[1..], x)
  }

  ghost predicate NoDuplicates<T>(s: seq<T>) { forall i, j :: 0 <= i < j < |s| ==> s[i] != s[j] }

  lemma NoDuplicatesJoin<T>(a: seq<T>, b: seq<T>)
    requires NoDuplicates(a) && NoDuplicates(b) && forall x :: x in b ==> x !in a
    ensures NoDuplicates(a + b)
  {
    forall i, j | 0 <= i < j < |a + b|
      ensures (a + b)[i] != (a + b)[j]
    {
      if i < |a| <= j {
        assert b[j - |a|] in b;
      }
    }
  }

  lemma {:induction false} WithoutKeeps<T>(s: seq<T>, x: T)
    requires NoDuplicates(s)
    ensures NoDuplicates(Without(s, x))
    ensures forall y :: y in Without(s, x) ==> y in s && y != x
    ensures forall y :: y in s && y != x ==> y in Without(s, x)
  {
    if s != [] {
      if s[0] == x {
        assert forall y :: y in s <==> y == x || y in s[1..];
        assert forall k :: 0 <= k < |s[1..]| ==> s[1..][k] == s[k + 1] != s[0];
      } else {
        WithoutKeeps(s[1..], x);
        NoDuplicatesJoin([s[0]], Without(s[1..], x));
      }
    }
  }

  /** A new leaf joins the children of its bus, has none itself, and leaves those of all others alone. */
  lemma ChildrenWithLeaf<D>(t: Tree<D>, bus: D, d: D, top: D, children: seq<D>)
    requires WellFormed(t) && bus in t.depth && d !in t.depth && top in t.depth && AreChildren(t, top, children)
    ensures AreChildren(AddLeaf(t, bus, d), top, if top == bus then children + [d] else children)
    ensures AreChildren(AddLeaf(t, bus, d), d, [])
  {
    var n := AddLeaf(t, bus, d);
    assert d !in children;
    if top == bus {
      NoDuplicatesJoin(children, [d]);
      forall c | c in n.bus && n.bus[c] == top
        ensures c in children + [d]
      {
        assert c == d || c in children;
      }
    }
  }

  /** A device leaves the children of its bus; those of all others that stay are the same. */
  lemma ChildrenWithoutSubtree<D>(t: Tree<D>, d: D, top: D, children: seq<D>)
    requires WellFormed(t) && d in t.bus && top in t.depth && !Below(t, top, d) && AreChildren(t, top, children)
    ensures AreChildren(RemoveSubtree(t, d), top, if top == t.bus[d] then Without(children, d) else children)
  {
    WithoutKeeps(children, d);
    var n, gone := RemoveSubtree(t, d), Subtree(t, d);
    forall c | c in children && c != d
      ensures c !in gone
    {
      BelowStep(t, c, d);
    }
    assert d in gone;
    if top == t.bus[d] {
      var r := Without(children, d);
      assert forall c :: c in r ==> c in n.bus && n.bus[c] == top;
      assert forall c :: c in n.bus && n.bus[c] == top ==> c in r;
    } else {
      assert d !in children;
      assert forall c :: c in children ==> c in n.bus && n.bus[c] == top;
    }
  }

  /** The new root takes over the children of the old one; those of all others stay. */
  lemma ChildrenOfNewRoot<D>(t: Tree<D>, d: D, all: seq<D>, top: D, children: seq<D>)
    requires WellFormed(t) && d !in t.depth && AreChildren(t, t.root, all)
    requires top in t.depth && AreChildren(t, top, children)
    ensures AreChildren(ReplaceRoot(t, d, all), if top == t.root then d else top, children)
  {
    RepointAt(t.bus, all, d);
  }
}

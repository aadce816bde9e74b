/** The device tree and the drivers bound to its devices (Device/DeviceModule). */
module DeviceModules {
  import opened DeviceRules

  const HANDLE_NONE := 0

  datatype DeviceType = NONE | MASS_STORAGE_DEVICE | KEYBOARD | GENERIC

  /** Devices and drivers match by a string or by the codes of a PCI function. */
  datatype DeviceID = StringID(text: string) | PciID(baseClass: nat, subclass: nat, programmingInterface: nat)

  datatype IORequestStatus = UNKNOWN_DEVICE | DEVICE_NOT_OPERATIONAL | HandledBy(driver: Driver)

  class Driver {
    const targetDeviceId: DeviceID

    constructor (id: DeviceID)
      ensures targetDeviceId == id
    {
      targetDeviceId := id;
    }
  }

  class Device {
    const handle: nat
    const deviceType: DeviceType
    const deviceId: DeviceID
    var driver: Driver?
    var busDevice: Device?
    var childDevices: seq<Device>

    constructor (handle: nat, deviceType: DeviceType, deviceId: DeviceID)
      ensures this.handle == handle && this.deviceType == deviceType && this.deviceId == deviceId
      ensures driver == null && busDevice == null && childDevices == []
    {
      this.handle, this.deviceType, this.deviceId := handle, deviceType, deviceId;
      driver, busDevice, childDevices := null, null, [];
    }
  }

  // ---- searching -----------------------------------------------------------------------------------------

  /** The devices of a set with an ID, each once. */
  ghost predicate ExactlyMatching(found: seq<Device>, devices: set<Device>, id: DeviceID) {
    && NoDuplicates(found)
    && (forall d :: d in found ==> d in devices && d.deviceId == id)
    && forall d :: d in devices && d.deviceId == id ==> d in found
  }

  lemma MatchingOne(d: Device, id: DeviceID)
    ensures ExactlyMatching(if d.deviceId == id then [d] else [], {d}, id)
  {
  }

  lemma MatchingJoin(f: seq<Device>, s: set<Device>, g: seq<Device>, u: set<Device>, id: DeviceID)
    requires ExactlyMatching(f, s, id) && ExactlyMatching(g, u, id) && s !! u
    ensures ExactlyMatching(f + g, s + u, id)
  {
    NoDuplicatesJoin(f, g);
  }

  /** The first driver of the store made for a device. */
  function FirstMatch(store: seq<Driver>, id: DeviceID): (d: Driver?)
    ensures d != null ==> d in store && d.targetDeviceId == id
    ensures d == null ==> forall e :: e in store ==> e.targetDeviceId != id
  {
    if store == [] then null else if store[0].targetDeviceId == id then store[0] else FirstMatch(store[1..], id)
  }

  /** No driver in front of it is made for the device. */
  ghost predicate IsFirstMatch(store: seq<Driver>, k: nat, id: DeviceID) {
    && k < |store| && store[k].targetDeviceId == id
    && forall j :: 0 <= j < k ==> store[j].targetDeviceId != id
  }

  lemma {:induction false} FirstMatchIsFirst(store: seq<Driver>, id: DeviceID)
    ensures var d := FirstMatch(store, id);
            if d == null then forall j :: 0 <= j < |store| ==> store[j].targetDeviceId != id
            else exists k: nat :: IsFirstMatch(store, k, id) && store[k] == d
  {
    if store != [] && store[0].targetDeviceId != id {
      FirstMatchIsFirst(store[1..], id);
      if k: nat :| IsFirstMatch(store[1..], k, id) && store[1..][k] == FirstMatch(store, id) {
        assert forall j :: 1 <= j < |store| ==> store[j] == store[1..][j - 1];
        assert IsFirstMatch(store, k + 1, id);
      }
    } else if store != [] {
      assert IsFirstMatch(store, 0, id);
    }
  }

  ghost predicate NoneHasHandle(devices: set<Device>, handle: nat) { forall d :: d in devices ==> d.handle != handle }

  /** Handles are valid and unique. */
  ghost predicate UniqueHandles(devices: set<Device>) {
    && (forall d :: d in devices ==> d.handle != HANDLE_NONE)
    && forall d, e :: d in devices && e in devices && d.handle == e.handle ==> d == e
  }

  /** Handles stay unique when a device with another one joins, and when some leave. */
  lemma HandlesKept(devices: set<Device>, device: Device)
    requires UniqueHandles(devices)
    ensures device.handle != HANDLE_NONE && NoneHasHandle(devices, device.handle) ==> UniqueHandles(devices + {device})
  {
  }

  lemma HandlesLeft(devices: set<Device>, gone: set<Device>)
    requires UniqueHandles(devices)
    ensures UniqueHandles(devices - gone)
  {
  }

  lemma HandlesSwapped(devices: set<Device>, gone: Device, device: Device)
    requires UniqueHandles(devices) && gone in devices && device.handle == gone.handle
    ensures UniqueHandles(devices - {gone} + {device})
  {
  }

  // ---- links ---------------------------------------------------------------------------------------------

  /** The two fields that link a device into the tree. */
  datatype Wires = Wires(bus: Device?, children: seq<Device>)

  type Links = map<Device, Wires>

  /** The links of a device are those of the tree, in both directions. */
  ghost predicate Linked(t: Tree<Device>, d: Device, w: Wires) {
    && AreChildren(t, d, w.children)
    && if d in t.bus then w.bus == t.bus[d] else w.bus == null
  }

  ghost predicate AllLinked(t: Tree<Device>, l: Links) {
    t.depth.Keys == l.Keys && forall d :: d in l ==> Linked(t, d, l[d])
  }

  ghost predicate SameOutside(l: Links, m: Links, changed: set<Device>) {
    forall d :: d in m && d !in changed ==> d in l && m[d] == l[d]
  }

  /** A device without children joins the children of its bus. */
  lemma LeafKeeps(t: Tree<Device>, l: Links, m: Links, busDevice: Device, device: Device)
    requires WellFormed(t) && AllLinked(t, l) && busDevice in t.depth && device !in t.depth
    requires m.Keys == l.Keys + {device} && SameOutside(l, m, {busDevice, device}) && m[device] == Wires(busDevice, [])
    requires m[busDevice] == Wires(l[busDevice].bus, l[busDevice].children + [device])
    ensures var n := AddLeaf(t, busDevice, device);
            && n.root == t.root && n.depth.Keys == t.depth.Keys + {device} && WellFormed(n) && AllLinked(n, m)
  {
    hide AreChildren;
    AddLeafKeeps(t, busDevice, device);
    var n := AddLeaf(t, busDevice, device);
    forall d | d in m
      ensures Linked(n, d, m[d])
    {
      ChildrenWithLeaf(t, busDevice, device, if d == device then busDevice else d,
                       if d == device then l[busDevice].children else l[d].children);
    }
  }

  /** A device leaves the children of its bus, and the tree with all that stands below it. */
  lemma SubtreeGone(t: Tree<Device>, l: Links, m: Links, device: Device)
    requires WellFormed(t) && AllLinked(t, l) && device in t.bus && t.bus[device] in t.depth
    requires var b := t.bus[device];
             && m.Keys == l.Keys - Subtree(t, device) && SameOutside(l, m, {b}) && b in m
             && m[b] == Wires(l[b].bus, Without(l[b].children, device))
    ensures var n := RemoveSubtree(t, device);
            && n.root == t.root && n.depth.Keys == t.depth.Keys - Subtree(t, device) && n.height == t.height
            && WellFormed(n) && AllLinked(n, m)
  {
    hide AreChildren;
    RemoveSubtreeKeeps(t, device);
    var n := RemoveSubtree(t, device);
    forall d | d in m
      ensures Linked(n, d, m[d])
    {
      assert Linked(t, d, l[d]) && d !in Subtree(t, device);
      ChildrenWithoutSubtree(t, device, d, l[d].children);
    }
  }

  /** The links after a new root took over the children of the old one. */
  ghost predicate RootLinks(l: Links, m: Links, oldRoot: Device, root: Device)
    requires oldRoot in l
  {
    && m.Keys == l.Keys - {oldRoot} + {root} && m[root] == Wires(null, l[oldRoot].children)
    && forall d :: d in m && d != root ==>
                     m[d] == if d in l[oldRoot].children then Wires(root, l[d].children) else l[d]
  }

  lemma RootSwapped(t: Tree<Device>, l: Links, m: Links, root: Device)
    requires WellFormed(t) && AllLinked(t, l) && root !in t.depth && RootLinks(l, m, t.root, root)
    ensures var n := ReplaceRoot(t, root, l[t.root].children);
            && n.root == root && n.depth.Keys == t.depth.Keys - {t.root} + {root} && n.height == t.height
            && WellFormed(n) && AllLinked(n, m)
  {
    hide AreChildren;
    var all := l[t.root].children;
    assert Linked(t, t.root, l[t.root]);
    ReplaceRootKeeps(t, root, all);
    var n := ReplaceRoot(t, root, all);
    forall d | d in m
      ensures Linked(n, d, m[d])
    {
      if d == root {
        ChildrenOfNewRoot(t, root, all, t.root, all);
        NewRootBus(t, root, all, root);
      } else {
        assert Linked(t, d, l[d]);
        ChildrenOfNewRoot(t, root, all, d, l[d].children);
        NewRootBus(t, root, all, d);
      }
    }
  }

  lemma NewRootBus(t: Tree<Device>, root: Device, all: seq<Device>, d: Device)
    requires WellFormed(t) && root !in t.depth && AreChildren(t, t.root, all)
    ensures var n := ReplaceRoot(t, root, all);
            && (d in n.bus <==> d in t.bus) && (d in n.bus ==> n.bus[d] == if d in all then root else t.bus[d])
            && (d in all ==> d in t.bus) && root !in n.bus
  {
    RepointAt(t.bus, all, root);
  }

  // ---- drivers -------------------------------------------------------------------------------------------

  /** The drivers the devices are bound to. */
  type Bindings = map<Device, Driver?>

  /** Bound drivers are in the store and made for their device. */
  ghost predicate AllBound(b: Bindings, store: seq<Driver>) {
    forall d :: d in b && b[d] != null ==> b[d] in store && b[d].targetDeviceId == d.deviceId
  }

  /** None of the devices is bound to the driver. */
  ghost predicate NoneBound(b: Bindings, devices: set<Device>, driver: Driver) {
    forall d :: d in devices && d in b ==> b[d] != driver
  }

  /** Some devices have lost the driver; nothing else is bound differently. */
  ghost predicate OnlyUnbound(b: Bindings, c: Bindings, driver: Driver) {
    c.Keys == b.Keys && forall d :: d in b ==> c[d] == b[d] || (b[d] == driver && c[d] == null)
  }

  lemma UnboundMore(a: Bindings, b: Bindings, c: Bindings, some: set<Device>, more: set<Device>, driver: Driver)
    requires OnlyUnbound(a, b, driver) && OnlyUnbound(b, c, driver)
    requires NoneBound(b, some, driver) && NoneBound(c, more, driver)
    ensures OnlyUnbound(a, c, driver) && NoneBound(c, some + more, driver)
  {
  }

  lemma UnboundOne(a: Bindings, current: Device, driver: Driver)
    requires current in a
    ensures a[current] == driver ==>
              OnlyUnbound(a, a[current := null], driver) && NoneBound(a[current := null], {current}, driver)
    ensures a[current] != driver ==> OnlyUnbound(a, a, driver) && NoneBound(a, {current}, driver)
  {
  }

  lemma UnboundKeeps(a: Bindings, b: Bindings, driver: Driver, store: seq<Driver>)
    requires OnlyUnbound(a, b, driver) && AllBound(a, store)
    ensures AllBound(b, store)
  {
  }

  /** Once no device is bound to it, a driver can leave the store. */
  lemma StoreShrinks(b: Bindings, store: seq<Driver>, driver: Driver)
    requires NoDuplicates(store) && NoneBound(b, b.Keys, driver)
    ensures NoDuplicates(Without(store, driver))
    ensures AllBound(b, store) ==> AllBound(b, Without(store, driver))
  {
    WithoutKeeps(store, driver);
  }

  /** A driver may be bound to a device: it is in the store and made for it. */
  ghost predicate Fits(driver: Driver?, device: Device, store: seq<Driver>) {
    driver != null ==> driver in store && driver.targetDeviceId == device.deviceId
  }

  lemma NewBinding(b: Bindings, store: seq<Driver>, device: Device, driver: Driver?)
    requires device !in b
    ensures AllBound(b[device := driver], store) <==> AllBound(b, store) && Fits(driver, device, store)
  {
    if AllBound(b[device := driver], store) {
      forall d | d in b && b[d] != null
        ensures b[d] in store && b[d].targetDeviceId == d.deviceId
      {
        assert b[device := driver][d] == b[d];
      }
      assert b[device := driver][device] == driver;
    }
  }

  lemma StoreGrows(b: Bindings, store: seq<Driver>, driver: Driver)
    requires AllBound(b, store)
    ensures AllBound(b, store + [driver])
  {
  }

  lemma LostBindings(b: Bindings, store: seq<Driver>, gone: set<Device>)
    requires AllBound(b, store)
    ensures AllBound(b - gone, store)
  {
  }

  /** Those devices in the list that the driver accepts are bound to it, the others as before. */
  ghost predicate BoundIn(a: Bindings, b: Bindings, list: seq<Device>, driver: Driver, accepts: set<Device>) {
    b.Keys == a.Keys && forall d :: d in a ==> b[d] == if d in list && d in accepts then driver else a[d]
  }

  lemma BoundInNext(a: Bindings, b: Bindings, list: seq<Device>, i: nat, driver: Driver, accepts: set<Device>)
    requires i < |list| && list[i] in a && BoundIn(a, b, list[..i], driver, accepts)
    ensures BoundIn(a, if list[i] in accepts then b[list[i] := driver] else b, list[..i + 1], driver, accepts)
  {
    assert list[..i + 1] == list[..i] + [list[i]];
  }

  lemma NoneBoundYet(a: Bindings, driver: Driver, accepts: set<Device>)
    ensures BoundIn(a, a, [], driver, accepts)
  {
  }

  lemma BoundInAll(a: Bindings, b: Bindings, list: seq<Device>, driver: Driver, accepts: set<Device>,
                   store: seq<Driver>)
    requires BoundIn(a, b, list, driver, accepts) && driver in store
             && ExactlyMatching(list, a.Keys, driver.targetDeviceId)
    ensures b.Keys == a.Keys && (AllBound(a, store) ==> AllBound(b, store))
    ensures forall d :: d in a ==>
                          b[d] == if d.deviceId == driver.targetDeviceId && d in accepts then driver else a[d]
  {
  }

  lemma NoDuplicatesOne<T>(s: seq<T>, x: T)
    requires NoDuplicates(s) && x !in s
    ensures NoDuplicates(s + [x])
  {
    NoDuplicatesJoin(s, [x]);
  }

  // ---- the whole tree ------------------------------------------------------------------------------------

  /** The tree is one, its links are mutual and its handles unique. */
  ghost predicate TreeSound(t: Tree<Device>, l: Links, b: Bindings) {
    && WellFormed(t) && AllLinked(t, l) && b.Keys == t.depth.Keys && UniqueHandles(t.depth.Keys)
  }

  lemma SoundParts(t: Tree<Device>, l: Links, b: Bindings)
    requires TreeSound(t, l, b)
    ensures WellFormed(t) && t.depth.Keys == l.Keys == b.Keys
  {
  }

  lemma SoundBound(t: Tree<Device>, l: Links, b: Bindings, c: Bindings)
    requires TreeSound(t, l, b) && c.Keys == b.Keys
    ensures TreeSound(t, l, c)
  {
  }

  lemma SoundWithLeaf(t: Tree<Device>, l: Links, m: Links, b: Bindings, busDevice: Device, device: Device,
                      driver: Driver?)
    requires TreeSound(t, l, b) && busDevice in t.depth && device !in t.depth && busDevice in l
    requires device.handle != HANDLE_NONE && NoneHasHandle(t.depth.Keys, device.handle)
    requires var more := Wires(l[busDevice].bus, l[busDevice].children + [device]);
             m == l[busDevice := more][device := Wires(busDevice, [])]
    ensures var n := AddLeaf(t, busDevice, device);
            n.root == t.root && n.depth.Keys == t.depth.Keys + {device} && TreeSound(n, m, b[device := driver])
  {
    hide AddLeaf, WellFormed, AllLinked, UniqueHandles, NoneHasHandle;
    LeafKeeps(t, l, m, busDevice, device);
    HandlesKept(t.depth.Keys, device);
  }

  lemma SoundWithoutSubtree(t: Tree<Device>, l: Links, m: Links, b: Bindings, device: Device)
    requires TreeSound(t, l, b) && device in t.bus && device in l && t.bus[device] in l
    requires var p := t.bus[device];
             m == l[p := Wires(l[p].bus, Without(l[p].children, device))] - Subtree(t, device)
    ensures var n := RemoveSubtree(t, device);
            && n.root == t.root && n.depth.Keys == t.depth.Keys - Subtree(t, device) && n.height == t.height
            && TreeSound(n, m, b - Subtree(t, device))
  {
    hide RemoveSubtree, Without, Subtree, AllLinked, UniqueHandles;
    LinkKeys(t, l);
    NotBelowChild(t, device);
    SubtreeGone(t, l, m, device);
    HandlesLeft(t.depth.Keys, Subtree(t, device));
  }

  lemma LinkKeys(t: Tree<Device>, l: Links)
    requires AllLinked(t, l)
    ensures t.depth.Keys == l.Keys
  {
  }

  lemma SoundRoot(t: Tree<Device>, l: Links, m: Links, b: Bindings, root: Device, driver: Driver)
    requires TreeSound(t, l, b) && root !in t.depth && t.root in t.depth && t.root in l && RootLinks(l, m, t.root, root)
    requires root.handle == t.root.handle
    ensures var n := ReplaceRoot(t, root, l[t.root].children);
            && n.root == root && n.depth.Keys == t.depth.Keys - {t.root} + {root} && n.height == t.height
            && TreeSound(n, m, (b - {t.root})[root := driver])
  {
    hide ReplaceRoot, RootLinks, AllLinked, UniqueHandles, WellFormed;
    HandlesSwapped(t.depth.Keys, t.root, root);
    RootSwapped(t, l, m, root);
  }

  lemma LeafEnters(t: Tree<Device>, l: Links, m: Links, b: Bindings, busDevice: Device, device: Device, driver: Driver?,
                   store: seq<Driver>)
    requires TreeSound(t, l, b) && busDevice in t.depth && device !in t.depth && busDevice in l
    requires device.handle != HANDLE_NONE && NoneHasHandle(t.depth.Keys, device.handle)
    requires var more := Wires(l[busDevice].bus, l[busDevice].children + [device]);
             m == l[busDevice := more][device := Wires(busDevice, [])]
    ensures var n, c := AddLeaf(t, busDevice, device), b[device := driver];
            && n.root == t.root && n.depth.Keys == t.depth.Keys + {device} && TreeSound(n, m, c)
            && (AllBound(c, store) <==> AllBound(b, store) && Fits(driver, device, store))
  {
    hide TreeSound, AddLeaf, AllBound, Fits, NoneHasHandle;
    SoundParts(t, l, b);
    SoundWithLeaf(t, l, m, b, busDevice, device, driver);
    NewBinding(b, store, device, driver);
  }

  lemma SubtreeLeaves(t: Tree<Device>, l: Links, m: Links, b: Bindings, device: Device, store: seq<Driver>)
    requires TreeSound(t, l, b) && WellFormed(t) && device in t.bus && device in l && t.bus[device] in l
    requires var p := t.bus[device];
             m == l[p := Wires(l[p].bus, Without(l[p].children, device))] - Subtree(t, device)
    ensures var n, c := RemoveSubtree(t, device), b - Subtree(t, device);
            && n.root == t.root && n.height == t.height && m.Keys == l.Keys - Subtree(t, device) && device !in m
            && TreeSound(n, m, c) && (AllBound(b, store) ==> AllBound(c, store))
  {
    hide TreeSound, RemoveSubtree, Without, AllBound, Subtree;
    SoundParts(t, l, b);
    InOwnSubtree(t, device);
    SoundWithoutSubtree(t, l, m, b, device);
    if AllBound(b, store) {
      LostBindings(b, store, Subtree(t, device));
    }
  }

  /** A new root that adopted the children of the old one takes its place. */
  lemma RootEnters(t: Tree<Device>, l: Links, adopted: Links, m: Links, b: Bindings, root: Device, driver: Driver,
                   store: seq<Driver>)
    requires TreeSound(t, l, b) && root !in t.depth && t.root in t.depth && t.root in l && root !in l
    requires root.handle == t.root.handle && Adopted(l, adopted, l[t.root].children, root)
    requires t.root !in l[t.root].children && m == (adopted - {t.root})[root := Wires(null, l[t.root].children)]
    ensures var n, c := ReplaceRoot(t, root, l[t.root].children), (b - {t.root})[root := driver];
            && RootLinks(l, m, t.root, root) && n.root == root && n.height == t.height && TreeSound(n, m, c)
            && (AllBound(b, store) && Fits(driver, root, store) ==> AllBound(c, store))
  {
    hide TreeSound, ReplaceRoot, RootLinks, Adopted, AllBound, WellFormed, Fits;
    SoundParts(t, l, b);
    AdoptedRoot(l, adopted, root, t.root);
    SoundRoot(t, l, m, b, root, driver);
    if AllBound(b, store) {
      LostBindings(b, store, {t.root});
      NewBinding(b - {t.root}, store, root, driver);
    }
  }

  /** How a device of a sound tree is linked. */
  lemma SoundLinks(t: Tree<Device>, l: Links, b: Bindings, d: Device)
    requires TreeSound(t, l, b) && d in t.depth
    ensures d in l && (forall c :: c in l[d].children ==> c in t.depth && c != t.root && c != d)
    ensures (l[d].bus == null) == (d == t.root) && (d in t.bus <==> d != t.root)
    ensures d in t.bus ==> l[d].bus == t.bus[d] && t.bus[d] in t.depth && t.bus[d] != d && t.bus[d] in l
    ensures NoDuplicates(l[d].children)
  {
    assert Linked(t, d, l[d]);
  }

  /** The fields of the devices are what they are meant to be. */
  ghost predicate Wired(l: Links, b: Bindings)
    reads l.Keys
  {
    forall d :: d in l ==> d in b && l[d] == Wires(d.busDevice, d.childDevices) && b[d] == d.driver
  }

  lemma FieldsOf(l: Links, b: Bindings)
    requires Wired(l, b)
    ensures forall d :: d in l ==> d in b && l[d] == Wires(d.busDevice, d.childDevices) && b[d] == d.driver
  {
  }

  /** Setting the children of a device to what they were changes nothing. */
  lemma NothingSet(l: Links, m: Links, d: Device)
    requires m == if d in l then l[d := l[d]] else l
    ensures m == l
  {
  }

  /** The devices in the list have the new root as their bus; nothing else has changed. */
  ghost predicate Adopted(l: Links, m: Links, list: seq<Device>, root: Device) {
    m.Keys == l.Keys && forall d :: d in l ==> m[d] == if d in list then Wires(root, l[d].children) else l[d]
  }

  lemma NoneAdopted(l: Links, root: Device)
    ensures Adopted(l, l, [], root)
  {
  }

  lemma AdoptNext(l: Links, m: Links, list: seq<Device>, i: nat, root: Device)
    requires i < |list| && list[i] in l && list[i] in m && Adopted(l, m, list[..i], root)
    ensures Adopted(l, m[list[i] := Wires(root, m[list[i]].children)], list[..i + 1], root)
  {
    assert list[..i + 1] == list[..i] + [list[i]];
  }

  lemma AdoptedRoot(l: Links, m: Links, root: Device, oldRoot: Device)
    requires oldRoot in l && root !in l && Adopted(l, m, l[oldRoot].children, root) && oldRoot !in l[oldRoot].children
    ensures RootLinks(l, (m - {oldRoot})[root := Wires(null, l[oldRoot].children)], oldRoot, root)
  {
  }

  lemma RootLinksParts(l: Links, m: Links, oldRoot: Device, root: Device)
    requires oldRoot in l && RootLinks(l, m, oldRoot, root)
    ensures m.Keys == l.Keys - {oldRoot} + {root}
    ensures forall d :: d in m && d != root ==>
                          d in l && m[d].bus == if d in l[oldRoot].children then root else l[d].bus
  {
  }

  lemma WiredEnter(l: Links, b: Bindings, d: Device)
    requires Wired(l, b)
    ensures Wired(l[d := Wires(d.busDevice, d.childDevices)], b[d := d.driver])
  {
  }

  lemma WiredLeave(l: Links, b: Bindings, gone: set<Device>)
    requires Wired(l, b)
    ensures Wired(l - gone, b - gone)
  {
  }

  lemma FieldsAt(l: Links, b: Bindings, d: Device)
    requires Wired(l, b) && d in l
    ensures d in b && l[d] == Wires(d.busDevice, d.childDevices) && b[d] == d.driver
  {
  }

  class DeviceModule {
    var driverStore: seq<Driver>
    var deviceTree: Device?
    ghost var bus: map<Device, Device>
    ghost var depth: map<Device, nat>
    ghost var height: nat
    ghost var links: Links
    ghost var bindings: Bindings

    constructor ()
      ensures Valid() && Bound() && Devices() == {} && driverStore == [] && deviceTree == null
    {
      driverStore, deviceTree, bus, depth, height := [], null, map[], map[], 0;
      links, bindings := map[], map[];
    }

    /** The devices in the tree; none before a root is loaded. */
    ghost function Devices(): set<Device>
      reads this
    {
      links.Keys
    }

    ghost function DeviceTree(): Tree<Device>
      requires deviceTree != null
      reads this
    {
      Tree(deviceTree, bus, depth, height)
    }

    ghost predicate Valid()
      reads this, Devices()
    {
      && NoDuplicates(driverStore) && Wired(links, bindings)
      && if deviceTree == null then Devices() == {} else TreeSound(DeviceTree(), links, bindings)
    }

    /** The drivers bound in the tree are in the store and made for their devices. */
    ghost predicate Bound()
      reads this
    {
      AllBound(bindings, driverStore)
    }

    /** Some device of the tree has the handle. */
    ghost predicate Known(handle: nat)
      reads this
    {
      exists d :: d in Devices() && d.handle == handle
    }

    /**
     * What a valid module promises: bus and child links are mutual, all devices but the root have a bus in the
     * tree and reach the root, and handles are unique. What being bound means for the fields of the devices.
     */
    lemma Promises()
      requires Valid() && deviceTree != null
      ensures deviceTree in Devices() && deviceTree.busDevice == null
      ensures forall d, c :: d in Devices() && c in Devices() ==> (c in d.childDevices <==> c.busDevice == d)
      ensures forall d :: d in Devices() && d != deviceTree ==> d.busDevice != null && d.busDevice in Devices()
      ensures WellFormed(DeviceTree())
      ensures forall d :: d in Devices() ==> d in depth && Below(DeviceTree(), d, deviceTree)
      ensures forall d, e :: d in Devices() && e in Devices() && d.handle == e.handle ==> d == e
      ensures Bound() <==> forall d :: d in Devices() ==> Fits(d.driver, d, driverStore)
    {
      FieldsOf(links, bindings);
      BoundByFields();
      forall d, c | d in Devices() && c in Devices()
        ensures c in d.childDevices <==> c.busDevice == d
        ensures d != deviceTree ==> d.busDevice != null && d.busDevice in Devices()
      {
        LinksAt(d, c);
      }
      WholeTree(DeviceTree());
      BelowRoot(DeviceTree());
    }

    lemma BoundByFields()
      requires Valid() && deviceTree != null
      ensures Bound() <==> forall d :: d in Devices() ==> Fits(d.driver, d, driverStore)
    {
      assert bindings.Keys == Devices();
      if forall d :: d in Devices() ==> Fits(d.driver, d, driverStore) {
        forall d | d in bindings && bindings[d] != null
          ensures bindings[d] in driverStore && bindings[d].targetDeviceId == d.deviceId
        {
          assert Fits(d.driver, d, driverStore);
        }
      }
    }

    lemma LinksAt(d: Device, c: Device)
      requires Valid() && deviceTree != null && d in Devices() && c in Devices()
      ensures c in d.childDevices <==> c.busDevice == d
      ensures d != deviceTree ==> d.busDevice != null && d.busDevice in Devices()
    {
      assert Linked(DeviceTree(), d, links[d]) && Linked(DeviceTree(), c, links[c]);
    }

    /** What the recursive searches need to know about a device of the tree. */
    lemma Visiting(current: Device)
      requires Valid() && current in Devices()
      ensures deviceTree != null && WellFormed(DeviceTree()) && AreChildren(DeviceTree(), current, current.childDevices)
      ensures Devices() == depth.Keys
      ensures var t, cs := DeviceTree(), current.childDevices;
              Visited(t, current, cs, 0) == {current} && Visited(t, current, cs, |cs|) == Subtree(t, current)
    {
      assert Linked(DeviceTree(), current, links[current]);
      VisitedAll(DeviceTree(), current, current.childDevices);
    }

    /** Searches the devices below one of them. */
    method FindDeviceBelow(current: Device, handle: nat) returns (r: Device?)
      requires Valid() && current in Devices()
      ensures r != null ==> r in Devices() && r.handle == handle
      ensures deviceTree != null && WellFormed(DeviceTree())
      ensures r == null && handle != HANDLE_NONE ==> NoneHasHandle(Subtree(DeviceTree(), current), handle)
      decreases height - if current in depth then depth[current] else 0
    {
      hide Valid, WellFormed, AreChildren, Subtree, Visited;
      Visiting(current);
      if handle == HANDLE_NONE {
        return null;
      }
      if handle == current.handle {
        return current;
      }
      ghost var t, cs := DeviceTree(), current.childDevices;
      var i := 0;
      while i < |current.childDevices|
        invariant 0 <= i <= |cs| && NoneHasHandle(Visited(t, current, cs, i), handle)
      {
        VisitNext(t, current, cs, i);
        r := FindDeviceBelow(current.childDevices[i], handle);
        if r != null {
          return;
        }
        i := i + 1;
      }
      return null;
    }

    /** A handle is found if and only if a device of the tree has it. */
    method FindDevice(handle: nat) returns (r: Device?)
      requires Valid() && deviceTree != null
      ensures r != null <==> Known(handle)
      ensures r != null ==> r in Devices() && r.handle == handle
    {
      WholeTree(DeviceTree());
      r := FindDeviceBelow(deviceTree, handle);
    }

    method FindDeviceDriver(id: DeviceID) returns (d: Driver?)
      ensures d == FirstMatch(driverStore, id)
      ensures if d == null then forall j :: 0 <= j < |driverStore| ==> driverStore[j].targetDeviceId != id
              else exists k: nat :: IsFirstMatch(driverStore, k, id) && driverStore[k] == d
    {
      FirstMatchIsFirst(driverStore, id);
      var i := 0;
      assert driverStore[0..] == driverStore;
      while i < |driverStore|
        invariant 0 <= i <= |driverStore| && FirstMatch(driverStore, id) == FirstMatch(driverStore[i..], id)
      {
        assert driverStore[i..][1..] == driverStore[i + 1..];
        if driverStore[i].targetDeviceId == id {
          return driverStore[i];
        }
        i := i + 1;
      }
      return null;
    }

    /** All devices with the ID among those below a device, each once. */
    method MatchDevices(current: Device, id: DeviceID) returns (found: seq<Device>)
      requires Valid() && current in Devices()
      ensures deviceTree != null && WellFormed(DeviceTree())
              && ExactlyMatching(found, Subtree(DeviceTree(), current), id)
      decreases height - if current in depth then depth[current] else 0
    {
      hide Valid, WellFormed, AreChildren, Subtree, Visited, ExactlyMatching;
      Visiting(current);
      ghost var t, cs := DeviceTree(), current.childDevices;
      found := if current.deviceId == id then [current] else [];
      MatchingOne(current, id);
      var i := 0;
      while i < |current.childDevices|
        invariant 0 <= i <= |cs| && ExactlyMatching(found, Visited(t, current, cs, i), id)
      {
        VisitNext(t, current, cs, i);
        var more := MatchDevices(current.childDevices[i], id);
        MatchingJoin(found, Visited(t, current, cs, i), more, Subtree(t, cs[i]), id);
        found := found + more;
        i := i + 1;
      }
    }

    // ---- drivers -----------------------------------------------------------------------------------------

    method Bind(device: Device, driver: Driver?)
      requires Wired(links, bindings) && device in links
      modifies this`bindings, device`driver
      ensures Wired(links, bindings) && bindings == old(bindings)[device := driver]
    {
      device.driver := driver;
      bindings := bindings[device := driver];
    }

    /** Unbinds a driver from every device below one of them. */
    method RemoveDeviceDriver(current: Device, driver: Driver)
      requires Valid() && current in Devices()
      modifies this`bindings, Devices()`driver
      ensures Valid() && deviceTree != null && WellFormed(DeviceTree())
      ensures OnlyUnbound(old(bindings), bindings, driver)
              && NoneBound(bindings, Subtree(DeviceTree(), current), driver)
      decreases height - if current in depth then depth[current] else 0
    {
      hide TreeSound, Wired, NoDuplicates, WellFormed, AreChildren, Subtree, Visited, NoneBound, OnlyUnbound;
      Visiting(current);
      FieldsOf(links, bindings);
      ghost var t, cs, a := DeviceTree(), current.childDevices, bindings;
      SoundParts(t, links, a);
      UnboundOne(a, current, driver);
      if current.driver == driver {
        Bind(current, null);
      }
      SoundBound(t, links, a, bindings);
      var i := 0;
      while i < |current.childDevices|
        invariant 0 <= i <= |cs| && cs == current.childDevices && Valid()
        invariant OnlyUnbound(a, bindings, driver) && NoneBound(bindings, Visited(t, current, cs, i), driver)
      {
        VisitNext(t, current, cs, i);
        ghost var b := bindings;
        RemoveDeviceDriver(current.childDevices[i], driver);
        UnboundMore(a, b, bindings, Visited(t, current, cs, i), Subtree(t, cs[i]), driver);
        i := i + 1;
      }
    }

    /**
     * A new driver enters the store and is bound to those devices made for it that it accepts, also when
     * another driver is bound to them.
     */
    method RegisterDeviceDriver(driver: Driver?, accepts: set<Device>) returns (ok: bool)
      requires Valid()
      modifies this`driverStore, this`bindings, Devices()`driver
      ensures Valid() && (ok <==> driver != null && driver !in old(driverStore))
      ensures driverStore == if ok then old(driverStore) + [driver] else old(driverStore)
      ensures old(Bound()) ==> Bound()
      ensures forall d :: d in Devices() ==>
                            d.driver == if ok && d.deviceId == driver.targetDeviceId && d in accepts then driver
                                        else old(d.driver)
    {
      hide TreeSound, NoDuplicates, AllBound;
      if driver == null {
        return false;
      }
      if driver in driverStore {
        return false;
      }
      var d: Driver := driver;
      NoDuplicatesOne(driverStore, d);
      if Bound() {
        StoreGrows(bindings, driverStore, d);
      }
      driverStore := driverStore + [d];
      if deviceTree != null {
        BindMatching(d, accepts);
      }
      return true;
    }

    /** Binds a driver of the store to the devices made for it that it accepts. */
    method BindMatching(driver: Driver, accepts: set<Device>)
      requires Valid() && deviceTree != null && driver in driverStore
      modifies this`bindings, Devices()`driver
      ensures Valid() && (old(Bound()) ==> Bound())
      ensures forall d :: d in Devices() ==>
                            d.driver == if d.deviceId == driver.targetDeviceId && d in accepts then driver
                                        else old(d.driver)
    {
      hide TreeSound, Wired, WellFormed, NoDuplicates, Subtree, AllBound, BoundIn;
      ghost var t, b := DeviceTree(), bindings;
      FieldsOf(links, b);
      SoundParts(t, links, b);
      WholeTree(t);
      var matching := MatchDevices(deviceTree, driver.targetDeviceId);
      NoneBoundYet(b, driver, accepts);
      var i := 0;
      assert matching[..0] == [];
      while i < |matching|
        invariant 0 <= i <= |matching| && Wired(links, bindings) && BoundIn(b, bindings, matching[..i], driver, accepts)
      {
        assert matching[i] in matching;
        BoundInNext(b, bindings, matching, i, driver, accepts);
        if matching[i] in accepts {
          Bind(matching[i], driver);
        }
        i := i + 1;
      }
      assert matching[..i] == matching;
      BoundInAll(b, bindings, matching, driver, accepts, driverStore);
      SoundBound(t, links, b, bindings);
      FieldsOf(links, bindings);
    }

    /** The driver leaves the store and all devices. */
    method UnregisterDeviceDriver(driver: Driver?) returns (ok: bool)
      requires Valid() && deviceTree != null
      modifies this`driverStore, this`bindings, Devices()`driver
      ensures Valid() && (ok <==> driver != null && driver in old(driverStore))
      ensures driverStore == if ok then Without<Driver>(old(driverStore), driver) else old(driverStore)
      ensures old(Bound()) ==> Bound()
      ensures forall d :: d in Devices() ==> d.driver == if ok && old(d.driver) == driver then null else old(d.driver)
    {
      hide TreeSound, WellFormed, NoDuplicates, AllBound, Subtree, Without;
      if driver == null {
        return false;
      }
      if driver !in driverStore {
        return false;
      }
      var d: Driver := driver;
      ghost var b := bindings;
      SoundParts(DeviceTree(), links, b);
      WholeTree(DeviceTree());
      RemoveDeviceDriver(deviceTree, d);
      SoundParts(DeviceTree(), links, bindings);
      if AllBound(b, driverStore) {
        UnboundKeeps(b, bindings, d, driverStore);
      }
      StoreShrinks(bindings, driverStore, d);
      driverStore := Without(driverStore, d);
      return true;
    }

    // ---- devices -----------------------------------------------------------------------------------------

    /** The bus is known and the device is not. */
    ghost predicate Registrable(busDevice: Device?, device: Device?)
      reads this
    {
      && busDevice != null && device != null && busDevice != device && device.deviceType != NONE
      && Known(busDevice.handle) && !Known(device.handle)
    }

    /** The driver of a device that registers: the first one made for it, or the one it came with. */
    ghost function BoundTo(device: Device, accepted: bool): Driver?
      reads this, device
    {
      var driver := FirstMatch(driverStore, device.deviceId);
      if driver != null && accepted then driver else device.driver
    }

    /**
     * Adds a device without children to its bus and binds the first driver made for it, if the driver accepts;
     * otherwise the device keeps the driver it came with. The bus is looked up by its handle only: a device
     * enters the tree exactly when its bus is in it. Bindings stay sound exactly when what it brings fits.
     */
    method RegisterDevice(busDevice: Device?, device: Device?, accepted: bool) returns (ok: bool)
      requires Valid() && deviceTree != null
      requires device != null ==> device.handle != HANDLE_NONE && device.childDevices == []
      modifies this`bus, this`depth, this`height, this`links, this`bindings, busDevice, device
      ensures Valid() && (ok <==> old(Registrable(busDevice, device)))
      ensures !ok ==> unchanged(this)
      ensures !ok ==> (busDevice != null ==> unchanged(busDevice)) && (device != null ==> unchanged(device))
      ensures ok ==> Devices() == old(Devices()) + if busDevice in old(Devices()) then {device} else {}
      ensures ok ==> busDevice.childDevices == old(busDevice.childDevices) + [device] && device.busDevice == busDevice
      ensures ok ==> busDevice.driver == old(busDevice.driver) && busDevice.busDevice == old(busDevice.busDevice)
      ensures ok ==> device.childDevices == [] && device.driver == old(BoundTo(device, accepted))
      ensures Bound() <==>
              old(Bound())
              && (ok && busDevice in old(Devices()) ==> Fits(old(BoundTo(device, accepted)), device, driverStore))
    {
      hide TreeSound, NoDuplicates, Wired;
      if busDevice == null || device == null {
        return false;
      }
      if busDevice == device {
        return false;
      }
      if device.deviceType == NONE {
        return false;
      }
      var maybeBus := FindDevice(busDevice.handle);
      if maybeBus == null {
        return false;
      }
      var maybeDevice := FindDevice(device.handle);
      if maybeDevice != null {
        return false;
      }
      var driver := FindDeviceDriver(device.deviceId);
      Attach(busDevice, device, if driver != null && accepted then driver else device.driver);
      return true;
    }

    /** Hangs a device below its bus and binds it. */
    method Attach(busDevice: Device, device: Device, driver: Driver?)
      requires Valid() && deviceTree != null && device !in Devices() && busDevice != device
      requires device.handle != HANDLE_NONE && device.childDevices == []
      requires NoneHasHandle(Devices(), device.handle)
      modifies this`bus, this`depth, this`height, this`links, this`bindings, busDevice, device
      ensures Valid()
      ensures Bound() <==> old(Bound()) && (busDevice in old(Devices()) ==> Fits(driver, device, driverStore))
      ensures busDevice in old(Devices()) ==> Devices() == old(Devices()) + {device}
      ensures busDevice !in old(Devices()) ==> Devices() == old(Devices())
      ensures busDevice.childDevices == old(busDevice.childDevices) + [device] && device.busDevice == busDevice
      ensures busDevice.driver == old(busDevice.driver) && busDevice.busDevice == old(busDevice.busDevice)
      ensures device.childDevices == [] && device.driver == driver
    {
      hide TreeSound, NoDuplicates, Wired, NoneHasHandle;
      ghost var l := links;
      SoundParts(DeviceTree(), l, bindings);
      FieldsOf(l, bindings);
      SetChildren(busDevice, busDevice.childDevices + [device]);
      SetLeaf(device, busDevice, driver);
      if busDevice in l {
        EnterTree(l, busDevice, device);
      }
    }

    /** The device just hung below a bus of the tree belongs to it. */
    ghost method EnterTree(l: Links, busDevice: Device, device: Device)
      requires deviceTree != null && TreeSound(DeviceTree(), l, bindings) && NoDuplicates(driverStore)
      requires busDevice in l && device !in l && busDevice in depth && device !in depth
      requires links == l[busDevice := Wires(l[busDevice].bus, l[busDevice].children + [device])]
               && Wired(links, bindings)
      requires device.busDevice == busDevice && device.childDevices == []
      requires device.handle != HANDLE_NONE && NoneHasHandle(depth.Keys, device.handle)
      modifies this`bus, this`depth, this`height, this`links, this`bindings
      ensures Valid() && Devices() == l.Keys + {device}
      ensures Bound() <==> old(Bound()) && Fits(device.driver, device, driverStore)
    {
      hide TreeSound, NoDuplicates, AddLeaf, Wired, NoneHasHandle, AllBound, Fits;
      ghost var t, b := DeviceTree(), bindings;
      ghost var m := links[device := Wires(busDevice, [])];
      WiredEnter(links, b, device);
      LeafEnters(t, l, m, b, busDevice, device, device.driver, driverStore);
      ghost var n := AddLeaf(t, busDevice, device);
      links, bindings := m, b[device := device.driver];
      bus, depth, height := n.bus, n.depth, n.height;
    }

    method SetChildren(d: Device, children: seq<Device>)
      requires Wired(links, bindings)
      modifies this`links, d`childDevices
      ensures Wired(links, bindings) && d.childDevices == children
      ensures links == if d in old(links) then old(links)[d := Wires(old(links)[d].bus, children)] else old(links)
    {
      d.childDevices := children;
      if d in links {
        links := links[d := Wires(links[d].bus, children)];
      }
    }

    /** Sets the bus and the driver of a device outside the tree. */
    method SetLeaf(d: Device, busDevice: Device?, driver: Driver?)
      requires Wired(links, bindings) && d !in links
      modifies d`busDevice, d`driver
      ensures Wired(links, bindings) && d.busDevice == busDevice && d.driver == driver
    {
      d.busDevice := busDevice;
      d.driver := driver;
    }

    /**
     * Takes a device off its bus and unbinds it; the root and strangers stay as they are. Everything below the
     * device leaves the tree with it, and stays linked and bound as it was.
     */
    method UnregisterDevice(device: Device?) returns (ok: bool)
      requires Valid()
      modifies this`bus, this`depth, this`links, this`bindings
      modifies (if device == null then {} else {device})`busDevice, (if device == null then {} else {device})`driver
      modifies (if device == null then {} else {device.busDevice})`childDevices
      ensures Valid() && (ok <==> device != null && old(device.busDevice) != null) && (old(Bound()) ==> Bound())
      ensures !ok ==> unchanged(this) && (device != null ==> unchanged(device))
      ensures ok ==> device.busDevice == null && device.driver == null && Devices() == old(Devices() - AllBelow(device))
      ensures ok && device in old(Devices()) ==>
                old(device.busDevice).childDevices == Without<Device>(old(device.busDevice.childDevices), device)
    {
      hide TreeSound, NoDuplicates, Without, Wired;
      if device == null {
        return false;
      }
      if device.busDevice == null {
        return false;
      }
      Detach(device, device.busDevice);
      return true;
    }

    /** A device of the tree and all that stands below it. */
    ghost function AllBelow(device: Device): set<Device>
      requires Valid()
      reads this, Devices()
    {
      if device in Devices() then Subtree(DeviceTree(), device) else {}
    }

    /** Takes a device off its bus and unbinds it. */
    method Detach(device: Device, busDevice: Device)
      requires Valid() && device.busDevice == busDevice
      modifies this`bus, this`depth, this`links, this`bindings, device`busDevice, device`driver, busDevice`childDevices
      ensures Valid() && device.busDevice == null && device.driver == null
              && Devices() == old(Devices() - AllBelow(device))
      ensures old(Bound()) ==> Bound()
      ensures device in old(Devices()) ==> busDevice.childDevices == Without(old(busDevice.childDevices), device)
    {
      hide TreeSound, NoDuplicates, Without, Wired, Subtree;
      ghost var l := links;
      FieldsOf(l, bindings);
      LinkedByFields(busDevice, device);
      SetChildren(busDevice, Without(busDevice.childDevices, device));
      if device in l {
        SoundParts(DeviceTree(), l, bindings);
        LeaveTree(l, device);
      } else {
        NothingSet(l, links, busDevice);
      }
      SetLeaf(device, null, null);
    }

    /** The device just taken off its bus leaves the tree with all that stands below it. */
    ghost method LeaveTree(l: Links, device: Device)
      requires deviceTree != null && TreeSound(DeviceTree(), l, bindings) && NoDuplicates(driverStore)
      requires device in bus && bus[device] in l && device in l && WellFormed(DeviceTree())
      requires var p := bus[device]; links == l[p := Wires(l[p].bus, Without(l[p].children, device))]
      requires Wired(links, bindings)
      modifies this`bus, this`depth, this`links, this`bindings
      ensures Valid() && Devices() == l.Keys - old(Subtree(DeviceTree(), device)) && (old(Bound()) ==> Bound())
      ensures device !in Devices()
    {
      hide TreeSound, NoDuplicates, RemoveSubtree, Without, Wired, AllBound, Subtree;
      ghost var t, b := DeviceTree(), bindings;
      ghost var gone := Subtree(t, device);
      WiredLeave(links, b, gone);
      SubtreeLeaves(t, l, links - gone, b, device, driverStore);
      ghost var n := RemoveSubtree(t, device);
      links, bindings := links - gone, b - gone;
      bus, depth := n.bus, n.depth;
    }

    /** The bus of a device of the tree; a device outside of it is nobody's child in it. */
    lemma LinkedByFields(busDevice: Device, device: Device)
      requires Valid() && device.busDevice == busDevice
      ensures device in Devices() ==>
                && deviceTree != null && device in bus && bus[device] == busDevice
                && busDevice in Devices() && busDevice != device
      ensures device !in Devices() && busDevice in Devices() ==>
                device !in busDevice.childDevices && Without(busDevice.childDevices, device) == busDevice.childDevices
    {
      if deviceTree != null {
        if device in Devices() {
          SoundLinks(DeviceTree(), links, bindings, device);
        }
        if busDevice in Devices() {
          SoundLinks(DeviceTree(), links, bindings, busDevice);
        }
      }
    }

    /** A request goes to the driver of the device with the handle, when there are both. */
    method ControlDevice(handle: nat) returns (status: IORequestStatus)
      requires Valid() && deviceTree != null
      ensures status == UNKNOWN_DEVICE <==> !Known(handle)
      ensures forall d :: d in Devices() && d.handle == handle ==>
                status == if d.driver == null then DEVICE_NOT_OPERATIONAL else HandledBy(d.driver)
      ensures Bound() && status.HandledBy? ==> status.driver in driverStore
    {
      var device := FindDevice(handle);
      if device == null {
        return UNKNOWN_DEVICE;
      }
      if device.driver == null {
        return DEVICE_NOT_OPERATIONAL;
      }
      return HandledBy(device.driver);
    }

    // ---- loading ----------------------------------------------------------------------------

    /** Makes a placeholder the root, when the store has a driver for it; the outcome is the driver's. */
    method LoadPlaceholder(placeholder: Device, accepted: bool) returns (rootDriver: Driver?)
      requires Valid() && deviceTree == null && placeholder.handle != HANDLE_NONE
      requires placeholder.childDevices == [] && placeholder.busDevice == null && placeholder.driver == null
      modifies this`deviceTree, this`bus, this`depth, this`height, this`links, this`bindings
      ensures Valid() && (old(Bound()) ==> Bound())
      ensures rootDriver == if accepted then FirstMatch(driverStore, placeholder.deviceId) else null
      ensures FirstMatch(driverStore, placeholder.deviceId) == null ==> unchanged(this)
      ensures FirstMatch(driverStore, placeholder.deviceId) != null ==>
                deviceTree == placeholder && Devices() == {placeholder}
    {
      rootDriver := FindDeviceDriver(placeholder.deviceId);
      if rootDriver == null {
        return;
      }
      deviceTree := placeholder;
      bus, depth, height := map[], map[placeholder := 0], 0;
      links, bindings := map[placeholder := Wires(null, [])], map[placeholder := null];
      assert Linked(DeviceTree(), placeholder, links[placeholder]);
      if !accepted {
        rootDriver := null;
      }
    }

    /** The full root takes the place of the placeholder, with its children and the same handle. */
    method ReplaceRootDevice(root: Device, rootDriver: Driver)
      requires Valid() && deviceTree != null && root !in Devices() && root.handle == deviceTree.handle
      requires root.childDevices == [] && root.busDevice == null
      modifies this`deviceTree, this`bus, this`depth, this`links, this`bindings, root, Devices()`busDevice
      ensures Valid() && deviceTree == root && Devices() == old(Devices()) - {old(deviceTree)} + {root}
      ensures old(Bound()) && Fits(rootDriver, root, driverStore) ==> Bound()
      ensures root.childDevices == old(deviceTree.childDevices) && root.driver == rootDriver
      ensures forall d :: d in old(Devices()) && d != old(deviceTree) ==>
                            d.busDevice == if d in root.childDevices then root else old(d.busDevice)
    {
      hide TreeSound, NoDuplicates, Wired, RootLinks;
      ghost var l, o := links, deviceTree;
      SoundParts(DeviceTree(), l, bindings);
      FieldsOf(l, bindings);
      SwapRoot(root, rootDriver);
      RootLinksParts(l, links, o, root);
      FieldsOf(links, bindings);
    }

    method SwapRoot(root: Device, rootDriver: Driver)
      requires Valid() && deviceTree != null && deviceTree in links && root !in links
               && root.handle == deviceTree.handle
      requires root.childDevices == [] && root.busDevice == null
      modifies this`deviceTree, this`bus, this`depth, this`links, this`bindings, root, Devices()`busDevice
      ensures old(Bound()) && Fits(rootDriver, root, driverStore) ==> Bound()
      ensures Valid() && deviceTree == root && RootLinks(old(links), links, old(deviceTree), root)
      ensures root.childDevices == old(links)[old(deviceTree)].children && root.driver == rootDriver
    {
      hide TreeSound, NoDuplicates, Wired, RootLinks, Adopted;
      ghost var l := links;
      SoundParts(DeviceTree(), l, bindings);
      SoundLinks(DeviceTree(), l, bindings, deviceTree);
      FieldsAt(l, bindings, deviceTree);
      SetChildren(root, root.childDevices + deviceTree.childDevices);
      assert root.childDevices == l[deviceTree].children;
      AdoptChildren(root, l);
      SetLeaf(root, null, rootDriver);
      ghost var oldRoot := deviceTree;
      deviceTree := root;
      EnterRoot(l, oldRoot, root);
    }

    /** The children in the list of the new root learn that it is their bus. */
    method AdoptChildren(root: Device, ghost l: Links)
      requires Wired(links, bindings) && links == l && root !in l && forall c :: c in root.childDevices ==> c in l
      modifies this`links, Devices()`busDevice
      ensures Wired(links, bindings) && links.Keys == l.Keys && Adopted(l, links, root.childDevices, root)
    {
      hide Wired, Adopted;
      ghost var cs := root.childDevices;
      NoneAdopted(l, root);
      assert cs[..0] == [];
      var i := 0;
      while i < |root.childDevices|
        invariant 0 <= i <= |cs| && root.childDevices == cs && links.Keys == l.Keys
        invariant Wired(links, bindings) && Adopted(l, links, cs[..i], root)
      {
        assert cs[i] in cs;
        AdoptNext(l, links, cs, i, root);
        SetBus(root.childDevices[i], root);
        i := i + 1;
      }
      assert cs[..i] == cs;
    }

    method SetBus(d: Device, busDevice: Device)
      requires Wired(links, bindings) && d in links
      modifies this`links, d`busDevice
      ensures Wired(links, bindings) && links == old(links)[d := Wires(busDevice, old(links)[d].children)]
    {
      d.busDevice := busDevice;
      links := links[d := Wires(busDevice, links[d].children)];
    }

    /** The new root belongs to the tree, and the old one no longer. */
    ghost method EnterRoot(l: Links, oldRoot: Device, root: Device)
      requires deviceTree == root && NoDuplicates(driverStore)
      requires TreeSound(Tree(oldRoot, bus, depth, height), l, bindings) && Wired(links, bindings)
      requires oldRoot in l && oldRoot in depth && root !in l && root !in depth && root.handle == oldRoot.handle
      requires Adopted(l, links, l[oldRoot].children, root) && oldRoot !in l[oldRoot].children
      requires root.busDevice == null && root.childDevices == l[oldRoot].children && root.driver != null
      modifies this`bus, this`depth, this`links, this`bindings
      ensures Valid() && RootLinks(l, links, oldRoot, root)
      ensures old(Bound()) && Fits(root.driver, root, driverStore) ==> Bound()
    {
      hide TreeSound, NoDuplicates, ReplaceRoot, Wired, RootLinks, Adopted, AllBound, WellFormed, Fits;
      ghost var t, b := Tree(oldRoot, bus, depth, height), bindings;
      ghost var m := (links - {oldRoot})[root := Wires(null, root.childDevices)];
      WiredLeave(links, b, {oldRoot});
      WiredEnter(links - {oldRoot}, b - {oldRoot}, root);
      SoundParts(t, l, b);
      RootEnters(t, l, links, m, b, root, root.driver, driverStore);
      ghost var n := ReplaceRoot(t, root, l[oldRoot].children);
      links, bindings := m, (b - {oldRoot})[root := root.driver];
      bus, depth := n.bus, n.depth;
    }
  }

  /** A module with one device, the root, and two drivers. */
  method LoadedModule(root: Device, rootDriver: Driver, driver: Driver) returns (m: DeviceModule)
    requires root.handle != HANDLE_NONE && root.childDevices == [] && root.busDevice == null && root.driver == null
    requires rootDriver.targetDeviceId == root.deviceId && driver != rootDriver
    ensures fresh(m) && m.Valid() && m.deviceTree == root && m.Devices() == {root}
            && m.driverStore == [rootDriver, driver]
  {
    hide TreeSound, Wired, AllBound;
    m := new DeviceModule();
    var ok := m.RegisterDeviceDriver(rootDriver, {});
    ok := m.RegisterDeviceDriver(driver, {});
    var _ := m.LoadPlaceholder(root, true);
  }

  /**
   * The device is registered below another object with the handle of the root, its driver leaves the store, and
   * it is registered below the root.
   */
  method RegisterTwice(m: DeviceModule, root: Device, stray: Device, device: Device, rootDriver: Driver, driver: Driver)
    requires m.Valid() && m.deviceTree == root && m.Devices() == {root} && m.driverStore == [rootDriver, driver]
    requires driver.targetDeviceId == device.deviceId && rootDriver.targetDeviceId != device.deviceId
    requires stray.handle == root.handle && stray != root && device != root && device != stray
    requires device.handle != HANDLE_NONE && device.handle != root.handle && device.deviceType != NONE
             && device.childDevices == []
    modifies m, root, stray, device
    ensures m.Valid() && m.driverStore == [rootDriver] && device in m.Devices() && device.driver == driver && !m.Bound()
  {
    hide TreeSound, Wired, AllBound, NoDuplicates;
    assert root in m.Devices();
    var ok := m.RegisterDevice(stray, device, true);
    assert ok && device.driver == driver && m.Devices() == {root};
    ok := m.UnregisterDeviceDriver(driver);
    assert ok && m.driverStore == [rootDriver] && device.driver == driver && m.Devices() == {root};
    ok := m.RegisterDevice(root, device, true);
  }

  /** From a new module on: calls after which a device of the tree is bound to a driver that is not in the store. */
  method StaleDriverExample(rootId: DeviceID, id: DeviceID) returns (m: DeviceModule, device: Device)
    requires rootId != id
    ensures m.Valid() && device in m.Devices() && device.driver != null && device.driver !in m.driverStore && !m.Bound()
  {
    hide TreeSound, Wired, AllBound, NoDuplicates, DeviceModule.Valid, DeviceModule.Bound;
    var rootDriver := new Driver(rootId);
    var driver := new Driver(id);
    var root := new Device(1, GENERIC, rootId);
    var stray := new Device(1, GENERIC, rootId);
    device := new Device(2, KEYBOARD, id);
    m := LoadedModule(root, rootDriver, driver);
    RegisterTwice(m, root, stray, device, rootDriver, driver);
  }
}

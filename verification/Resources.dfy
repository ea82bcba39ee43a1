/**
 The device tree as the resource allocator sees it: resource records whose numeric fields
 change, hanging off a tree of buses and devices whose shape does not.
 */
module Resources {
  import opened Alignment
  import opened Options

  /** The type bits of `flags`; exactly one is set. */
  datatype Kind = Io | Mem | Irq | Drq

  /** The fields of a resource that the allocator reads and writes. */
  datatype Rec = Rec(base: nat, size: nat, limit: nat, align: nat, gran: nat, isAssigned: bool, isStored: bool)

  /** One resource record. The `const` fields are flag bits no allocation step writes. */
  class Resource {
    const kind: Kind
    const prefetch: bool
    const fixed: bool
    const bridge: bool
    const link: nat        // the number of the link behind a bridge window
    var base: nat
    var size: nat
    var limit: nat
    var align: nat
    var gran: nat
    var isAssigned: bool
    var isStored: bool

    function Get(): Rec
      reads this
    {
      Rec(base, size, limit, align, gran, isAssigned, isStored)
    }

    constructor (kind: Kind, prefetch: bool, fixed: bool, bridge: bool, link: nat, rec: Rec)
      ensures this.kind == kind && this.prefetch == prefetch && this.fixed == fixed
      ensures this.bridge == bridge && this.link == link && Get() == rec
    {
      this.kind, this.prefetch, this.fixed, this.bridge, this.link := kind, prefetch, fixed, bridge, link;
      base, size, limit, align, gran := rec.base, rec.size, rec.limit, rec.align, rec.gran;
      isAssigned, isStored := rec.isAssigned, rec.isStored;
    }
  }

  /** The values of a set of records at one moment. */
  type Store = map<Resource, Rec>

  ghost function View(pool: set<Resource>): (st: Store)
    reads pool
    ensures st.Keys == pool
  {
    map r | r in pool :: r.Get()
  }

  const NoRec := Rec(0, 0, 0, 0, 0, false, false)

  function At(st: Store, r: Resource): Rec {
    if r in st then st[r] else NoRec
  }

  /** Every resource on the devices of a bus, and the buses behind those devices. */
  datatype Bus = Bus(children: seq<Device>)
  datatype Device = Device(enabled: bool, resources: seq<Resource>, links: seq<Bus>)

  /**
   The pair (type_mask, type): which records one allocation pass is about. `prefetch` is
   None while the mask does not contain the prefetch bit.
   */
  datatype Selector = Selector(kind: Kind, prefetch: Option<bool>)

  predicate Matches(r: Resource, sel: Selector) {
    r.kind == sel.kind && (sel.prefetch.Some? ==> r.prefetch == sel.prefetch.value)
  }

  /** The selector used behind a bridge window: the prefetch bit joins the mask. */
  function Behind(sel: Selector, window: Resource): Selector {
    Selector(sel.kind, Some(window.prefetch))
  }

  function MatchingOn(rs: seq<Resource>, sel: Selector): seq<Resource> {
    if rs == [] then [] else
      MatchingOn(rs[..|rs| - 1], sel) + (if Matches(rs[|rs| - 1], sel) then [rs[|rs| - 1]] else [])
  }

  /** The records `search_bus_resources` visits, in traversal order. */
  function Found(devs: seq<Device>, sel: Selector): seq<Resource> {
    if devs == [] then [] else
      var d := devs[|devs| - 1];
      Found(devs[..|devs| - 1], sel) + (if d.enabled then MatchingOn(d.resources, sel) else [])
  }

  /** All matching records on a bus, on disabled devices too. */
  function Level(devs: seq<Device>, sel: Selector): seq<Resource> {
    if devs == [] then [] else
      Level(devs[..|devs| - 1], sel) + MatchingOn(devs[|devs| - 1].resources, sel)
  }

  /** Records without the FIXED flag. */
  function Movable(rs: seq<Resource>): seq<Resource> {
    if rs == [] then [] else
      Movable(rs[..|rs| - 1]) + (if rs[|rs| - 1].fixed then [] else [rs[|rs| - 1]])
  }

  /** A bridge window of a device together with the bus behind it. */
  datatype Window = Window(res: Resource, bus: Bus)

  function WindowsOn(rs: seq<Resource>, links: seq<Bus>, sel: Selector): seq<Window> {
    if rs == [] then [] else
      var r := rs[|rs| - 1];
      WindowsOn(rs[..|rs| - 1], links, sel) +
      (if r.bridge && Matches(r, sel) && r.link < |links| then [Window(r, links[r.link])] else [])
  }

  /** The recursive calls both passes make on a bus, in order. */
  function Windows(devs: seq<Device>, sel: Selector): seq<Window> {
    if devs == [] then [] else
      var d := devs[|devs| - 1];
      Windows(devs[..|devs| - 1], sel) + WindowsOn(d.resources, d.links, sel)
  }

  lemma {:induction false} MatchingMembers(rs: seq<Resource>, sel: Selector)
    ensures forall r :: r in MatchingOn(rs, sel) ==> r in rs && Matches(r, sel)
    ensures forall r :: r in rs && Matches(r, sel) ==> r in MatchingOn(rs, sel)
  {
    if rs != [] {
      MatchingMembers(rs[..|rs| - 1], sel);
      assert rs == rs[..|rs| - 1] + [rs[|rs| - 1]];
    }
  }

  lemma {:induction false} LevelMatches(devs: seq<Device>, sel: Selector, r: Resource)
    requires r in Level(devs, sel)
    ensures Matches(r, sel)
  {
    MatchingMembers(devs[|devs| - 1].resources, sel);
    if r in Level(devs[..|devs| - 1], sel) {
      LevelMatches(devs[..|devs| - 1], sel, r);
    }
  }

  lemma {:induction false} WindowsOnMembers(rs: seq<Resource>, links: seq<Bus>, sel: Selector, w: Window)
    requires w in WindowsOn(rs, links, sel)
    ensures w.bus in links && w.res.bridge && w.res in MatchingOn(rs, sel)
  {
    if w in WindowsOn(rs[..|rs| - 1], links, sel) {
      WindowsOnMembers(rs[..|rs| - 1], links, sel, w);
    }
  }

  lemma {:induction false} WindowsMembers(devs: seq<Device>, sel: Selector, w: Window) returns (d: Device)
    requires w in Windows(devs, sel)
    ensures d in devs && w.bus in d.links && w.res in Level(devs, sel)
  {
    if w in Windows(devs[..|devs| - 1], sel) {
      d := WindowsMembers(devs[..|devs| - 1], sel, w);
    } else {
      d := devs[|devs| - 1];
      WindowsOnMembers(d.resources, d.links, sel, w);
    }
  }

  lemma {:induction false} WindowIsSmaller(bus: Bus, sel: Selector, w: Window)
    requires w in Windows(bus.children, sel)
    ensures w.bus < bus
  {
    var d := WindowsMembers(bus.children, sel, w);
  }

  /** Every record a pass over `bus` can touch: its own level, then the level behind each window. */
  function Walk(bus: Bus, sel: Selector): seq<Resource>
    decreases bus, 1, 0
  {
    Level(bus.children, sel) + WalkBehind(bus, Windows(bus.children, sel), sel)
  }

  function WalkBehind(bus: Bus, ws: seq<Window>, sel: Selector): seq<Resource>
    requires forall w :: w in ws ==> w in Windows(bus.children, sel)
    decreases bus, 0, |ws|
  {
    if ws == [] then [] else
      var w := ws[|ws| - 1];
      WindowIsSmaller(bus, sel, w);
      WalkBehind(bus, ws[..|ws| - 1], sel) + Walk(w.bus, Behind(sel, w.res))
  }
}

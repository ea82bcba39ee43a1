/**
 Configuring one domain from its own windows down: size everything, steer clear of fixed
 resources, place everything.
 */
module Domain {
  import opened Alignment
  import opened Options
  import opened Resources
  import opened LargestFirst
  import opened Walks
  import opened Passes
  import opened SizingPass
  import opened PlacingPass
  import opened WordPasses
  import opened Allocator
  import opened Routes
  import opened FixedPlaces
  import FR = FixedRanges

  const EVERYTHING := FR.Limits(FR.Limit(0, WORDS - 1), FR.Limit(0, WORDS - 1))

  /** `resource_max` */
  function ResourceMax(rec: Rec): nat {
    RoundDown(Wrap(rec.limit - rec.size + 1), rec.align)
  }

  /** The window still holds its size, at its top, exactly if it was large enough: otherwise the base has wrapped. */
  lemma ResourceMaxHoldsIff(rec: Rec)
    requires IsWord(rec.limit) && 0 < rec.size < WORDS
    ensures ResourceMax(rec) + rec.size <= rec.limit + 1 <==> rec.size <= rec.limit + 1
  {
    hide RoundDown, Pow2, Wrap, Aligned;
    var top := Wrap(rec.limit - rec.size + 1);
    RoundDownIsGreatestMultiple(top, rec.align);
    if rec.size <= rec.limit + 1 {
      NotWrapped(rec.limit - rec.size + 1);
    }
  }

  /** The highest aligned base from which the size still ends at the limit. */
  ghost predicate Highest(base: nat, size: nat, align: nat, limit: nat) {
    && Aligned(base, align) && base + size <= limit + 1
    && forall x: nat :: Aligned(x, align) && x + size <= limit + 1 ==> x <= base
  }

  lemma ResourceMaxIsHighest(rec: Rec)
    requires IsWord(rec.limit) && 0 < rec.size <= rec.limit + 1
    ensures Highest(ResourceMax(rec), rec.size, rec.align, rec.limit)
  {
    hide RoundDown, Pow2, Wrap, Aligned;
    var top := rec.limit - rec.size + 1;
    NotWrapped(top);
    RoundDownIsGreatestMultiple(top, rec.align);
    forall x: nat | Aligned(x, rec.align) && x + rec.size <= rec.limit + 1
      ensures x <= ResourceMax(rec)
    {
      NotAbove(x, ResourceMax(rec), rec.align, top);
    }
  }

  lemma NotAbove(x: nat, base: nat, align: nat, top: nat)
    requires Aligned(x, align) && Aligned(base, align) && x <= top < base + Pow2(align)
    ensures x <= base
  {
    hide Pow2;
    NoMultipleBetween(x, base, Pow2(align), top + 1 - Pow2(align));
  }

  lemma NotWrapped(x: nat)
    requires x < WORDS
    ensures Wrap(x) == x
  {
    DivModUnique(x, WORDS, 0, x);
  }

  function NarrowOne(l: FR.Limit, rec: Rec): FR.Limit {
    FR.Limit(Max(l.base, rec.base), Min(l.limit, rec.limit))
  }

  function Narrow(l: FR.Limits, r: Resource, rec: Rec): FR.Limits {
    if r.fixed then l
    else match r.kind
      case Mem => l.(mem := NarrowOne(l.mem, rec))
      case Io => l.(io := NarrowOne(l.io, rec))
      case _ => l
  }

  ghost function NarrowAll(l: FR.Limits, st: Store, rs: seq<Resource>): FR.Limits {
    if rs == [] then l else Narrow(NarrowAll(l, st, rs[..|rs| - 1]), rs[|rs| - 1], At(st, rs[|rs| - 1]))
  }

  /** A domain window cut down to what is left of its address space. */
  function Confine(l: FR.Limits, r: Resource, rec: Rec): Rec {
    if r.fixed || !(r.kind.Mem? || r.kind.Io?) then rec else
      var lim := if r.kind.Mem? then l.mem else l.io;
      var cut := rec.(base := Max(rec.base, lim.base), limit := Min(rec.limit, lim.limit));
      if r.kind.Mem? then cut.(base := ResourceMax(cut)) else cut
  }

  ghost function ConfineAll(l: FR.Limits, st: Store, rs: seq<Resource>): Store {
    if rs == [] then st else
      var r := rs[|rs| - 1];
      ConfineAll(l, st, rs[..|rs| - 1])[r := Confine(l, r, At(st, r))]
  }

  /** The windows left over once every fixed resource has been avoided. */
  ghost function LeftOver(st: Store, dev: Device): FR.Limits {
    FR.AvoidAll(NarrowAll(EVERYTHING, st, dev.resources), st, FR.FixedIn(dev))
  }

  lemma {:induction false} ConfineFrame(l: FR.Limits, st: Store, rs: seq<Resource>)
    requires Covers(st, rs) && NoDup(rs)
    ensures ConfineAll(l, st, rs).Keys == st.Keys
    ensures SameOutside(st, ConfineAll(l, st, rs), rs)
    ensures forall r :: r in rs ==> At(ConfineAll(l, st, rs), r) == Confine(l, r, At(st, r))
  {
    if rs != [] {
      var n := |rs| - 1;
      ConfineFrame(l, st, rs[..n]);
      assert rs[n] in rs;
      forall r | r in rs
        ensures At(ConfineAll(l, st, rs), r) == Confine(l, r, At(st, r))
      {
        assert r == rs[n] || r in rs[..n];
      }
    }
  }

  method AvoidFixedResources(dev: Device, ghost pool: set<Resource>)
    requires NoDup(dev.resources) && forall r :: r in FR.RecordsIn(dev) ==> r in pool
    modifies pool
    ensures View(pool) == ConfineAll(LeftOver(old(View(pool)), dev), old(View(pool)), dev.resources)
  {
    hide ConfineAll, NarrowAll;
    ghost var st := View(pool);
    var limits := OwnWindows(dev.resources, pool);
    assert forall r :: r in FR.RecordsIn(dev) ==> At(st, r) == r.Get();
    FR.ConstrainResources(dev, limits, st);
    Apply(dev, limits.Get(), pool);
  }

  /** The limits of the windows of the domain itself. */
  method OwnWindows(rs: seq<Resource>, ghost pool: set<Resource>) returns (limits: FR.Constraints)
    requires forall r :: r in rs ==> r in pool
    ensures fresh(limits) && limits.Get() == NarrowAll(EVERYTHING, View(pool), rs)
  {
    ghost var st := View(pool);
    limits := new FR.Constraints();
    for i := 0 to |rs|
      invariant fresh(limits) && View(pool) == st
      invariant limits.Get() == NarrowAll(EVERYTHING, st, rs[..i])
    {
      var res := rs[i];
      assert At(st, res) == res.Get();
      assert rs[..i + 1][..i] == rs[..i];
      if !res.fixed {
        if res.kind == Mem {
          limits.mem := NarrowOne(limits.mem, res.Get());
        } else if res.kind == Io {
          limits.io := NarrowOne(limits.io, res.Get());
        }
      }
    }
    assert rs[..|rs|] == rs;
  }

  /** Update the windows of the device with the limits found. */
  method Apply(dev: Device, l: FR.Limits, ghost pool: set<Resource>)
    requires NoDup(dev.resources) && forall r :: r in dev.resources ==> r in pool
    modifies pool
    ensures View(pool) == ConfineAll(l, old(View(pool)), dev.resources)
  {
    hide Confine;
    ghost var st := View(pool);
    for i := 0 to |dev.resources|
      invariant View(pool) == ConfineAll(l, st, dev.resources[..i])
    {
      ConfineStep(l, st, dev.resources, i);
      assert At(View(pool), dev.resources[i]) == dev.resources[i].Get();
      ApplyOne(dev.resources[i], l, pool);
    }
    assert dev.resources[..|dev.resources|] == dev.resources;
  }

  lemma ConfineStep(l: FR.Limits, st: Store, rs: seq<Resource>, i: nat)
    requires NoDup(rs) && Covers(st, rs) && i < |rs|
    ensures var v := ConfineAll(l, st, rs[..i]);
            && At(v, rs[i]) == At(st, rs[i]) && rs[i] in v
            && ConfineAll(l, st, rs[..i + 1]) == v[rs[i] := Confine(l, rs[i], At(v, rs[i]))]
  {
    hide Confine;
    ConfineFrame(l, st, rs[..i]);
    assert rs[..i + 1][..i] == rs[..i] && rs[i] !in rs[..i];
  }

  method ApplyOne(res: Resource, l: FR.Limits, ghost pool: set<Resource>)
    requires res in pool
    modifies res
    ensures View(pool) == old(View(pool))[res := Confine(l, res, old(res.Get()))]
  {
    hide ResourceMax;
    if res.fixed || (res.kind != Mem && res.kind != Io) {
      return;
    }
    var lim := if res.kind == Mem then l.mem else l.io;
    ghost var st := View(pool);
    CutTo(res, lim, pool);
    if res.kind == Mem {
      ghost var cut := res.Get();
      SetBase(res, ResourceMax(res.Get()), pool);
      Overwrite(st, res, cut, res.Get());
    }
  }

  method CutTo(res: Resource, lim: FR.Limit, ghost pool: set<Resource>)
    requires res in pool
    modifies res
    ensures res.Get() == old(res.Get()).(base := Max(old(res.base), lim.base), limit := Min(old(res.limit), lim.limit))
    ensures View(pool) == old(View(pool))[res := res.Get()]
  {
    if lim.base > res.base {
      res.base := lim.base;
    }
    if res.limit > lim.limit {
      res.limit := lim.limit;
    }
  }

  // ----- The whole configuration -----

  predicate IsWindow(r: Resource) {
    !r.fixed && (r.kind.Mem? || r.kind.Io?)
  }

  function Whole(r: Resource): Selector {
    Selector(r.kind, None)
  }

  /** Every domain window walks its bus without meeting a record twice or meeting a window of the domain. */
  ghost predicate DomainOk(dev: Device) {
    && NoDup(dev.resources) && dev.links != [] && Linked(dev.links[0])
    && forall r, w :: r in dev.resources && IsWindow(r) && w in dev.resources ==>
         NoDup(Walk(dev.links[0], Whole(r))) && w !in Walk(dev.links[0], Whole(r))
  }

  lemma {:induction false} DomainWindow(dev: Device, r: Resource)
    requires DomainOk(dev) && r in dev.resources && IsWindow(r)
    ensures Separate(dev.links[0], r, Whole(r))
  {
  }

  ghost function SizeWindows(st: Store, dev: Device, rs: seq<Resource>): Store
    requires dev.links != []
  {
    if rs == [] then st else
      var r := rs[|rs| - 1];
      var st1 := SizeWindows(st, dev, rs[..|rs| - 1]);
      if IsWindow(r) then SizeBus(Words, st1, dev.links[0], r, Whole(r)) else st1
  }

  ghost function PlaceWindows(st: Store, dev: Device, rs: seq<Resource>): Store
    requires dev.links != []
  {
    if rs == [] then st else
      var r := rs[|rs| - 1];
      var st1 := PlaceWindows(st, dev, rs[..|rs| - 1]);
      if IsWindow(r) then PlaceBus(Words, st1, dev.links[0], r, Whole(r)) else st1
  }

  ghost function Confined(st: Store, dev: Device): Store {
    ConfineAll(LeftOver(st, dev), st, dev.resources)
  }

  /** The part of `dev_configure` that deals with one domain. */
  method ConfigureDomain(dev: Device, ghost pool: set<Resource>)
    requires DomainOk(dev) && InPool(dev, pool)
    modifies pool
    ensures var st1 := SizeWindows(old(View(pool)), dev, dev.resources);
            View(pool) == PlaceWindows(Confined(st1, dev), dev, dev.resources)
    ensures forall m, top :: m in dev.resources && Ready(old(View(pool)), dev, m, top) ==>
              Configured(old(View(pool)), View(pool), dev, m)
  {
    hide SizeWindows, PlaceWindows, ConfineAll, LeftOver, Ready, Configured;
    ghost var st0 := View(pool);
    ComputeWindows(dev, pool);
    AvoidFixedResources(dev, pool);
    AllocateWindows(dev, pool);
    forall m, top | m in dev.resources && Ready(st0, dev, m, top)
      ensures Configured(st0, View(pool), dev, m)
    {
      DomainIsConfigured(st0, dev, m, top);
    }
  }

  ghost predicate InPool(dev: Device, pool: set<Resource>)
    requires dev.links != []
  {
    && (forall r :: r in FR.RecordsIn(dev) ==> r in pool)
    && (forall r, x :: r in dev.resources && x in Walk(dev.links[0], Whole(r)) ==> x in pool)
  }

  lemma WindowReady(dev: Device, i: nat, pool: set<Resource>)
    requires DomainOk(dev) && InPool(dev, pool) && i < |dev.resources|
    ensures dev.resources[i] in pool
    ensures IsWindow(dev.resources[i]) ==>
              && Linked(dev.links[0]) && Separate(dev.links[0], dev.resources[i], Whole(dev.resources[i]))
              && forall x :: x in Walk(dev.links[0], Whole(dev.resources[i])) ==> x in pool
  {
    assert dev.resources[i] in dev.resources && dev.resources[i] in FR.RecordsIn(dev);
  }

  method ComputeWindows(dev: Device, ghost pool: set<Resource>)
    requires DomainOk(dev) && InPool(dev, pool)
    modifies pool
    ensures View(pool) == SizeWindows(old(View(pool)), dev, dev.resources)
  {
    hide Walk, SizeBus, Whole, Separate, InPool, Linked;
    ghost var st0 := View(pool);
    var rs := dev.resources;
    for i := 0 to |rs|
      invariant View(pool) == SizeWindows(st0, dev, rs[..i])
    {
      assert rs[..i + 1][..i] == rs[..i];
      WindowReady(dev, i, pool);
      if !rs[i].fixed && (rs[i].kind == Mem || rs[i].kind == Io) {
        ComputeResources(dev.links[0], rs[i], Whole(rs[i]), pool);
      }
    }
    assert rs[..|rs|] == rs;
  }

  method AllocateWindows(dev: Device, ghost pool: set<Resource>)
    requires DomainOk(dev) && InPool(dev, pool)
    modifies pool
    ensures View(pool) == PlaceWindows(old(View(pool)), dev, dev.resources)
  {
    hide Walk, PlaceBus, Whole, Separate, InPool, Linked;
    ghost var st2 := View(pool);
    var rs := dev.resources;
    for i := 0 to |rs|
      invariant View(pool) == PlaceWindows(st2, dev, rs[..i])
    {
      assert rs[..i + 1][..i] == rs[..i];
      WindowReady(dev, i, pool);
      if !rs[i].fixed && (rs[i].kind == Mem || rs[i].kind == Io) {
        AllocateResources(dev.links[0], rs[i], Whole(rs[i]), pool);
      }
    }
    assert rs[..|rs|] == rs;
  }

  // ----- End to end -----

  lemma {:induction false} WalkMatches(bus: Bus, sel: Selector, r: Resource)
    requires NoDup(Walk(bus, sel)) && r in Walk(bus, sel)
    ensures r.kind == sel.kind
    decreases bus
  {
    var ws := Windows(bus.children, sel);
    if r in Level(bus.children, sel) {
      LevelMatches(bus.children, sel, r);
    } else {
      WalkParts(bus, sel);
      WalkBehindParts(bus, ws, sel);
      var i :| 0 <= i < |ws| && r in Beyond(sel, ws[i]);
      assert ws[i] in ws;
      WindowSeparate(bus, sel, ws[i]);
      WalkMatches(ws[i].bus, Behind(sel, ws[i].res), r);
    }
  }

  /** The window m and everything behind it. */
  ghost function Own(dev: Device, m: Resource): seq<Resource>
    requires dev.links != []
  {
    [m] + Walk(dev.links[0], Whole(m))
  }

  lemma {:induction false} OtherKindsApart(dev: Device, m: Resource, r: Resource, x: Resource)
    requires DomainOk(dev) && m in dev.resources && IsWindow(m) && r in dev.resources && IsWindow(r)
    requires r.kind != m.kind && x in Own(dev, m)
    ensures x !in Own(dev, r)
  {
    var bus := dev.links[0];
    if x in Walk(bus, Whole(m)) {
      WalkMatches(bus, Whole(m), x);
    }
    if x in Walk(bus, Whole(r)) {
      WalkMatches(bus, Whole(r), x);
    }
  }

  /** What the theorem below assumes of a domain: well formed, known to the store, one window of m's kind. */
  ghost predicate Configurable(st: Store, dev: Device, m: Resource) {
    && DomainOk(dev) && m in dev.resources && IsWindow(m)
    && (forall r :: r in dev.resources && IsWindow(r) && r != m ==> r.kind != m.kind)
    && Covers(st, dev.resources)
    && (forall r :: r in dev.resources && IsWindow(r) ==> Covers(st, Walk(dev.links[0], Whole(r))))
  }

  lemma {:induction false} SizeWindowsOthers(st0: Store, dev: Device, m: Resource, n: nat)
    requires Configurable(st0, dev, m) && n <= |dev.resources|
    ensures var st := SizeWindows(st0, dev, dev.resources[..n]);
            st.Keys == st0.Keys && (m !in dev.resources[..n] ==> SameOn(st0, st, Own(dev, m)))
  {
    hide SizeBus, Walk;
    var rs, bus := dev.resources, dev.links[0];
    if n > 0 {
      SizeWindowsOthers(st0, dev, m, n - 1);
      assert rs[..n][..n - 1] == rs[..n - 1];
      var mid, r := SizeWindows(st0, dev, rs[..n - 1]), rs[n - 1];
      assert r in rs;
      if IsWindow(r) {
        DomainWindow(dev, r);
        SizeFrame(Words, mid, bus, r, Whole(r));
        if m !in rs[..n] {
          assert r == rs[..n][n - 1];
          forall x | x in Own(dev, m)
            ensures At(SizeWindows(st0, dev, rs[..n]), x) == At(st0, x)
          {
            OtherKindsApart(dev, m, r, x);
            assert x in mid;
          }
        }
      }
    }
  }

  /** Sizing all windows of the domain sizes m: windows of other kinds do not interfere. */
  lemma SizeWindowsStep(st: Store, dev: Device, rs: seq<Resource>)
    requires dev.links != [] && rs != []
    ensures var r, st1 := rs[|rs| - 1], SizeWindows(st, dev, rs[..|rs| - 1]);
            SizeWindows(st, dev, rs) == if IsWindow(r) then SizeBus(Words, st1, dev.links[0], r, Whole(r)) else st1
  {
    hide SizeBus;
  }

  lemma {:induction false} SizeWindowsSizes(st0: Store, dev: Device, m: Resource, n: nat)
    requires Configurable(st0, dev, m) && n <= |dev.resources| && m in dev.resources[..n]
    requires At(st0, m).base == 0 && Fresh(st0, dev.links[0], Whole(m))
    ensures Sized(Words, SizeWindows(st0, dev, dev.resources[..n]), dev.links[0], m, Whole(m))
  {
    hide SizeBus, SizeWindows, Walk, Sized, Fresh;
    var rs, bus := dev.resources, dev.links[0];
    assert rs[..n][..n - 1] == rs[..n - 1] && rs[..n] == rs[..n - 1] + [rs[n - 1]];
    var mid, r := SizeWindows(st0, dev, rs[..n - 1]), rs[n - 1];
    var st := SizeWindows(st0, dev, rs[..n]);
    SizeWindowsStep(st0, dev, rs[..n]);
    SizeWindowsOthers(st0, dev, m, n - 1);
    assert r in rs;
    if r == m {
      assert m !in rs[..n - 1];
      assert m in Own(dev, m) && SameOn(st0, mid, Walk(bus, Whole(m)));
      FreshFrame(st0, mid, bus, Whole(m));
      DomainWindow(dev, m);
      SizingEstablishes(Words, mid, bus, m, Whole(m));
    } else {
      SizeWindowsSizes(st0, dev, m, n - 1);
      if IsWindow(r) {
        DomainWindow(dev, r);
        SizeFrame(Words, mid, bus, r, Whole(r));
        forall x | x in Own(dev, m) ensures At(st, x) == At(mid, x) {
          OtherKindsApart(dev, m, r, x);
          assert x in mid;
        }
        assert m in Own(dev, m);
        SizedFrame(Words, mid, st, bus, m, Whole(m));
      }
    }
  }

  lemma {:induction false} PlaceWindowsOthers(st: Store, dev: Device, m: Resource, n: nat)
    requires Configurable(st, dev, m) && n <= |dev.resources| && m !in dev.resources[..n]
    ensures PlaceWindows(st, dev, dev.resources[..n]).Keys == st.Keys
    ensures SameOn(st, PlaceWindows(st, dev, dev.resources[..n]), Own(dev, m))
  {
    var rs, bus := dev.resources, dev.links[0];
    if n > 0 {
      assert rs[..n][..n - 1] == rs[..n - 1] && rs[..n] == rs[..n - 1] + [rs[n - 1]];
      PlaceWindowsOthers(st, dev, m, n - 1);
      var mid, r := PlaceWindows(st, dev, rs[..n - 1]), rs[n - 1];
      assert r in rs && r in rs[..n];
      if IsWindow(r) {
        PlaceWindowApart(mid, dev, m, r);
      }
    }
  }

  lemma {:induction false} PlaceWindowApart(mid: Store, dev: Device, m: Resource, r: Resource)
    requires Configurable(mid, dev, m) && r in dev.resources && IsWindow(r) && r != m
    ensures PlaceBus(Words, mid, dev.links[0], r, Whole(r)).Keys == mid.Keys
    ensures SameOn(mid, PlaceBus(Words, mid, dev.links[0], r, Whole(r)), Own(dev, m))
  {
    var bus := dev.links[0];
    DomainWindow(dev, r);
    PlaceFrame(Words, mid, bus, r, Whole(r));
    forall x | x in Own(dev, m) ensures At(PlaceBus(Words, mid, bus, r, Whole(r)), x) == At(mid, x) {
      OtherKindsApart(dev, m, r, x);
      assert x in mid;
    }
  }

  /** P is what the placing pass places in window b, kept until the domain is done. */
  ghost predicate PlacedFor(st: Store, st': Store, dev: Device, m: Resource, P: set<Resource>)
    requires dev.links != []
  {
    && WellPlaced(st', dev.links[0], Whole(m), P, At(st, m).base, At(st, m).limit)
    && At(st', m) == At(st, m).(isAssigned := true)
    && forall r :: r in Walk(dev.links[0], Whole(m)) && Wants(st, dev.links[0], Whole(m), r) ==> r in P
  }

  lemma {:induction false} WellPlacedFrame(a: Store, b: Store, bus: Bus, sel: Selector, P: set<Resource>, lo: nat,
                                           hi: nat)
    requires WellPlaced(a, bus, sel, P, lo, hi) && SameOn(a, b, Walk(bus, sel))
    ensures WellPlaced(b, bus, sel, P, lo, hi)
  {
    forall q, r | q in P && r in P && q != r
      ensures WellPlacedPair(b, bus, sel, q, r)
    {
      assert WellPlacedPair(a, bus, sel, q, r);
      assert q in Walk(bus, sel) && r in Walk(bus, sel);
    }
  }

  lemma {:induction false} PlaceWindowsPlaces(st: Store, dev: Device, m: Resource, n: nat, top: nat)
    returns (P: set<Resource>)
    requires Configurable(st, dev, m) && n <= |dev.resources| && m in dev.resources[..n]
    requires Placeable(st, dev, m, top)
    ensures PlacedFor(st, PlaceWindows(st, dev, dev.resources[..n]), dev, m, P)
    ensures PlaceWindows(st, dev, dev.resources[..n]).Keys == st.Keys
  {
    hide Walk, PlaceBus, Wants, Placeable, WellPlaced;
    var rs, bus := dev.resources, dev.links[0];
    assert rs[..n][..n - 1] == rs[..n - 1] && rs[..n] == rs[..n - 1] + [rs[n - 1]];
    var mid, r := PlaceWindows(st, dev, rs[..n - 1]), rs[n - 1];
    var st' := PlaceWindows(st, dev, rs[..n]);
    assert r in rs;
    if r == m {
      assert m !in rs[..n - 1];
      PlaceWindowsOthers(st, dev, m, n - 1);
      P := PlaceOwn(st, mid, dev, m, top);
    } else {
      P := PlaceWindowsPlaces(st, dev, m, n - 1, top);
      if IsWindow(r) {
        PlaceWindowApart(mid, dev, m, r);
        WellPlacedFrame(mid, st', bus, Whole(m), P, At(st, m).base, At(st, m).limit);
      }
    }
  }

  lemma {:induction false} PlaceOwn(st: Store, mid: Store, dev: Device, m: Resource, top: nat)
    returns (P: set<Resource>)
    requires Configurable(st, dev, m) && mid.Keys == st.Keys && SameOn(st, mid, Own(dev, m))
    requires Placeable(st, dev, m, top)
    ensures PlacedFor(st, PlaceBus(Words, mid, dev.links[0], m, Whole(m)), dev, m, P)
    ensures PlaceBus(Words, mid, dev.links[0], m, Whole(m)).Keys == st.Keys
  {
    var bus, sel := dev.links[0], Whole(m);
    assert m in Own(dev, m) && SameOn(st, mid, Walk(bus, sel));
    DomainWindow(dev, m);
    PlaceFrame(Words, mid, bus, m, sel);
    SizedFrame(Integers, st, mid, bus, m, sel);
    LowFrame(st, mid, bus, sel, top);
    PlaceAgrees(mid, bus, m, sel, top);
    PlacingIsSafe(mid, bus, m, sel);
    P := PlacedIn(mid, bus, m, sel);
    hide Walk, PlaceBus, Wants, Sized, WellPlaced, Low, PlacedIn;
    forall x | x in Walk(bus, sel) && Wants(st, bus, sel, x) ensures x in P {
      WantsFrame(st, mid, bus, sel, x);
      PlacingIsComplete(mid, bus, m, sel, x);
    }
  }

  /** What the placing pass needs of a window: sized for what is behind it, with room for it, and no overflow. */
  ghost predicate Placeable(st: Store, dev: Device, m: Resource, top: nat)
    requires dev.links != []
  {
    && Sized(Integers, st, dev.links[0], m, Whole(m)) && Roomy(At(st, m), Whole(m))
    && LowWindow(At(st, m), top) && Low(st, dev.links[0], Whole(m), top)
  }

  lemma {:induction false} ConfinedFrame(st1: Store, dev: Device, m: Resource)
    requires Configurable(st1, dev, m)
    ensures var st2 := Confined(st1, dev);
            && Configurable(st2, dev, m) && SameOn(st1, st2, Walk(dev.links[0], Whole(m)))
            && At(st2, m) == Confine(LeftOver(st1, dev), m, At(st1, m))
            && KeptByPlacing(At(st1, m), At(st2, m)) && At(st2, m).limit <= FR.Share(LeftOver(st1, dev), m.kind).limit
  {
    ConfineFrame(LeftOver(st1, dev), st1, dev.resources);
    forall x | x in Walk(dev.links[0], Whole(m))
      ensures At(Confined(st1, dev), x) == At(st1, x)
    {
      assert x !in dev.resources;
    }
  }

  /**
   A domain window ends where what is left of it ends. An I/O window begins where what is left
   begins, a memory window that still holds its size as high as it can.
   */
  lemma {:induction false} ConfinedByNumbers(st1: Store, dev: Device, m: Resource)
    requires Configurable(st1, dev, m) && IsWord(At(st1, m).limit) && 0 < At(st1, m).size
    ensures var w, rec, left := At(Confined(st1, dev), m), At(st1, m), FR.Share(LeftOver(st1, dev), m.kind);
            && w == rec.(base := w.base, limit := Min(rec.limit, left.limit))
            && (m.kind.Io? ==> w.base == Max(rec.base, left.base))
            && (m.kind.Mem? && rec.size <= w.limit + 1 ==> Highest(w.base, rec.size, rec.align, w.limit))
  {
    hide LeftOver, Confined, Highest, ResourceMax;
    ConfinedFrame(st1, dev, m);
    var left := FR.Share(LeftOver(st1, dev), m.kind);
    var cut := At(st1, m).(base := Max(At(st1, m).base, left.base), limit := Min(At(st1, m).limit, left.limit));
    if m.kind.Mem? && cut.size <= cut.limit + 1 {
      ResourceMaxIsHighest(cut);
    }
  }

  /** The windows are words, and no step of avoiding fixed resources of m's kind runs off. */
  ghost predicate Avoidable(st1: Store, dev: Device, m: Resource) {
    && (forall r :: r in dev.resources ==> IsWord(At(st1, r).base) && IsWord(At(st1, r).limit))
    && FR.StaysOn(NarrowAll(EVERYTHING, st1, dev.resources), st1, FR.FixedIn(dev), m.kind)
  }

  lemma {:induction false} NarrowAllWords(st: Store, rs: seq<Resource>)
    requires forall r :: r in rs ==> IsWord(At(st, r).base) && IsWord(At(st, r).limit)
    ensures FR.WordLimits(NarrowAll(EVERYTHING, st, rs))
  {
    if rs != [] {
      assert rs[|rs| - 1] in rs;
      NarrowAllWords(st, rs[..|rs| - 1]);
    }
  }

  lemma {:induction false} ApartFromFixed(l: FR.Limit, r: Rec, f: Rec)
    requires f.size > 0 && r.size > 0 && FR.Excludes(l, f)
    requires l.base <= r.base && r.base + r.size - 1 <= l.limit
    ensures Apart(r, f)
  {
    FR.ExcludesByBounds(l, f);
  }

  lemma {:induction false} LeftOverClear(st1: Store, dev: Device, m: Resource, f: Resource)
    requires Avoidable(st1, dev, m) && IsWindow(m)
    requires f in FR.FixedIn(dev) && f.kind == m.kind && At(st1, f).size > 0
    ensures FR.Excludes(FR.Share(LeftOver(st1, dev), m.kind), At(st1, f))
  {
    NarrowAllWords(st1, dev.resources);
    FR.AvoidAllClears(NarrowAll(EVERYTHING, st1, dev.resources), st1, FR.FixedIn(dev), m.kind);
  }

  /** The window m as it is handed to the placing pass has room in its share of the left-over address space. */
  ghost predicate HasRoom(st1: Store, dev: Device, m: Resource, top: nat)
    requires dev.links != []
  {
    var st2 := Confined(st1, dev);
    && Roomy(At(st2, m), Whole(m)) && FR.Share(LeftOver(st1, dev), m.kind).base <= At(st2, m).base
    && LowWindow(At(st2, m), top) && Low(st2, dev.links[0], Whole(m), top)
  }

  /**
   All that is asked of a domain: fresh windows, totals that are words, fixed ranges that can be
   avoided, and room.
   */
  ghost predicate Ready(st0: Store, dev: Device, m: Resource, top: nat) {
    && Configurable(st0, dev, m) && At(st0, m).base == 0 && Fresh(st0, dev.links[0], Whole(m))
    && var st1 := SizeWindows(st0, dev, dev.resources);
       Tame(st1, dev.links[0], m, Whole(m)) && Avoidable(st1, dev, m) && HasRoom(st1, dev, m, top)
  }

  /** Ranges are nested as their records stand behind each other, and do not meet otherwise. */
  ghost predicate NestedOrApart(st: Store, bus: Bus, q: Resource, r: Resource) {
    if Under(bus, q, r) then Inside(At(st, r), At(st, q))
    else if Under(bus, r, q) then Inside(At(st, q), At(st, r))
    else Apart(At(st, q), At(st, r))
  }

  /** r has an aligned address in the window, clear of the fixed resources of its kind on enabled devices. */
  ghost predicate Served(st1: Store, st3: Store, dev: Device, window: Rec, r: Resource) {
    && Settled(At(st3, r)) && window.base <= At(st3, r).base && At(st3, r).limit <= window.limit
    && forall f :: f in st1 && f.kind == r.kind && HoldsFixed(dev, f) && At(st1, f).size > 0 ==>
         Apart(At(st3, r), At(st1, f))
  }

  /**
   The window stays where it was confined to. Every record of its kind that asks for an address has
   one, and these are nested along the bus tree or disjoint from each other. Who asks, what lies
   behind what, and which resources are fixed is told by where records stand.
   */
  ghost predicate Configured(st0: Store, st3: Store, dev: Device, m: Resource)
    requires dev.links != []
  {
    var st1, bus := SizeWindows(st0, dev, dev.resources), dev.links[0];
    var window := At(Confined(st1, dev), m);
    && At(st3, m) == window.(isAssigned := true)
    && (forall r :: r in st1 && r.kind == m.kind && Asks(st1, bus, r) ==> Served(st1, st3, dev, window, r))
    && (forall q, r ::
          q in st1 && r in st1 && q.kind == m.kind && r.kind == m.kind && q != r
          && Asks(st1, bus, q) && Asks(st1, bus, r)
          ==> NestedOrApart(st3, bus, q, r))
  }

  /** Whoever asks for an address is behind the window for its kind, and wants one there. */
  lemma AskingWants(st1: Store, dev: Device, m: Resource, r: Resource)
    requires Configurable(st1, dev, m) && r.kind == m.kind && Asks(st1, dev.links[0], r)
    ensures r in Walk(dev.links[0], Whole(m)) && Wants(Confined(st1, dev), dev.links[0], Whole(m), r)
  {
    var bus := dev.links[0];
    DomainWindow(dev, m);
    ConfinedFrame(st1, dev, m);
    WalkIff(bus, Whole(m), r);
    hide Walk, Wants, Confined, Configurable, LeadsTo, Enabled, Free;
    var route :| LeadsTo(bus, route, r) && Enabled(bus, route) && Free(bus, route);
    assert Asks(Confined(st1, dev), bus, r);
    WantsIff(Confined(st1, dev), bus, Whole(m), r);
  }

  lemma PairIsNested(st: Store, dev: Device, m: Resource, q: Resource, r: Resource)
    requires DomainOk(dev) && m in dev.resources && IsWindow(m) && q.kind == m.kind && r.kind == m.kind
    requires WellPlacedPair(st, dev.links[0], Whole(m), q, r)
    ensures NestedOrApart(st, dev.links[0], q, r)
  {
    DomainWindow(dev, m);
    hide Walk, Beneath, Under, DomainOk;
    BeneathIff(dev.links[0], Whole(m), q, r);
    BeneathIff(dev.links[0], Whole(m), r, q);
  }

  lemma {:induction false} ReadyIsPlaceable(st0: Store, dev: Device, m: Resource, top: nat)
    requires Ready(st0, dev, m, top)
    ensures var st2 := Confined(SizeWindows(st0, dev, dev.resources), dev);
            Configurable(st2, dev, m) && Placeable(st2, dev, m, top)
  {
    var rs, bus, sel := dev.resources, dev.links[0], Whole(m);
    assert rs[..|rs|] == rs;
    hide SizeWindows, Sized, Tame, Low, Walk, LeftOver, Fresh, ConfineAll;
    SizeWindowsOthers(st0, dev, m, |rs|);
    SizeWindowsSizes(st0, dev, m, |rs|);
    var st1 := SizeWindows(st0, dev, rs);
    SizedAgrees(st1, bus, m, sel);
    ConfinedFrame(st1, dev, m);
    DomainWindow(dev, m);
    SizedFrame(Integers, st1, Confined(st1, dev), bus, m, sel);
  }

  /** What was placed for m, with the end of the left-over window above it, is what the domain promises. */
  lemma {:induction false} PlacedIsConfigured(st0: Store, st3: Store, dev: Device, m: Resource, P: set<Resource>)
    requires dev.links != []
    requires var st1 := SizeWindows(st0, dev, dev.resources);
             && Configurable(st1, dev, m)
             && Avoidable(st1, dev, m) && PlacedFor(Confined(st1, dev), st3, dev, m, P)
             && FR.Share(LeftOver(st1, dev), m.kind).base <= At(Confined(st1, dev), m).base
             && At(Confined(st1, dev), m).limit <= FR.Share(LeftOver(st1, dev), m.kind).limit
    ensures Configured(st0, st3, dev, m)
  {
    hide SizeWindows, Confined, LeftOver, Walk, Wants, WellPlacedPair, Asks, NestedOrApart, HoldsFixed, Avoidable;
    hide Configurable;
    var st1, bus := SizeWindows(st0, dev, dev.resources), dev.links[0];
    forall r | r in st1 && r.kind == m.kind && Asks(st1, bus, r)
      ensures r in P && Served(st1, st3, dev, At(Confined(st1, dev), m), r)
    {
      AskingWants(st1, dev, m, r);
      forall f | f in st1 && f.kind == m.kind && HoldsFixed(dev, f) && At(st1, f).size > 0
        ensures Apart(At(st3, r), At(st1, f))
      {
        FixedClear(st1, dev, m, At(st3, r), f);
      }
    }
    forall q, r | q in P && r in P && q.kind == m.kind && r.kind == m.kind && q != r
      ensures NestedOrApart(st3, bus, q, r)
    {
      WindowOk(st1, dev, m);
      PairIsNested(st3, dev, m, q, r);
    }
  }

  lemma WindowOk(st: Store, dev: Device, m: Resource)
    requires Configurable(st, dev, m)
    ensures DomainOk(dev) && m in dev.resources && IsWindow(m)
  {
  }

  /** What lies in the left-over window is clear of every fixed resource. */
  lemma FixedClear(st1: Store, dev: Device, m: Resource, rec: Rec, f: Resource)
    requires Configurable(st1, dev, m) && Avoidable(st1, dev, m)
    requires HoldsFixed(dev, f) && f.kind == m.kind && At(st1, f).size > 0
    requires rec.size > 0 && FR.Share(LeftOver(st1, dev), m.kind).base <= rec.base
    requires rec.base + rec.size - 1 <= FR.Share(LeftOver(st1, dev), m.kind).limit
    ensures Apart(rec, At(st1, f))
  {
    hide LeftOver, Avoidable;
    FixedInIff(dev, f);
    LeftOverClear(st1, dev, m, f);
    ApartFromFixed(FR.Share(LeftOver(st1, dev), m.kind), rec, At(st1, f));
  }

  lemma {:induction false} DomainIsConfigured(st0: Store, dev: Device, m: Resource, top: nat)
    requires Ready(st0, dev, m, top)
    ensures Configured(st0, PlaceWindows(Confined(SizeWindows(st0, dev, dev.resources), dev), dev, dev.resources),
            dev, m)
  {
    var rs := dev.resources;
    assert rs[..|rs|] == rs;
    hide SizeWindows, PlaceWindows, Placeable, ConfineAll, LeftOver, PlacedFor, Configured, Fresh, Tame;
    var st1 := SizeWindows(st0, dev, rs);
    SizeWindowsOthers(st0, dev, m, |rs|);
    ConfinedFrame(st1, dev, m);
    ReadyIsPlaceable(st0, dev, m, top);
    var P := PlaceWindowsPlaces(Confined(st1, dev), dev, m, |rs|, top);
    PlacedIsConfigured(st0, PlaceWindows(Confined(st1, dev), dev, rs), dev, m, P);
  }

  // ----- The premises on the numbers themselves -----

  lemma NarrowStep(st: Store, rs: seq<Resource>, n: nat)
    requires 0 < n <= |rs|
    ensures NarrowAll(EVERYTHING, st, rs[..n]) ==
            Narrow(NarrowAll(EVERYTHING, st, rs[..n - 1]), rs[n - 1], At(st, rs[n - 1]))
  {
    hide Narrow;
    assert rs[..n][..n - 1] == rs[..n - 1];
  }

  lemma {:induction false} NarrowedToWindow(st: Store, dev: Device, m: Resource, n: nat)
    requires Configurable(st, dev, m) && n <= |dev.resources| && IsWord(At(st, m).base) && IsWord(At(st, m).limit)
    ensures FR.Share(NarrowAll(EVERYTHING, st, dev.resources[..n]), m.kind) ==
            if m in dev.resources[..n] then FR.Limit(At(st, m).base, At(st, m).limit) else FR.Limit(0, WORDS - 1)
  {
    var rs := dev.resources;
    if n > 0 {
      NarrowStep(st, rs, n);
      hide NarrowAll;
      assert rs[..n] == rs[..n - 1] + [rs[n - 1]] && rs[n - 1] in rs;
      NarrowedToWindow(st, dev, m, n - 1);
      if rs[n - 1] == m {
        assert m !in rs[..n - 1];
      }
    }
  }

  /** Fixed ranges away from the ends of a window below 2^63 can all be avoided, whatever they are. */
  lemma {:induction false} RangesAreAvoidable(st1: Store, dev: Device, m: Resource, gap: nat)
    requires Configurable(st1, dev, m)
    requires forall r :: r in dev.resources ==> IsWord(At(st1, r).base) && IsWord(At(st1, r).limit)
    requires gap <= At(st1, m).limit < WORDS / 2
    requires forall f :: f in FR.FixedIn(dev) && f.kind == m.kind && At(st1, f).size > 0 ==>
               FR.AwayFromEnds(At(st1, f), gap)
    ensures Avoidable(st1, dev, m)
  {
    assert dev.resources[..|dev.resources|] == dev.resources;
    NarrowedToWindow(st1, dev, m, |dev.resources|);
    FR.RangesStayOn(NarrowAll(EVERYTHING, st1, dev.resources), st1, FR.FixedIn(dev), m.kind, gap);
  }

  /**
   What is asked of the left-over share of a window, in numbers. A memory window moves to its top
   and has to hold its size, rounded; an I/O window stays at its bottom, which has to be aligned.
   */
  predicate RoomInShare(kind: Kind, rec: Rec, share: FR.Limit) {
    var limit, base := Min(rec.limit, share.limit), Max(rec.base, share.base);
    if kind.Mem? then 0 < rec.size && share.base + rec.size + Pow2(rec.align) <= limit + 2
    else Aligned(base, rec.align) && base % 0x400 == 0 && base + rec.size <= limit + 1
  }

  lemma WindowIsRoomy(l: FR.Limits, m: Resource, rec: Rec)
    requires IsWindow(m) && IsWord(rec.limit) && RoomInShare(m.kind, rec, FR.Share(l, m.kind))
    ensures Roomy(Confine(l, m, rec), Whole(m))
    ensures FR.Share(l, m.kind).base <= Confine(l, m, rec).base <= Min(rec.limit, FR.Share(l, m.kind).limit) + 1
    ensures Confine(l, m, rec).limit == Min(rec.limit, FR.Share(l, m.kind).limit)
  {
    if m.kind.Mem? {
      var cut := rec.(base := Max(rec.base, l.mem.base), limit := Min(rec.limit, l.mem.limit));
      var highest := cut.limit - cut.size + 1;
      assert Wrap(highest) == highest;
      RoundDownIsGreatestMultiple(highest, cut.align);
    }
    hide RoundDown, Pow2, Wrap;
  }

  /** The same premises as numbers, for a window below 2^63 and an address `top` above it and above the records. */
  ghost predicate WindowNumbers(st1: Store, dev: Device, m: Resource, gap: nat, top: nat)
    requires dev.links != []
  {
    var rec, share := At(st1, m), FR.Share(LeftOver(st1, dev), m.kind);
    && (forall r :: r in dev.resources ==> IsWord(At(st1, r).base) && IsWord(At(st1, r).limit))
    && gap <= rec.limit < WORDS / 2
    && (forall f :: f in FR.FixedIn(dev) && f.kind == m.kind && At(st1, f).size > 0 ==>
          FR.AwayFromEnds(At(st1, f), gap))
    && RoomInShare(m.kind, rec, share)
    && Min(rec.limit, share.limit) < top < WORDS && Low(st1, dev.links[0], Whole(m), top)
  }

  lemma {:induction false} WindowHasRoom(st1: Store, dev: Device, m: Resource, gap: nat, top: nat)
    requires Configurable(st1, dev, m) && WindowNumbers(st1, dev, m, gap, top)
    ensures Avoidable(st1, dev, m) && HasRoom(st1, dev, m, top)
  {
    hide LeftOver, Low, Walk, Avoidable, HasRoom, FR.AwayFromEnds, FR.FixedIn, RoomInShare, DomainOk;
    RangesAreAvoidable(st1, dev, m, gap);
    var left := FR.Share(LeftOver(st1, dev), m.kind);
    ConfinedHasRoom(st1, dev, m, At(st1, m), left, top);
  }

  lemma {:induction false} ConfinedHasRoom(st1: Store, dev: Device, m: Resource, rec: Rec, left: FR.Limit, top: nat)
    requires Configurable(st1, dev, m) && rec == At(st1, m) && left == FR.Share(LeftOver(st1, dev), m.kind)
    requires Min(rec.limit, left.limit) < top < WORDS && rec.limit < WORDS / 2 && RoomInShare(m.kind, rec, left)
    requires Low(st1, dev.links[0], Whole(m), top)
    ensures HasRoom(st1, dev, m, top)
  {
    hide LeftOver, Confined, Low, Walk, ConfineAll, HasRoom, RoomInShare;
    ConfinedLow(st1, dev, m, top);
    RoomByNumbers(st1, dev, m, rec, left, top);
  }

  lemma {:induction false} ConfinedLow(st1: Store, dev: Device, m: Resource, top: nat)
    requires Configurable(st1, dev, m) && Low(st1, dev.links[0], Whole(m), top)
    ensures Low(Confined(st1, dev), dev.links[0], Whole(m), top)
    ensures At(Confined(st1, dev), m) == Confine(LeftOver(st1, dev), m, At(st1, m)) && IsWindow(m)
  {
    ConfinedFrame(st1, dev, m);
    DomainWindow(dev, m);
    hide LeftOver, Confined, Low, Walk, ConfineAll;
    LowFrame(st1, Confined(st1, dev), dev.links[0], Whole(m), top);
  }

  lemma RoomByNumbers(st1: Store, dev: Device, m: Resource, rec: Rec, left: FR.Limit, top: nat)
    requires dev.links != [] && IsWindow(m) && left == FR.Share(LeftOver(st1, dev), m.kind)
    requires At(Confined(st1, dev), m) == Confine(LeftOver(st1, dev), m, rec)
    requires Min(rec.limit, left.limit) < top < WORDS && rec.limit < WORDS / 2 && RoomInShare(m.kind, rec, left)
    requires Low(Confined(st1, dev), dev.links[0], Whole(m), top)
    ensures HasRoom(st1, dev, m, top)
  {
    hide LeftOver, Confined, Low, Confine, ConfineAll, ResourceMax, RoomInShare, Roomy;
    WindowIsRoomy(LeftOver(st1, dev), m, rec);
  }

  /** A window is ready when its left-over share has room in this sense. */
  lemma {:induction false} WindowIsReady(st0: Store, dev: Device, m: Resource, gap: nat, top: nat)
    requires Configurable(st0, dev, m) && At(st0, m).base == 0 && Fresh(st0, dev.links[0], Whole(m))
    requires var st1 := SizeWindows(st0, dev, dev.resources);
             Tame(st1, dev.links[0], m, Whole(m)) && WindowNumbers(st1, dev, m, gap, top)
    ensures Ready(st0, dev, m, top)
  {
    var rs := dev.resources;
    assert rs[..|rs|] == rs;
    hide SizeWindows, Tame, Fresh, LeftOver, Avoidable, HasRoom, Walk, WindowNumbers;
    SizeWindowsOthers(st0, dev, m, |rs|);
    var st1 := SizeWindows(st0, dev, rs);
    assert Configurable(st1, dev, m);
    WindowHasRoom(st1, dev, m, gap, top);
  }
}

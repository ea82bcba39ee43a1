/**
 The resource allocator itself: loops and recursion over shared, mutable resource records.
 Each method is proved to compute the function of module Passes that specifies it.
 */
module Allocator {
  import opened Alignment
  import opened Options
  import opened Resources
  import opened LargestFirst
  import opened Walks
  import opened Passes
  import opened SizingPass
  import opened PlacingPass

  /** The state of one sweep over a bus. */
  class PickLargestState {
    const last: Option<Resource>
    var result: Option<Resource>
    var seenLast: bool

    constructor (last: Option<Resource>)
      ensures this.last == last && result == None && !seenLast
    {
      this.last := last;
      result := None;
      seenLast := false;
    }

    /** The sweep has seen the records s. */
    ghost predicate Seen(st: Store, s: seq<Resource>)
      reads this
    {
      && result == Next(st, Movable(s), last)
      && seenLast == (last.Some? && last.value in s)
      && (result.Some? ==> result.value in s)
    }

    method Pick(resource: Resource, ghost pool: set<Resource>, ghost s: seq<Resource>)
      requires resource in pool && (last.Some? ==> last.value in pool && !last.value.fixed)
      requires forall r :: r in s ==> r in pool
      requires Seen(View(pool), s)
      modifies this
      ensures Seen(View(pool), s + [resource])
    {
      hide Next, Movable;
      MovableSnoc(s, resource);
      NextStep(View(pool), Movable(s), resource, last);
      if last.Some? {
        MovableMember(s, last.value);
      }
      assert (s + [resource])[|s|] == resource;
      assert At(View(pool), resource) == resource.Get();
      assert last.Some? ==> At(View(pool), last.value) == last.value.Get();
      assert result.Some? ==> At(View(pool), result.value) == result.value.Get();
      if last == Some(resource) {
        seenLast := true;
        return;
      }
      if resource.fixed {
        return;
      }
      if last.Some? && (last.value.align < resource.align ||
                        (last.value.align == resource.align && last.value.size < resource.size) ||
                        (last.value.align == resource.align && last.value.size == resource.size && !seenLast)) {
        return;
      }
      if result == None || result.value.align < resource.align ||
         (result.value.align == resource.align && result.value.size < resource.size) {
        result := Some(resource);
      }
    }
  }

  lemma Associative<T>(a: seq<T>, b: seq<T>, c: seq<T>)
    ensures (a + b) + c == a + (b + c)
  {
  }

  lemma {:induction false} MovableMember(s: seq<Resource>, x: Resource)
    ensures x in Movable(s) <==> x in s && !x.fixed
  {
    MovableMembers(s);
  }

  lemma {:induction false} MovableSnoc(s: seq<Resource>, x: Resource)
    ensures Movable(s + [x]) == if x.fixed then Movable(s) else Movable(s) + [x]
  {
    assert (s + [x])[..|s + [x]| - 1] == s;
  }

  lemma {:induction false} MatchingSnoc(s: seq<Resource>, x: Resource, sel: Selector)
    ensures MatchingOn(s + [x], sel) == if Matches(x, sel) then MatchingOn(s, sel) + [x] else MatchingOn(s, sel)
  {
    assert (s + [x])[..|s + [x]| - 1] == s;
  }

  lemma {:induction false} FoundPrefix(devs: seq<Device>, sel: Selector, i: nat)
    requires i < |devs|
    ensures Found(devs[..i + 1], sel) ==
            if devs[i].enabled then Found(devs[..i], sel) + MatchingOn(devs[i].resources, sel)
              else Found(devs[..i], sel)
  {
    assert devs[..i + 1][..i] == devs[..i];
  }

  lemma {:induction false} FoundWithin(devs: seq<Device>, sel: Selector, i: nat, j: nat, r: Resource)
    requires i < |devs| && j < |devs[i].resources| && devs[i].enabled
    requires r == devs[i].resources[j] && Matches(r, sel)
    ensures r in Found(devs, sel)
    decreases |devs|
  {
    var n := |devs| - 1;
    if i == n {
      MatchingMembers(devs[n].resources, sel);
    } else {
      FoundWithin(devs[..n], sel, i, j, r);
    }
  }

  /** `search_bus_resources` on one device, with `Pick` as the callback. */
  method SearchDevice(devs: seq<Device>, i: nat, sel: Selector, state: PickLargestState, ghost pool: set<Resource>)
    requires i < |devs| && devs[i].enabled
    requires forall r :: r in Found(devs, sel) ==> r in pool
    requires state.last.Some? ==> state.last.value in pool && !state.last.value.fixed
    requires state.Seen(View(pool), Found(devs[..i], sel))
    modifies state
    ensures state.Seen(View(pool), Found(devs[..i], sel) + MatchingOn(devs[i].resources, sel))
  {
    hide Found;
    var rs := devs[i].resources;
    ghost var before := Found(devs[..i], sel);
    assert rs[..0] == [] && before + [] == before && rs[..|rs|] == rs;
    for j := 0 to |rs|
      invariant state.Seen(View(pool), before + MatchingOn(rs[..j], sel))
    {
      assert rs[..j + 1] == rs[..j] + [rs[j]];
      MatchingSnoc(rs[..j], rs[j], sel);
      if Matches(rs[j], sel) {
        FoundWithin(devs, sel, i, j, rs[j]);
        SoFarInPool(devs, sel, i, j, pool);
        ghost var seen := before + MatchingOn(rs[..j], sel);
        state.Pick(rs[j], pool, seen);
        Associative(before, MatchingOn(rs[..j], sel), [rs[j]]);
      }
    }
  }

  /** The record after `last` on a bus, or None after the last one. */
  method LargestResource(devs: seq<Device>, sel: Selector, last: Option<Resource>, ghost pool: set<Resource>)
    returns (result: Option<Resource>)
    requires forall r :: r in Found(devs, sel) ==> r in pool
    requires last.Some? ==> last.value in pool && !last.value.fixed
    ensures result == Next(View(pool), Movable(Found(devs, sel)), last)
  {
    var state := new PickLargestState(last);
    for i := 0 to |devs|
      invariant state.Seen(View(pool), Found(devs[..i], sel))
    {
      FoundPrefix(devs, sel, i);
      if devs[i].enabled {
        SearchDevice(devs, i, sel, state, pool);
      }
    }
    assert devs[..|devs|] == devs;
    result := state.result;
  }

  lemma {:induction false} FoundGrows(devs: seq<Device>, sel: Selector, i: nat, r: Resource)
    requires i <= |devs| && r in Found(devs[..i], sel)
    ensures r in Found(devs, sel)
    decreases |devs|
  {
    if i < |devs| {
      var n := |devs| - 1;
      assert devs[..n][..i] == devs[..i];
      FoundGrows(devs[..n], sel, i, r);
    } else {
      assert devs[..i] == devs;
    }
  }

  lemma {:induction false} SoFarInPool(devs: seq<Device>, sel: Selector, i: nat, j: nat, pool: set<Resource>)
    requires forall r :: r in Found(devs, sel) ==> r in pool
    requires i < |devs| && j <= |devs[i].resources| && devs[i].enabled
    ensures forall r :: r in Found(devs[..i], sel) + MatchingOn(devs[i].resources[..j], sel) ==> r in pool
  {
    MatchingMembers(devs[i].resources[..j], sel);
    forall r | r in Found(devs[..i], sel) + MatchingOn(devs[i].resources[..j], sel)
      ensures r in pool
    {
      if r in Found(devs[..i], sel) {
        FoundGrows(devs, sel, i, r);
      } else {
        var k :| 0 <= k < j && devs[i].resources[k] == r;
        FoundWithin(devs, sel, i, k, r);
      }
    }
  }

  // ----- Windows met so far -----

  /** Every bridge window names a link its device has. */
  ghost predicate Linked(bus: Bus)
    decreases bus
  {
    forall d :: d in bus.children ==>
      && (d.links != [] ==> forall r :: r in d.resources && r.bridge ==> r.link < |d.links|)
      && (forall l :: l in d.links ==> l < bus && Linked(l))
  }

  /** The windows met before record j of device i. */
  ghost function WindowsBefore(devs: seq<Device>, sel: Selector, i: nat, j: nat): seq<Window>
    requires i < |devs| && j <= |devs[i].resources|
  {
    Windows(devs[..i], sel) + WindowsOn(devs[i].resources[..j], devs[i].links, sel)
  }

  lemma {:induction false} WindowsPrefix(devs: seq<Device>, sel: Selector, i: nat)
    requires i <= |devs|
    ensures Windows(devs[..i], sel) <= Windows(devs, sel)
    ensures i < |devs| ==>
              Windows(devs[..i + 1], sel) == Windows(devs[..i], sel) + WindowsOn(devs[i].resources, devs[i].links, sel)
    decreases |devs|
  {
    if i < |devs| {
      assert devs[..i + 1][..i] == devs[..i];
      var n := |devs| - 1;
      assert devs[..n][..i] == devs[..i];
      WindowsPrefix(devs[..n], sel, i);
    } else {
      assert devs[..i] == devs;
    }
  }

  lemma {:induction false} WindowsOnPrefix(rs: seq<Resource>, links: seq<Bus>, sel: Selector, j: nat)
    requires j <= |rs|
    ensures WindowsOn(rs[..j], links, sel) <= WindowsOn(rs, links, sel)
    decreases |rs|
  {
    if j < |rs| {
      var n := |rs| - 1;
      assert rs[..n][..j] == rs[..j];
      WindowsOnPrefix(rs[..n], links, sel, j);
    } else {
      assert rs[..j] == rs;
    }
  }

  lemma WindowsOnNone(links: seq<Bus>, sel: Selector)
    ensures WindowsOn([], links, sel) == []
  {
  }

  lemma WindowsOnStep(rs: seq<Resource>, links: seq<Bus>, sel: Selector, j: nat)
    requires j < |rs|
    ensures WindowsOn(rs[..j + 1], links, sel) ==
            var r := rs[j];
            WindowsOn(rs[..j], links, sel) +
            if r.bridge && Matches(r, sel) && r.link < |links| then [Window(r, links[r.link])] else []
  {
    hide Matches;
    assert rs[..j + 1][..j] == rs[..j];
  }

  lemma {:induction false} WindowsBeforePrefix(devs: seq<Device>, sel: Selector, i: nat, j: nat)
    requires i < |devs| && j <= |devs[i].resources|
    ensures WindowsBefore(devs, sel, i, j) <= Windows(devs, sel)
    ensures j == 0 ==> WindowsBefore(devs, sel, i, j) == Windows(devs[..i], sel)
    ensures j == |devs[i].resources| ==> WindowsBefore(devs, sel, i, j) == Windows(devs[..i + 1], sel)
    ensures j < |devs[i].resources| ==>
              var r := devs[i].resources[j];
              WindowsBefore(devs, sel, i, j + 1) ==
              if r.bridge && Matches(r, sel) && r.link < |devs[i].links|
              then WindowsBefore(devs, sel, i, j) + [Window(r, devs[i].links[r.link])]
              else WindowsBefore(devs, sel, i, j)
  {
    hide Matches, Windows, WindowsOn;
    var rs, links := devs[i].resources, devs[i].links;
    WindowsPrefix(devs, sel, i);
    WindowsPrefix(devs, sel, i + 1);
    WindowsOnPrefix(rs, links, sel, j);
    WindowsOnNone(links, sel);
    assert rs[..|rs|] == rs;
    if j < |rs| {
      WindowsOnStep(rs, links, sel, j);
    }
  }

  lemma {:induction false} WindowsOfDevice(devs: seq<Device>, sel: Selector, i: nat)
    requires i < |devs|
    ensures WindowsBefore(devs, sel, i, 0) == Windows(devs[..i], sel)
    ensures WindowsBefore(devs, sel, i, |devs[i].resources|) == Windows(devs[..i + 1], sel)
    ensures Windows(devs[..i + 1], sel) <= Windows(devs, sel)
    ensures devs[i].links == [] ==> Windows(devs[..i + 1], sel) == Windows(devs[..i], sel)
  {
    WindowsBeforePrefix(devs, sel, i, 0);
    WindowsBeforePrefix(devs, sel, i, |devs[i].resources|);
    WindowsPrefix(devs, sel, i);
    WindowsPrefix(devs, sel, i + 1);
    if devs[i].links == [] {
      NoLinksNoWindows(devs[i].resources, sel);
    }
  }

  lemma {:induction false} NoLinksNoWindows(rs: seq<Resource>, sel: Selector)
    ensures WindowsOn(rs, [], sel) == []
  {
    if rs != [] {
      NoLinksNoWindows(rs[..|rs| - 1], sel);
    }
  }

  /** The windows ws, a prefix of all windows of the bus, have been sized. */
  ghost predicate SizedSoFar(v: Store, st0: Store, bus: Bus, ws: seq<Window>, sel: Selector) {
    ws <= Windows(bus.children, sel) && v == SizeBehind(Words, st0, bus, ws, sel)
  }

  /** The buses behind the windows ws have been placed. */
  ghost predicate PlacedSoFar(v: Store, st1: Store, bus: Bus, ws: seq<Window>, sel: Selector) {
    ws <= Windows(bus.children, sel) && v == PlaceBehind(Words, st1, bus, ws, sel)
  }

  // ----- The sizing pass -----

  /** The store in the middle of the sizing loop. */
  ghost function SizeMid(st: Store, o: seq<Resource>, bridge: Resource, b: Rec): Store {
    Sweep(Sizing(Words), st, o, Round(Words, b.base, b.align))
      [bridge := b.(align := JoinedAlign(st, o, b.align), limit := JoinedLimit(st, o, b.limit))]
  }

  lemma SwapUpdates(m: Store, y: Resource, b: Rec, b': Rec, x: Resource, x': Rec)
    requires x != y
    ensures m[x := x'][y := b'] == m[y := b][y := b'][x := x']
  {
  }

  lemma {:induction false} SizeMidStep(st: Store, o: seq<Resource>, k: nat, bridge: Resource, b: Rec)
    requires NoDup(o) && Covers(st, o) && k < |o| && bridge in st && bridge !in o
    ensures var x, v := o[k], SizeMid(st, o[..k], bridge, b);
            var c := Cursor(Sizing(Words), st, o[..k], Round(Words, b.base, b.align));
            && v.Keys == st.Keys && At(v, x) == At(st, x)
            && SizeMid(st, o[..k + 1], bridge, b) ==
               v[bridge := Joined(At(v, bridge), At(st, x))][x := Update(Sizing(Words), x, c, At(st, x))]
  {
    hide Round, Update, Cursor;
    var x := o[k];
    assert x in o;
    assert o[..k + 1][..k] == o[..k];
    var c0 := Round(Words, b.base, b.align);
    SweepFrame(Sizing(Words), st, o[..k], c0);
    var m: Store := Sweep(Sizing(Words), st, o[..k], c0);
    var x' := Update(Sizing(Words), x, Cursor(Sizing(Words), st, o[..k], c0), At(st, x));
    var v: Store := SizeMid(st, o[..k], bridge, b);
    SwapUpdates(m, bridge, v[bridge], Joined(At(v, bridge), At(st, x)), x, x');
  }

  lemma {:induction false} SweepKeepsKeys(pass: Pass, st: Store, o: seq<Resource>, c0: nat, s: seq<Resource>)
    requires Covers(st, o)
    ensures SameKeys(st, Sweep(pass, st, o, c0), s)
  {
    if o != [] {
      var n := |o| - 1;
      SweepKeepsKeys(pass, st, o[..n], c0, s);
      SweepKeepsKeys(pass, st, o[..n], c0, [o[n]]);
      assert o[n] in o && o[n] in [o[n]];
    }
  }

  /** Sorting a store with the same sort keys continues the same enumeration. */
  lemma {:induction false} NextAt(st: Store, v: Store, bus: Bus, sel: Selector, k: nat)
    requires NoDup(Walk(bus, sel)) && SameKeys(st, v, Candidates(bus, sel))
    requires k <= |Taken(st, bus, sel)|
    ensures var o := Taken(st, bus, sel);
            Next(v, Candidates(bus, sel), if k == 0 then None else Some(o[k - 1])) == First(o[k..])
  {
    var c := Candidates(bus, sel);
    WalkParts(bus, sel);
    OrderFrame(st, v, c);
    if k == 0 {
      SweepsEnumerate(v, c);
      assert Order(v, c)[0..] == Order(v, c);
    } else {
      SweepAfter(v, c, k - 1);
    }
  }

  /** In the middle of the sizing loop the sort keys are what they were. */
  lemma {:induction false} SizeMidNext(st: Store, bus: Bus, sel: Selector, k: nat, bridge: Resource, b: Rec)
    requires Separate(bus, bridge, sel) && Covers(st, Walk(bus, sel)) && bridge in st
    requires k <= |Taken(st, bus, sel)|
    ensures var o := Taken(st, bus, sel); var v := SizeMid(st, o[..k], bridge, b);
            Next(v, Candidates(bus, sel), if k == 0 then None else Some(o[k - 1])) == First(o[k..])
  {
    var o, c := Taken(st, bus, sel), Candidates(bus, sel);
    TakenMembers(st, bus, sel);
    SweepKeepsKeys(Sizing(Words), st, o[..k], Round(Words, b.base, b.align), c);
    assert bridge !in c by {
      WalkParts(bus, sel);
    }
    NextAt(st, SizeMid(st, o[..k], bridge, b), bus, sel, k);
  }

  lemma {:induction false} CandidatesAreFound(bus: Bus, sel: Selector)
    requires NoDup(Walk(bus, sel))
    ensures forall r :: r in Found(bus.children, sel) ==> r in Walk(bus, sel)
    ensures forall r :: r in Candidates(bus, sel) ==> !r.fixed
  {
    WalkParts(bus, sel);
    MovableMembers(Found(bus.children, sel));
    NoDupConcat(Level(bus.children, sel), WalkBehind(bus, Windows(bus.children, sel), sel));
    FoundOnLevel(bus.children, sel);
  }

  /** `compute_resources` for each child which is a bridge. */
  method ComputeChildren(bus: Bus, sel: Selector, ghost pool: set<Resource>)
    requires Linked(bus) && NoDup(Walk(bus, sel))
    requires forall r :: r in Walk(bus, sel) ==> r in pool
    modifies pool
    ensures View(pool) == SizeBehind(Words, old(View(pool)), bus, Windows(bus.children, sel), sel)
    decreases bus, 2
  {
    hide Walk, SizeBus;
    ghost var st0 := View(pool);
    assert Windows(bus.children[..0], sel) == [];
    for i := 0 to |bus.children|
      invariant SizedSoFar(View(pool), st0, bus, Windows(bus.children[..i], sel), sel)
    {
      ComputeDevice(bus, i, sel, pool, st0);
    }
    assert bus.children[..|bus.children|] == bus.children;
  }

  method ComputeDevice(bus: Bus, i: nat, sel: Selector, ghost pool: set<Resource>, ghost st0: Store)
    requires Linked(bus) && NoDup(Walk(bus, sel)) && i < |bus.children|
    requires forall r :: r in Walk(bus, sel) ==> r in pool
    requires SizedSoFar(View(pool), st0, bus, Windows(bus.children[..i], sel), sel)
    modifies pool
    ensures SizedSoFar(View(pool), st0, bus, Windows(bus.children[..i + 1], sel), sel)
    decreases bus, 1
  {
    hide Walk, WindowsBefore, Windows, SizedSoFar;
    var dev := bus.children[i];
    WindowsOfDevice(bus.children, sel, i);
    if dev.links == [] {
      return;
    }
    for j := 0 to |dev.resources|
      invariant SizedSoFar(View(pool), st0, bus, WindowsBefore(bus.children, sel, i, j), sel)
    {
      ComputeChild(bus, i, j, sel, pool, st0);
    }
  }

  method ComputeChild(bus: Bus, i: nat, j: nat, sel: Selector, ghost pool: set<Resource>, ghost st0: Store)
    requires Linked(bus) && NoDup(Walk(bus, sel))
    requires forall r :: r in Walk(bus, sel) ==> r in pool
    requires i < |bus.children| && j < |bus.children[i].resources| && bus.children[i].links != []
    requires SizedSoFar(View(pool), st0, bus, WindowsBefore(bus.children, sel, i, j), sel)
    modifies pool
    ensures SizedSoFar(View(pool), st0, bus, WindowsBefore(bus.children, sel, i, j + 1), sel)
    decreases bus, 0
  {
    hide Walk, WindowsBefore, Windows, SizeBehind, SizeBus, NoDup, View, Matches;
    var dev := bus.children[i];
    var childBridge := dev.resources[j];
    WindowsBeforePrefix(bus.children, sel, i, j);
    WindowsBeforePrefix(bus.children, sel, i, j + 1);
    if childBridge.bridge && Matches(childBridge, sel) {
      LinkOf(bus, i, j);
      var link := dev.links[childBridge.link];
      ghost var ws, w := WindowsBefore(bus.children, sel, i, j), Window(childBridge, link);
      SizeBehindSnoc(Words, st0, bus, ws, w, sel);
      assert w in ws + [w];
      WindowSeparate(bus, sel, w);
      ComputeResources(link, childBridge, Behind(sel, childBridge), pool);
    }
  }

  lemma {:induction false} LinkOf(bus: Bus, i: nat, j: nat)
    requires Linked(bus) && i < |bus.children| && j < |bus.children[i].resources|
    requires bus.children[i].links != [] && bus.children[i].resources[j].bridge
    ensures var d := bus.children[i]; var l := d.resources[j].link;
            l < |d.links| && Linked(d.links[l]) && d.links[l] < bus
  {
    var d := bus.children[i];
    assert d in bus.children && d.resources[j] in d.resources;
    assert d.links[d.resources[j].link] in d.links;
  }

  lemma Rewritten(r: Resource, bridge: Resource, pool: set<Resource>)
    requires r in pool && bridge in pool
    ensures View(pool)[bridge := bridge.Get()][r := r.Get()] == View(pool)
  {
  }

  /** The aliases of the legacy I/O ranges, and the VGA range below them, are no place for a record. */
  method SkipReserved(base: nat) returns (next: nat)
    ensures next == Skip(Words, base)
  {
    hide Wrap;
    var cursor: int := base;
    if cursor % 0x400 >= 0x100 {
      cursor := Wrap(cursor - cursor % 0x400 + 0x400);
    } else if 0x3b0 <= cursor <= 0x3df {
      cursor := 0x3e0;
    }
    next := cursor;
  }

  /** One record of the sizing loop: its needs join the bridge's, then it gets a relative base. */
  method SizeOne(r: Resource, bridge: Resource, base: nat, ghost pool: set<Resource>) returns (next: nat)
    requires r != bridge && r in pool && bridge in pool
    modifies r, bridge
    ensures next == Advance(Sizing(Words), r, base, old(r.Get()))
    ensures View(pool) == old(View(pool))[bridge := Joined(old(bridge.Get()), old(r.Get()))][r :=
            Update(Sizing(Words), r, base, old(r.Get()))]
  {
    hide Pow2, Round, Skip, Wrap, View;
    next := base;
    if r.size == 0 {
      Rewritten(r, bridge, pool);
      return;
    }
    JoinBridge(r, bridge, pool);
    if r.kind.Io? {
      next := SkipReserved(next);
    }
    next := Round(Words, next, r.align);
    SetBase(r, next, pool);
    ViewAt(r, pool);
    next := Wrap(next + r.size);
  }

  method SetBase(r: Resource, base: nat, ghost pool: set<Resource>)
    requires r in pool
    modifies r
    ensures View(pool) == old(View(pool))[r := old(r.Get()).(base := base)]
  {
    r.base := base;
  }

  method JoinBridge(r: Resource, bridge: Resource, ghost pool: set<Resource>)
    requires r != bridge && r in pool && bridge in pool && r.size != 0
    modifies bridge
    ensures View(pool) == old(View(pool))[bridge := Joined(old(bridge.Get()), r.Get())]
  {
    if r.align > bridge.align {
      bridge.align := r.align;
    }
    if bridge.limit > r.limit {
      bridge.limit := r.limit;
    }
  }

  /** What a record contributes to its bridge window. */
  ghost function Joined(b: Rec, rec: Rec): Rec {
    if rec.size == 0 then b else b.(align := Max(b.align, rec.align), limit := Min(b.limit, rec.limit))
  }

  /** The sizing loop has dealt with the first k records. */
  ghost predicate InSizing(v: Store, st: Store, bus: Bus, bridge: Resource, sel: Selector, k: nat, base: nat,
                           next: Option<Resource>) {
    var o, b := Taken(st, bus, sel), At(st, bridge);
    && k <= |o| && next == First(o[k..])
    && v == SizeMid(st, o[..k], bridge, b)
    && base == Cursor(Sizing(Words), st, o[..k], Round(Words, b.base, b.align))
  }

  lemma {:induction false} SizingStarts(st: Store, bus: Bus, bridge: Resource, sel: Selector, next: Option<Resource>)
    requires Separate(bus, bridge, sel) && Covers(st, Walk(bus, sel)) && bridge in st
    requires next == Next(st, Candidates(bus, sel), None)
    ensures InSizing(st, st, bus, bridge, sel, 0, Round(Words, At(st, bridge).base, At(st, bridge).align), next)
  {
    var o, b := Taken(st, bus, sel), At(st, bridge);
    assert SizeMid(st, o[..0], bridge, b) == st;
    SizeMidNext(st, bus, sel, 0, bridge, b);
  }

  /** The record the loop holds. */
  lemma {:induction false} SizingHolds(v: Store, st: Store, bus: Bus, bridge: Resource, sel: Selector, k: nat,
                                       base: nat, r: Resource)
    requires Separate(bus, bridge, sel) && Covers(st, Walk(bus, sel)) && bridge in st
    requires InSizing(v, st, bus, bridge, sel, k, base, Some(r))
    ensures k < |Taken(st, bus, sel)| && r == Taken(st, bus, sel)[k]
    ensures r in Walk(bus, sel) && !r.fixed && r != bridge
    ensures v.Keys == st.Keys && At(v, r) == At(st, r)
  {
    var o := Taken(st, bus, sel);
    assert r == o[k] && r in o;
    TakenMembers(st, bus, sel);
    CandidatesAreFound(bus, sel);
    SizeMidStep(st, o, k, bridge, At(st, bridge));
  }

  lemma {:induction false} SizingSteps(v: Store, v': Store, st: Store, bus: Bus, bridge: Resource, sel: Selector,
                                       k: nat, base: nat, r: Resource, next: Option<Resource>)
    requires Separate(bus, bridge, sel) && Covers(st, Walk(bus, sel)) && bridge in st
    requires InSizing(v, st, bus, bridge, sel, k, base, Some(r))
    requires v' == v[bridge := Joined(At(v, bridge), At(v, r))][r := Update(Sizing(Words), r, base, At(v, r))]
    requires next == Next(v', Candidates(bus, sel), Some(r))
    ensures InSizing(v', st, bus, bridge, sel, k + 1, Advance(Sizing(Words), r, base, At(v, r)), next)
  {
    var o, b := Taken(st, bus, sel), At(st, bridge);
    SizingHolds(v, st, bus, bridge, sel, k, base, r);
    TakenMembers(st, bus, sel);
    SizeMidStep(st, o, k, bridge, b);
    assert o[..k + 1][..k] == o[..k];
    SizeMidNext(st, bus, sel, k + 1, bridge, b);
  }

  lemma {:induction false} SizingEnds(v: Store, st: Store, bus: Bus, bridge: Resource, sel: Selector, k: nat, base: nat)
    requires Separate(bus, bridge, sel) && Covers(st, Walk(bus, sel)) && bridge in st
    requires InSizing(v, st, bus, bridge, sel, k, base, None)
    ensures At(v, bridge).gran == At(st, bridge).gran && At(v, bridge).base == At(st, bridge).base
    ensures v[bridge := At(v, bridge).(size := Difference(Round(Words, base, At(v, bridge).gran),
            Round(Words, At(v, bridge).base, At(v, bridge).align)))]
            == SizeLevel(Words, st, bus, bridge, sel)
  {
    var o := Taken(st, bus, sel);
    assert o[..k] == o;
  }

  /** First pass: how large is every bridge window, and how must it be aligned? */
  method ComputeResources(bus: Bus, bridge: Resource, sel: Selector, ghost pool: set<Resource>)
    requires Linked(bus) && Separate(bus, bridge, sel)
    requires bridge in pool && forall r :: r in Walk(bus, sel) ==> r in pool
    modifies pool
    ensures View(pool) == SizeBus(Words, old(View(pool)), bus, bridge, sel)
    decreases bus, 3
  {
    hide Walk, SizeBehind, Windows;
    ghost var st0 := View(pool);
    var base := Round(Words, bridge.base, bridge.align);
    ComputeChildren(bus, sel, pool);
    assert bridge.Get() == At(st0, bridge) by {
      ghost var all := Windows(bus.children, sel);
      assert all[..|all|] == all;
      SizeBehindFrame(Words, st0, bus, |all|, sel);
      assert bridge.Get() == At(View(pool), bridge);
    }
    ComputeLevel(bus, bridge, base, sel, pool);
  }

  /** The loop of the first pass over the records of one bus. */
  method ComputeLevel(bus: Bus, bridge: Resource, start: nat, sel: Selector, ghost pool: set<Resource>)
    requires Separate(bus, bridge, sel)
    requires bridge in pool && forall r :: r in Walk(bus, sel) ==> r in pool
    requires start == Round(Words, bridge.base, bridge.align)
    modifies pool
    ensures View(pool) == SizeLevel(Words, old(View(pool)), bus, bridge, sel)
  {
    hide InSizing, Walk, SizeLevel, Round;
    ghost var st := View(pool);
    CandidatesAreFound(bus, sel);
    var base := start;
    ghost var k := 0;
    var resource := LargestResource(bus.children, sel, None, pool);
    SizingStarts(st, bus, bridge, sel, resource);
    while resource.Some?
      invariant InSizing(View(pool), st, bus, bridge, sel, k, base, resource)
      decreases |Taken(st, bus, sel)| - k
    {
      var r: Resource := resource.value;
      ghost var v := View(pool);
      SizingHolds(v, st, bus, bridge, sel, k, base, r);
      ghost var before := base;
      base := SizeOne(r, bridge, base, pool);
      resource := LargestResource(bus.children, sel, resource, pool);
      SizingSteps(v, View(pool), st, bus, bridge, sel, k, before, r, resource);
      k := k + 1;
    }
    SizingEnds(View(pool), st, bus, bridge, sel, k, base);
    SetSize(bridge, Difference(Round(Words, base, bridge.gran), Round(Words, bridge.base, bridge.align)), pool);
  }

  method SetSize(bridge: Resource, size: nat, ghost pool: set<Resource>)
    requires bridge in pool
    modifies bridge
    ensures View(pool) == old(View(pool))[bridge := old(bridge.Get()).(size := size)]
  {
    bridge.size := size;
  }

  // ----- The placing pass -----

  lemma {:induction false} PlaceMidStep(st: Store, o: seq<Resource>, k: nat, limit: nat, c0: nat)
    requires NoDup(o) && Covers(st, o) && k < |o|
    ensures var x, v := o[k], Sweep(Placing(Words, limit), st, o[..k], c0);
            && v.Keys == st.Keys && At(v, x) == At(st, x)
            && Sweep(Placing(Words, limit), st, o[..k + 1], c0) ==
               v[x := Update(Placing(Words, limit), x, Cursor(Placing(Words, limit), st, o[..k], c0), At(st, x))]
  {
    assert o[k] in o;
    assert o[..k + 1][..k] == o[..k];
    SweepFrame(Placing(Words, limit), st, o[..k], c0);
  }

  lemma {:induction false} PlaceMidNext(st: Store, bus: Bus, sel: Selector, k: nat, bridge: Resource)
    requires Separate(bus, bridge, sel) && Covers(st, Walk(bus, sel)) && bridge in st
    requires k <= |Taken(st, bus, sel)|
    ensures var o, b := Taken(st, bus, sel), At(st, bridge);
            var v := Sweep(Placing(Words, b.limit), st, o[..k], b.base);
            Next(v, Candidates(bus, sel), if k == 0 then None else Some(o[k - 1])) == First(o[k..])
  {
    var o, b := Taken(st, bus, sel), At(st, bridge);
    TakenMembers(st, bus, sel);
    SweepKeepsKeys(Placing(Words, b.limit), st, o[..k], b.base, Candidates(bus, sel));
    NextAt(st, Sweep(Placing(Words, b.limit), st, o[..k], b.base), bus, sel, k);
  }

  /** One record of the placing loop. */
  method PlaceOne(r: Resource, bridge: Resource, base: nat, ghost pool: set<Resource>) returns (next: nat)
    requires r != bridge && r in pool
    modifies r
    ensures next == Advance(Placing(Words, bridge.limit), r, base, old(r.Get()))
    ensures View(pool) == old(View(pool))[r := Update(Placing(Words, bridge.limit), r, base, old(r.Get()))]
  {
    hide Pow2, Round, Skip, Wrap, View;
    next := base;
    ghost var st, rec := View(pool), r.Get();
    CapLimit(r, bridge, pool);
    ViewAt(r, pool);
    ghost var capped := r.Get();
    if r.size == 0 {
      PlaceEmpty(r, pool);
      ViewAt(r, pool);
      Overwrite(st, r, capped, r.Get());
      return;
    }
    if r.kind.Io? {
      next := SkipReserved(next);
    }
    if Wrap(Round(Words, next, r.align) + r.size - 1) <= r.limit {
      next := Round(Words, next, r.align);
      PlaceAt(r, next, pool);
      ViewAt(r, pool);
      Overwrite(st, r, capped, r.Get());
      next := Wrap(next + r.size);
    }
  }

  lemma ViewAt(r: Resource, pool: set<Resource>)
    requires r in pool
    ensures View(pool)[r] == r.Get() && At(View(pool), r) == r.Get()
  {
  }

  lemma Overwrite(st: Store, r: Resource, a: Rec, b: Rec)
    ensures st[r := a][r := b] == st[r := b]
  {
  }

  method CapLimit(r: Resource, bridge: Resource, ghost pool: set<Resource>)
    requires r in pool
    modifies r
    ensures View(pool) == old(View(pool))[r := old(r.Get()).(limit := Min(old(r.limit), old(bridge.limit)))]
  {
    if r.limit > bridge.limit {
      r.limit := bridge.limit;
    }
  }

  method PlaceEmpty(r: Resource, ghost pool: set<Resource>)
    requires r in pool
    modifies r
    ensures View(pool) == old(View(pool))[r := old(r.Get()).(base := old(r.limit), isAssigned := true)]
  {
    r.base := r.limit;
    r.isAssigned := true;
  }

  method PlaceAt(r: Resource, base: nat, ghost pool: set<Resource>)
    requires r in pool && r.size > 0
    modifies r
    ensures View(pool) == old(View(pool))[r := old(r.Get()).(base := base, limit := Wrap(base + old(r.size) - 1),
                                                             isAssigned := true, isStored := false)]
  {
    r.base := base;
    r.limit := Wrap(r.base + r.size - 1);
    r.isAssigned := true;
    r.isStored := false;
  }

  /** The placing loop has dealt with the first k records. */
  ghost predicate InPlacing(v: Store, st: Store, bus: Bus, bridge: Resource, sel: Selector, k: nat, base: nat,
                            next: Option<Resource>) {
    var o, b := Taken(st, bus, sel), At(st, bridge);
    && k <= |o| && next == First(o[k..])
    && v == Sweep(Placing(Words, b.limit), st, o[..k], b.base) && At(v, bridge) == b
    && base == Cursor(Placing(Words, b.limit), st, o[..k], b.base)
  }

  lemma {:induction false} PlacingStarts(st: Store, bus: Bus, bridge: Resource, sel: Selector, next: Option<Resource>)
    requires Separate(bus, bridge, sel) && Covers(st, Walk(bus, sel)) && bridge in st
    requires next == Next(st, Candidates(bus, sel), None)
    ensures InPlacing(st, st, bus, bridge, sel, 0, At(st, bridge).base, next)
  {
    PlaceMidNext(st, bus, sel, 0, bridge);
  }

  lemma {:induction false} PlacingHolds(v: Store, st: Store, bus: Bus, bridge: Resource, sel: Selector, k: nat,
                                        base: nat, r: Resource)
    requires Separate(bus, bridge, sel) && Covers(st, Walk(bus, sel)) && bridge in st
    requires InPlacing(v, st, bus, bridge, sel, k, base, Some(r))
    ensures k < |Taken(st, bus, sel)| && r == Taken(st, bus, sel)[k]
    ensures r in Walk(bus, sel) && !r.fixed && r != bridge
    ensures v.Keys == st.Keys && At(v, r) == At(st, r)
  {
    var o := Taken(st, bus, sel);
    assert r == o[k] && r in o;
    TakenMembers(st, bus, sel);
    CandidatesAreFound(bus, sel);
    PlaceMidStep(st, o, k, At(st, bridge).limit, At(st, bridge).base);
  }

  lemma {:induction false} PlacingSteps(v: Store, v': Store, st: Store, bus: Bus, bridge: Resource, sel: Selector,
                                        k: nat, base: nat, r: Resource, next: Option<Resource>)
    requires Separate(bus, bridge, sel) && Covers(st, Walk(bus, sel)) && bridge in st
    requires InPlacing(v, st, bus, bridge, sel, k, base, Some(r))
    requires v' == v[r := Update(Placing(Words, At(v, bridge).limit), r, base, At(v, r))]
    requires next == Next(v', Candidates(bus, sel), Some(r))
    ensures InPlacing(v', st, bus, bridge, sel, k + 1, Advance(Placing(Words, At(v, bridge).limit), r, base,
            At(v, r)), next)
  {
    var o, b := Taken(st, bus, sel), At(st, bridge);
    PlacingHolds(v, st, bus, bridge, sel, k, base, r);
    TakenMembers(st, bus, sel);
    PlaceMidStep(st, o, k, b.limit, b.base);
    assert o[..k + 1][..k] == o[..k];
    PlaceMidNext(st, bus, sel, k + 1, bridge);
  }

  lemma {:induction false} PlacingEnds(v: Store, st: Store, bus: Bus, bridge: Resource, sel: Selector, k: nat,
                                       base: nat)
    requires InPlacing(v, st, bus, bridge, sel, k, base, None)
    ensures v[bridge := At(v, bridge).(isAssigned := true)] == PlaceLevel(Words, st, bus, bridge, sel)
  {
    var o := Taken(st, bus, sel);
    assert o[..k] == o;
  }

  /** The loop of the second pass over the records of one bus. */
  method AllocateLevel(bus: Bus, bridge: Resource, sel: Selector, ghost pool: set<Resource>)
    requires Separate(bus, bridge, sel)
    requires bridge in pool && forall r :: r in Walk(bus, sel) ==> r in pool
    modifies pool
    ensures View(pool) == PlaceLevel(Words, old(View(pool)), bus, bridge, sel)
  {
    hide InPlacing, Walk, PlaceLevel;
    ghost var st := View(pool);
    CandidatesAreFound(bus, sel);
    var base := bridge.base;
    ghost var k := 0;
    var resource := LargestResource(bus.children, sel, None, pool);
    PlacingStarts(st, bus, bridge, sel, resource);
    while resource.Some?
      invariant InPlacing(View(pool), st, bus, bridge, sel, k, base, resource)
      decreases |Taken(st, bus, sel)| - k
    {
      var r: Resource := resource.value;
      ghost var v := View(pool);
      PlacingHolds(v, st, bus, bridge, sel, k, base, r);
      ghost var before := base;
      base := PlaceOne(r, bridge, base, pool);
      resource := LargestResource(bus.children, sel, resource, pool);
      PlacingSteps(v, View(pool), st, bus, bridge, sel, k, before, r, resource);
      k := k + 1;
    }
    PlacingEnds(View(pool), st, bus, bridge, sel, k, base);
    SetAssigned(bridge, pool);
  }

  method SetAssigned(bridge: Resource, ghost pool: set<Resource>)
    requires bridge in pool
    modifies bridge
    ensures View(pool) == old(View(pool))[bridge := old(bridge.Get()).(isAssigned := true)]
  {
    bridge.isAssigned := true;
  }

  /** Second pass: give every record an address inside its bridge window. */
  method AllocateResources(bus: Bus, bridge: Resource, sel: Selector, ghost pool: set<Resource>)
    requires Linked(bus) && Separate(bus, bridge, sel)
    requires bridge in pool && forall r :: r in Walk(bus, sel) ==> r in pool
    modifies pool
    ensures View(pool) == PlaceBus(Words, old(View(pool)), bus, bridge, sel)
    decreases bus, 2
  {
    hide Walk, PlaceLevel;
    AllocateLevel(bus, bridge, sel, pool);
    ghost var st1 := View(pool);
    assert Windows(bus.children[..0], sel) == [];
    for i := 0 to |bus.children|
      invariant PlacedSoFar(View(pool), st1, bus, Windows(bus.children[..i], sel), sel)
    {
      AllocateDevice(bus, i, sel, pool, st1);
    }
    assert bus.children[..|bus.children|] == bus.children;
  }

  method AllocateDevice(bus: Bus, i: nat, sel: Selector, ghost pool: set<Resource>, ghost st1: Store)
    requires Linked(bus) && NoDup(Walk(bus, sel)) && i < |bus.children|
    requires forall r :: r in Walk(bus, sel) ==> r in pool
    requires PlacedSoFar(View(pool), st1, bus, Windows(bus.children[..i], sel), sel)
    modifies pool
    ensures PlacedSoFar(View(pool), st1, bus, Windows(bus.children[..i + 1], sel), sel)
    decreases bus, 1
  {
    hide Walk, WindowsBefore, Windows, PlacedSoFar;
    var dev := bus.children[i];
    WindowsOfDevice(bus.children, sel, i);
    if dev.links == [] {
      return;
    }
    for j := 0 to |dev.resources|
      invariant PlacedSoFar(View(pool), st1, bus, WindowsBefore(bus.children, sel, i, j), sel)
    {
      AllocateChild(bus, i, j, sel, pool, st1);
    }
  }

  method AllocateChild(bus: Bus, i: nat, j: nat, sel: Selector, ghost pool: set<Resource>, ghost st1: Store)
    requires Linked(bus) && NoDup(Walk(bus, sel))
    requires forall r :: r in Walk(bus, sel) ==> r in pool
    requires i < |bus.children| && j < |bus.children[i].resources| && bus.children[i].links != []
    requires PlacedSoFar(View(pool), st1, bus, WindowsBefore(bus.children, sel, i, j), sel)
    modifies pool
    ensures PlacedSoFar(View(pool), st1, bus, WindowsBefore(bus.children, sel, i, j + 1), sel)
    decreases bus, 0
  {
    hide Walk, WindowsBefore, Windows, PlaceBehind;
    var dev := bus.children[i];
    var childBridge := dev.resources[j];
    WindowsBeforePrefix(bus.children, sel, i, j);
    WindowsBeforePrefix(bus.children, sel, i, j + 1);
    if childBridge.bridge && Matches(childBridge, sel) {
      LinkOf(bus, i, j);
      var link := dev.links[childBridge.link];
      ghost var ws, w := WindowsBefore(bus.children, sel, i, j), Window(childBridge, link);
      PlaceBehindSnoc(Words, st1, bus, ws, w, sel);
      assert w in ws + [w];
      WindowSeparate(bus, sel, w);
      AllocateResources(link, childBridge, Behind(sel, childBridge), pool);
    }
  }
}

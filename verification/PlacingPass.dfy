/**
 What the placing pass guarantees when it computes with integers. Safety: whatever is placed
 is aligned, and two placed ranges are either nested like their buses or disjoint. Completeness
 needs the sizing pass: then everything fits. Module WordPasses says when words do the same.
 */
module PlacingPass {
  import opened Alignment
  import opened Resources
  import opened LargestFirst
  import opened Walks
  import opened Passes
  import opened SizingPass

  /** The k-th record taken on a bus behind window b takes the "it fits" branch. */
  ghost predicate FitsAt(st: Store, o: seq<Resource>, b: Rec, k: nat)
    requires k < |o|
  {
    Fits(Integers, o[k], Cursor(Placing(Integers, b.limit), st, o[..k], b.base), At(st, o[k]), b.limit)
  }

  ghost function PlacedOn(st: Store, bus: Bus, bridge: Resource, sel: Selector): set<Resource> {
    var o, b := Taken(st, bus, sel), At(st, bridge);
    set k | 0 <= k < |o| && FitsAt(st, o, b, k) :: o[k]
  }

  /** The records that got an address through a chain of windows that got one. */
  ghost function PlacedIn(st: Store, bus: Bus, bridge: Resource, sel: Selector): set<Resource>
    decreases bus, 1, 0
  {
    var level := PlacedOn(st, bus, bridge, sel);
    level + PlacedBeyond(PlaceLevel(Integers, st, bus, bridge, sel), bus, Windows(bus.children, sel), sel, level)
  }

  ghost function PlacedBeyond(st: Store, bus: Bus, ws: seq<Window>, sel: Selector, level: set<Resource>): set<Resource>
    requires forall w :: w in ws ==> w in Windows(bus.children, sel)
    decreases bus, 0, |ws|
  {
    if ws == [] then {} else
      var w := ws[|ws| - 1];
      var rest := ws[..|ws| - 1];
      WindowIsSmaller(bus, sel, w);
      PlacedBeyond(st, bus, rest, sel, level) +
      (if w.res in level then PlacedIn(PlaceBehind(Integers, st, bus, rest, sel), w.bus, w.res, Behind(sel, w.res))
        else {})
  }

  // ----- Ranges -----

  predicate Apart(a: Rec, b: Rec) {
    a.base + a.size <= b.base || b.base + b.size <= a.base
  }

  predicate Inside(a: Rec, b: Rec) {
    b.base <= a.base && a.base + a.size <= b.base + b.size
  }

  predicate Settled(a: Rec) {
    a.size > 0 && Aligned(a.base, a.align) && a.limit == a.base + a.size - 1 && a.isAssigned && !a.isStored
  }

  /** Window q is on the path from the bus to r. */
  ghost predicate Beneath(bus: Bus, sel: Selector, q: Resource, r: Resource)
    decreases bus
  {
    exists w :: w in Windows(bus.children, sel) && w.bus < bus &&
      ((w.res == q && r in Beyond(sel, w)) || Beneath(w.bus, Behind(sel, w.res), q, r))
  }

  lemma {:induction false} BeneathWalk(bus: Bus, sel: Selector, q: Resource, r: Resource)
    requires NoDup(Walk(bus, sel)) && Beneath(bus, sel, q, r)
    ensures q in Walk(bus, sel) && r in Walk(bus, sel) && r !in Level(bus.children, sel)
    decreases bus
  {
    var w :| w in Windows(bus.children, sel) && w.bus < bus &&
      ((w.res == q && r in Beyond(sel, w)) || Beneath(w.bus, Behind(sel, w.res), q, r));
    WindowSeparate(bus, sel, w);
    if Beneath(w.bus, Behind(sel, w.res), q, r) {
      BeneathWalk(w.bus, Behind(sel, w.res), q, r);
    }
  }

  /** The first window on the path to r is the one r lies behind. */
  lemma {:induction false} BeneathVia(bus: Bus, sel: Selector, i: nat, q: Resource, r: Resource)
    requires NoDup(Walk(bus, sel)) && i < |Windows(bus.children, sel)|
    requires r in Beyond(sel, Windows(bus.children, sel)[i]) && Beneath(bus, sel, q, r)
    ensures var w := Windows(bus.children, sel)[i];
            w.bus < bus && (q == w.res || Beneath(w.bus, Behind(sel, w.res), q, r))
  {
    var ws := Windows(bus.children, sel);
    assert ws[i] in ws;
    WindowSeparate(bus, sel, ws[i]);
    var w :| w in ws && w.bus < bus &&
      ((w.res == q && r in Beyond(sel, w)) || Beneath(w.bus, Behind(sel, w.res), q, r));
    var j :| 0 <= j < |ws| && ws[j] == w;
    WindowSeparate(bus, sel, w);
    if Beneath(w.bus, Behind(sel, w.res), q, r) {
      BeneathWalk(w.bus, Behind(sel, w.res), q, r);
    }
    if i != j {
      WindowsApart(bus, sel, i, j);
    }
  }

  // ----- Safety on one bus -----

  lemma {:induction false} CursorGrows(pass: Pass, st: Store, o: seq<Resource>, c0: nat, j: nat, k: nat)
    requires pass.ar.Integers? && j <= k <= |o|
    ensures c0 <= Cursor(pass, st, o[..j], c0) <= Cursor(pass, st, o[..k], c0)
    decreases k
  {
    hide Advance, Start;
    if k > 0 {
      assert o[..k][..k - 1] == o[..k - 1];
      AdvanceGrows(pass, o[k - 1], Cursor(pass, st, o[..k - 1], c0), At(st, o[k - 1]));
      if j < k {
        CursorGrows(pass, st, o, c0, j, k - 1);
      } else {
        CursorGrows(pass, st, o, c0, k - 1, k - 1);
      }
    }
  }

  lemma {:induction false} AdvanceGrows(pass: Pass, r: Resource, cursor: nat, rec: Rec)
    requires pass.ar.Integers?
    ensures cursor <= Start(Integers, r, cursor, rec) && cursor <= Advance(pass, r, cursor, rec)
    ensures Aligned(Start(Integers, r, cursor, rec), rec.align)
  {
    hide RoundDown, SkipAliases, Pow2, Wrap;
    var c := if r.kind.Io? then SkipAliases(cursor) else cursor;
    SkipAliasesIsLeast(cursor);
    RoundUpIsLeastMultiple(c, rec.align);
  }

  /** A record that fits is settled inside the window, past everything taken before it. */
  lemma {:induction false} LevelSettled(st: Store, bus: Bus, bridge: Resource, sel: Selector, k: nat)
    requires Separate(bus, bridge, sel) && bridge in st && Covers(st, Walk(bus, sel))
    requires k < |Taken(st, bus, sel)| && FitsAt(st, Taken(st, bus, sel), At(st, bridge), k)
    ensures var o, b := Taken(st, bus, sel), At(st, bridge);
            var a := At(PlaceLevel(Integers, st, bus, bridge, sel), o[k]);
            && Settled(a) && b.base <= a.base && a.limit <= b.limit
            && Cursor(Placing(Integers, b.limit), st, o[..k], b.base) <= a.base
            && a.base + a.size == Cursor(Placing(Integers, b.limit), st, o[..k + 1], b.base)
  {
    hide Start, Aligned, Taken, Walk;
    var o, b := Taken(st, bus, sel), At(st, bridge);
    PlaceLevelAt(Integers, st, bus, bridge, sel, k);
    CursorGrows(Placing(Integers, b.limit), st, o, b.base, 0, k);
    AdvanceGrows(Placing(Integers, b.limit), o[k], Cursor(Placing(Integers, b.limit), st, o[..k], b.base),
      At(st, o[k]));
    assert o[..k + 1][..k] == o[..k];
  }

  lemma {:induction false} LevelOrdered(st: Store, bus: Bus, bridge: Resource, sel: Selector, i: nat, j: nat)
    requires Separate(bus, bridge, sel) && bridge in st && Covers(st, Walk(bus, sel))
    requires i < j < |Taken(st, bus, sel)|
    requires FitsAt(st, Taken(st, bus, sel), At(st, bridge), i) && FitsAt(st, Taken(st, bus, sel), At(st, bridge), j)
    ensures var o, st1 := Taken(st, bus, sel), PlaceLevel(Integers, st, bus, bridge, sel);
            At(st1, o[i]).base + At(st1, o[i]).size <= At(st1, o[j]).base
  {
    var o, b := Taken(st, bus, sel), At(st, bridge);
    LevelSettled(st, bus, bridge, sel, i);
    LevelSettled(st, bus, bridge, sel, j);
    CursorGrows(Placing(Integers, b.limit), st, o, b.base, i + 1, j);
  }

  lemma {:induction false} LevelApart(st: Store, bus: Bus, bridge: Resource, sel: Selector, q: Resource, r: Resource)
    requires Separate(bus, bridge, sel) && bridge in st && Covers(st, Walk(bus, sel))
    requires q in PlacedOn(st, bus, bridge, sel) && r in PlacedOn(st, bus, bridge, sel) && q != r
    ensures Apart(At(PlaceLevel(Integers, st, bus, bridge, sel), q), At(PlaceLevel(Integers, st, bus, bridge, sel), r))
  {
    var o, b := Taken(st, bus, sel), At(st, bridge);
    var i :| 0 <= i < |o| && FitsAt(st, o, b, i) && o[i] == q;
    var j :| 0 <= j < |o| && FitsAt(st, o, b, j) && o[j] == r;
    if i < j {
      LevelOrdered(st, bus, bridge, sel, i, j);
    } else {
      LevelOrdered(st, bus, bridge, sel, j, i);
    }
  }

  lemma {:induction false} LevelPlaced(st: Store, bus: Bus, bridge: Resource, sel: Selector, r: Resource)
    requires Separate(bus, bridge, sel) && bridge in st && Covers(st, Walk(bus, sel))
    requires r in PlacedOn(st, bus, bridge, sel)
    ensures r in Candidates(bus, sel) && r in Level(bus.children, sel)
    ensures var a, b := At(PlaceLevel(Integers, st, bus, bridge, sel), r), At(st, bridge);
            Settled(a) && b.base <= a.base && a.limit <= b.limit
  {
    var o, b := Taken(st, bus, sel), At(st, bridge);
    var k :| 0 <= k < |o| && FitsAt(st, o, b, k) && o[k] == r;
    assert r in o;
    TakenMembers(st, bus, sel);
    LevelSettled(st, bus, bridge, sel, k);
  }

  // ----- Safety on the tree -----

  /** All of P settled between lo and hi; nested along the tree, disjoint otherwise. */
  ghost predicate WellPlaced(st: Store, bus: Bus, sel: Selector, P: set<Resource>, lo: nat, hi: nat) {
    && (forall r :: r in P ==>
          r in Walk(bus, sel) && Settled(At(st, r)) && lo <= At(st, r).base && At(st, r).limit <= hi)
    && (forall q, r :: q in P && r in P && q != r ==> WellPlacedPair(st, bus, sel, q, r))
  }

  ghost predicate WellPlacedPair(st: Store, bus: Bus, sel: Selector, q: Resource, r: Resource) {
    if Beneath(bus, sel, q, r) then Inside(At(st, r), At(st, q))
    else if Beneath(bus, sel, r, q) then Inside(At(st, q), At(st, r))
    else Apart(At(st, q), At(st, r))
  }

  /** The same for what lies behind the first n windows of a bus. */
  ghost predicate WellPlacedBeyond(st1: Store, st: Store, bus: Bus, n: nat, sel: Selector, level: set<Resource>,
                                   P: set<Resource>)
    requires n <= |Windows(bus.children, sel)|
  {
    var ws := Windows(bus.children, sel);
    && (forall r :: r in P ==> exists i :: 0 <= i < n && BehindPlaced(st1, st, sel, ws[i], level, r))
    && (forall q, r :: q in P && r in P && q != r ==> WellPlacedPair(st, bus, sel, q, r))
  }

  ghost predicate BehindPlaced(st1: Store, st: Store, sel: Selector, w: Window, level: set<Resource>, r: Resource) {
    w.res in level && r in Beyond(sel, w) && Settled(At(st, r)) && Inside(At(st, r), At(st1, w.res))
  }

  /** Whatever the placing pass places is well placed in the window it was given. */
  lemma {:induction false} PlacingIsSafe(st: Store, bus: Bus, bridge: Resource, sel: Selector)
    requires Separate(bus, bridge, sel) && bridge in st && Covers(st, Walk(bus, sel))
    ensures WellPlaced(PlaceBus(Integers, st, bus, bridge, sel), bus, sel, PlacedIn(st, bus, bridge, sel),
                       At(st, bridge).base, At(st, bridge).limit)
    decreases bus, 1, 0
  {
    var st1 := PlaceLevel(Integers, st, bus, bridge, sel);
    var level := PlacedOn(st, bus, bridge, sel);
    var ws := Windows(bus.children, sel);
    assert ws[..|ws|] == ws;
    PlacingBeyondIsSafe(st, bus, bridge, |ws|, sel);
    var P := PlacedIn(st, bus, bridge, sel);
    forall r | r in P
      ensures r in Walk(bus, sel) && Settled(At(PlaceBus(Integers, st, bus, bridge, sel), r))
      ensures At(st, bridge).base <= At(PlaceBus(Integers, st, bus, bridge, sel), r).base
      ensures At(PlaceBus(Integers, st, bus, bridge, sel), r).limit <= At(st, bridge).limit
    {
      PlacedBounds(st, bus, bridge, sel, r);
    }
    forall q, r | q in P && r in P && q != r
      ensures WellPlacedPair(PlaceBus(Integers, st, bus, bridge, sel), bus, sel, q, r)
    {
      PlacedPair(st, bus, bridge, sel, q, r);
    }
  }

  lemma {:induction false} PlacedPair(st: Store, bus: Bus, bridge: Resource, sel: Selector, q: Resource, r: Resource)
    requires Separate(bus, bridge, sel) && bridge in st && Covers(st, Walk(bus, sel))
    requires q in PlacedIn(st, bus, bridge, sel) && r in PlacedIn(st, bus, bridge, sel) && q != r
    requires var ws := Windows(bus.children, sel);
             var st1 := PlaceLevel(Integers, st, bus, bridge, sel);
             var level := PlacedOn(st, bus, bridge, sel);
             WellPlacedBeyond(st1, PlaceBehind(Integers, st1, bus, ws, sel), bus, |ws|, sel, level,
               PlacedBeyond(st1, bus, ws, sel, level))
    ensures WellPlacedPair(PlaceBus(Integers, st, bus, bridge, sel), bus, sel, q, r)
  {
    var level := PlacedOn(st, bus, bridge, sel);
    if q in level {
      if r in level {
        SameLevelPair(st, bus, bridge, sel, q, r);
      } else {
        MixedPair(st, bus, bridge, sel, q, r);
      }
    } else if r in level {
      MixedPair(st, bus, bridge, sel, r, q);
      LevelKept(st, bus, bridge, sel, r);
      PairSymmetric(PlaceBus(Integers, st, bus, bridge, sel), bus, sel, r, q);
    }
  }

  /** Nothing lies beneath itself the other way round. */
  lemma {:induction false} PairSymmetric(st: Store, bus: Bus, sel: Selector, q: Resource, r: Resource)
    requires WellPlacedPair(st, bus, sel, q, r) && NoDup(Walk(bus, sel)) && q in Level(bus.children, sel)
    ensures WellPlacedPair(st, bus, sel, r, q)
  {
    if Beneath(bus, sel, r, q) {
      BeneathWalk(bus, sel, r, q);
    }
  }

  lemma {:induction false} PlacedBounds(st: Store, bus: Bus, bridge: Resource, sel: Selector, r: Resource)
    requires Separate(bus, bridge, sel) && bridge in st && Covers(st, Walk(bus, sel))
    requires r in PlacedIn(st, bus, bridge, sel)
    requires var ws := Windows(bus.children, sel);
             var st1 := PlaceLevel(Integers, st, bus, bridge, sel);
             var level := PlacedOn(st, bus, bridge, sel);
             WellPlacedBeyond(st1, PlaceBehind(Integers, st1, bus, ws, sel), bus, |ws|, sel, level,
               PlacedBeyond(st1, bus, ws, sel, level))
    ensures r in Walk(bus, sel) && Settled(At(PlaceBus(Integers, st, bus, bridge, sel), r))
    ensures At(st, bridge).base <= At(PlaceBus(Integers, st, bus, bridge, sel), r).base
    ensures At(PlaceBus(Integers, st, bus, bridge, sel), r).limit <= At(st, bridge).limit
  {
    var ws := Windows(bus.children, sel);
    var st1 := PlaceLevel(Integers, st, bus, bridge, sel);
    var level := PlacedOn(st, bus, bridge, sel);
    PlaceLevelFrame(Integers, st, bus, bridge, sel);
    if r in level {
      LevelPlaced(st, bus, bridge, sel, r);
      LevelKept(st, bus, bridge, sel, r);
    } else {
      var i :| 0 <= i < |ws| && BehindPlaced(st1, PlaceBehind(Integers, st1, bus, ws, sel), sel, ws[i], level, r);
      assert ws[i] in ws;
      WindowSeparate(bus, sel, ws[i]);
      LevelPlaced(st, bus, bridge, sel, ws[i].res);
    }
  }

  /** A settled record of the level keeps its range while the levels below are placed. */
  lemma {:induction false} LevelKept(st: Store, bus: Bus, bridge: Resource, sel: Selector, r: Resource)
    requires Separate(bus, bridge, sel) && bridge in st && Covers(st, Walk(bus, sel))
    requires r in PlacedOn(st, bus, bridge, sel)
    ensures r in Walk(bus, sel) && r in Level(bus.children, sel)
    ensures At(PlaceBus(Integers, st, bus, bridge, sel), r) == At(PlaceLevel(Integers, st, bus, bridge, sel), r)
  {
    var ws := Windows(bus.children, sel);
    assert ws[..|ws|] == ws;
    LevelPlaced(st, bus, bridge, sel, r);
    WalkParts(bus, sel);
    PlaceLevelFrame(Integers, st, bus, bridge, sel);
    PlaceBehindFrame(Integers, PlaceLevel(Integers, st, bus, bridge, sel), bus, |ws|, sel);
  }

  lemma {:induction false} SameLevelPair(st: Store, bus: Bus, bridge: Resource, sel: Selector, q: Resource, r: Resource)
    requires Separate(bus, bridge, sel) && bridge in st && Covers(st, Walk(bus, sel))
    requires q in PlacedOn(st, bus, bridge, sel) && r in PlacedOn(st, bus, bridge, sel) && q != r
    ensures WellPlacedPair(PlaceBus(Integers, st, bus, bridge, sel), bus, sel, q, r)
  {
    LevelKept(st, bus, bridge, sel, q);
    LevelKept(st, bus, bridge, sel, r);
    LevelApart(st, bus, bridge, sel, q, r);
    if Beneath(bus, sel, q, r) {
      BeneathWalk(bus, sel, q, r);
    }
    if Beneath(bus, sel, r, q) {
      BeneathWalk(bus, sel, r, q);
    }
  }

  /** q on the bus itself, r somewhere behind a window. */
  lemma {:induction false} MixedPair(st: Store, bus: Bus, bridge: Resource, sel: Selector, q: Resource, r: Resource)
    requires Separate(bus, bridge, sel) && bridge in st && Covers(st, Walk(bus, sel))
    requires q in PlacedOn(st, bus, bridge, sel)
    requires var ws := Windows(bus.children, sel);
             var st1 := PlaceLevel(Integers, st, bus, bridge, sel);
             exists i :: 0 <= i < |ws| && BehindPlaced(st1, PlaceBehind(Integers, st1, bus, ws, sel), sel, ws[i],
               PlacedOn(st, bus, bridge, sel), r)
    ensures WellPlacedPair(PlaceBus(Integers, st, bus, bridge, sel), bus, sel, q, r)
  {
    var ws := Windows(bus.children, sel);
    var st1 := PlaceLevel(Integers, st, bus, bridge, sel);
    var i :| 0 <= i < |ws| && BehindPlaced(st1, PlaceBehind(Integers, st1, bus, ws, sel), sel, ws[i],
      PlacedOn(st, bus, bridge, sel), r);
    LevelKept(st, bus, bridge, sel, q);
    assert ws[i] in ws;
    WindowSeparate(bus, sel, ws[i]);
    if Beneath(bus, sel, r, q) {
      BeneathWalk(bus, sel, r, q);
    }
    if q == ws[i].res {
      assert Beneath(bus, sel, q, r);
    } else {
      LevelApart(st, bus, bridge, sel, q, ws[i].res);
      if Beneath(bus, sel, q, r) {
        BeneathVia(bus, sel, i, q, r);
        BeneathWalk(ws[i].bus, Behind(sel, ws[i].res), q, r);
      }
    }
  }

  lemma {:induction false} PlacingBeyondIsSafe(st: Store, bus: Bus, bridge: Resource, n: nat, sel: Selector)
    requires Separate(bus, bridge, sel) && bridge in st && Covers(st, Walk(bus, sel))
    requires n <= |Windows(bus.children, sel)|
    ensures var ws := Windows(bus.children, sel);
            var st1 := PlaceLevel(Integers, st, bus, bridge, sel);
            var level := PlacedOn(st, bus, bridge, sel);
            WellPlacedBeyond(st1, PlaceBehind(Integers, st1, bus, ws[..n], sel), bus, n, sel, level,
              PlacedBeyond(st1, bus, ws[..n], sel, level))
    decreases bus, 0, n
  {
    var ws := Windows(bus.children, sel);
    var st1 := PlaceLevel(Integers, st, bus, bridge, sel);
    var level := PlacedOn(st, bus, bridge, sel);
    if n > 0 {
      hide Walk, WellPlaced, WellPlacedBeyond, PlaceLevel, PlacedOn, Windows, Candidates, PlaceBus;
      var w := ws[n - 1];
      assert w in ws;
      assert ws[..n][..n - 1] == ws[..n - 1];
      PlacingBeyondIsSafe(st, bus, bridge, n - 1, sel);
      PlaceLevelFrame(Integers, st, bus, bridge, sel);
      PlaceBehindFrame(Integers, st1, bus, n - 1, sel);
      WindowSeparate(bus, sel, w);
      var mid := PlaceBehind(Integers, st1, bus, ws[..n - 1], sel);
      PlaceFrame(Integers, mid, w.bus, w.res, Behind(sel, w.res));
      if w.res in level {
        LevelPlaced(st, bus, bridge, sel, w.res);
        PlacingIsSafe(mid, w.bus, w.res, Behind(sel, w.res));
      }
      OneMoreWellPlaced(st, mid, bus, bridge, n - 1, sel);
    }
  }

  lemma {:induction false} OneMoreWellPlaced(st: Store, mid: Store, bus: Bus, bridge: Resource, n: nat, sel: Selector)
    requires Separate(bus, bridge, sel) && bridge in st && Covers(st, Walk(bus, sel))
    requires n < |Windows(bus.children, sel)|
    requires mid == PlaceBehind(Integers, PlaceLevel(Integers, st, bus, bridge, sel), bus,
             Windows(bus.children, sel)[..n], sel)
    requires mid.Keys == st.Keys
    requires var ws := Windows(bus.children, sel);
             var w := ws[n];
             var st1 := PlaceLevel(Integers, st, bus, bridge, sel);
             var level := PlacedOn(st, bus, bridge, sel);
             && WellPlacedBeyond(st1, mid, bus, n, sel, level, PlacedBeyond(st1, bus, ws[..n], sel, level))
             && w.bus < bus && At(mid, w.res) == At(st1, w.res)
             && SameOutside(mid, PlaceBus(Integers, mid, w.bus, w.res, Behind(sel, w.res)), [w.res] + Beyond(sel, w))
             && (w.res in level ==> (
                   && Settled(At(st1, w.res))
                   && WellPlaced(PlaceBus(Integers, mid, w.bus, w.res, Behind(sel, w.res)), w.bus, Behind(sel, w.res),
                                 PlacedIn(mid, w.bus, w.res, Behind(sel, w.res)), At(mid, w.res).base,
                                   At(mid, w.res).limit)))
    ensures var ws := Windows(bus.children, sel);
            var st1 := PlaceLevel(Integers, st, bus, bridge, sel);
            var level := PlacedOn(st, bus, bridge, sel);
            WellPlacedBeyond(st1, PlaceBehind(Integers, st1, bus, ws[..n + 1], sel), bus, n + 1, sel, level,
              PlacedBeyond(st1, bus, ws[..n + 1], sel, level))
  {
    hide Walk, WellPlacedPair, PlaceLevel, PlacedOn, Windows, Candidates, PlaceBus, PlacedIn;
    var ws := Windows(bus.children, sel);
    var w := ws[n];
    var st1 := PlaceLevel(Integers, st, bus, bridge, sel);
    var level := PlacedOn(st, bus, bridge, sel);
    assert ws[..n + 1][..n] == ws[..n];
    var st' := PlaceBehind(Integers, st1, bus, ws[..n + 1], sel);
    assert st' == PlaceBus(Integers, mid, w.bus, w.res, Behind(sel, w.res));
    var before := PlacedBeyond(st1, bus, ws[..n], sel, level);
    var here := if w.res in level then PlacedIn(mid, w.bus, w.res, Behind(sel, w.res)) else {};
    assert PlacedBeyond(st1, bus, ws[..n + 1], sel, level) == before + here;
    forall r | r in before
      ensures At(st', r) == At(mid, r)
      ensures exists i :: 0 <= i < n && BehindPlaced(st1, st', sel, ws[i], level, r)
    {
      var i :| 0 <= i < n && BehindPlaced(st1, mid, sel, ws[i], level, r);
      BehindOther(mid, st', bus, sel, i, n, r);
      assert BehindPlaced(st1, st', sel, ws[i], level, r);
    }
    forall r | r in here
      ensures BehindPlaced(st1, st', sel, w, level, r)
    {
    }
    forall q, r | q in before + here && r in before + here && q != r
      ensures WellPlacedPair(st', bus, sel, q, r)
    {
      if q in before && r in before {
        PairFrame(mid, st', bus, sel, q, r);
      } else if q in here && r in here {
        SameWindowPair(st', bus, sel, n, q, r);
      } else if q in before {
        var i :| 0 <= i < n && BehindPlaced(st1, st', sel, ws[i], level, q);
        OtherWindowPair(st, st', bus, bridge, sel, i, n, q, r);
      } else {
        var i :| 0 <= i < n && BehindPlaced(st1, st', sel, ws[i], level, r);
        OtherWindowPair(st, st', bus, bridge, sel, n, i, q, r);
      }
    }
  }

  lemma PairFrame(a: Store, b: Store, bus: Bus, sel: Selector, q: Resource, r: Resource)
    requires WellPlacedPair(a, bus, sel, q, r) && At(b, q) == At(a, q) && At(b, r) == At(a, r)
    ensures WellPlacedPair(b, bus, sel, q, r)
  {
  }

  lemma {:induction false} BehindOther(mid: Store, st': Store, bus: Bus, sel: Selector, i: nat, n: nat, r: Resource)
    requires NoDup(Walk(bus, sel)) && Covers(mid, Walk(bus, sel))
    requires i < n < |Windows(bus.children, sel)|
    requires r in Beyond(sel, Windows(bus.children, sel)[i])
    requires var w := Windows(bus.children, sel)[n]; SameOutside(mid, st', [w.res] + Beyond(sel, w))
    ensures At(st', r) == At(mid, r)
  {
    var ws := Windows(bus.children, sel);
    assert ws[i] in ws;
    WindowSeparate(bus, sel, ws[i]);
    WindowsApart(bus, sel, i, n);
  }

  lemma {:induction false} SameWindowPair(st: Store, bus: Bus, sel: Selector, n: nat, q: Resource, r: Resource)
    requires NoDup(Walk(bus, sel)) && n < |Windows(bus.children, sel)|
    requires var w := Windows(bus.children, sel)[n];
             q in Beyond(sel, w) && r in Beyond(sel, w) && WellPlacedPair(st, w.bus, Behind(sel, w.res), q, r)
    ensures WellPlacedPair(st, bus, sel, q, r)
  {
    var ws := Windows(bus.children, sel);
    var w := ws[n];
    assert w in ws;
    WindowSeparate(bus, sel, w);
    if Beneath(bus, sel, q, r) {
      BeneathVia(bus, sel, n, q, r);
    }
    if Beneath(bus, sel, r, q) {
      BeneathVia(bus, sel, n, r, q);
    }
  }

  lemma {:induction false} OtherWindowPair(st: Store, st': Store, bus: Bus, bridge: Resource, sel: Selector, i: nat,
                                           j: nat, q: Resource, r: Resource)
    requires Separate(bus, bridge, sel) && bridge in st && Covers(st, Walk(bus, sel))
    requires i < |Windows(bus.children, sel)| && j < |Windows(bus.children, sel)| && i != j
    requires var ws := Windows(bus.children, sel);
             var st1 := PlaceLevel(Integers, st, bus, bridge, sel);
             var level := PlacedOn(st, bus, bridge, sel);
             BehindPlaced(st1, st', sel, ws[i], level, q) && BehindPlaced(st1, st', sel, ws[j], level, r)
    ensures WellPlacedPair(st', bus, sel, q, r)
  {
    var ws := Windows(bus.children, sel);
    assert ws[i] in ws && ws[j] in ws;
    WindowsApart(bus, sel, i, j);
    WindowSeparate(bus, sel, ws[i]);
    WindowSeparate(bus, sel, ws[j]);
    LevelApart(st, bus, bridge, sel, ws[i].res, ws[j].res);
    if Beneath(bus, sel, q, r) {
      BeneathVia(bus, sel, j, q, r);
      if Beneath(ws[j].bus, Behind(sel, ws[j].res), q, r) {
        BeneathWalk(ws[j].bus, Behind(sel, ws[j].res), q, r);
        WindowsApart(bus, sel, j, i);
      }
    }
    if Beneath(bus, sel, r, q) {
      BeneathVia(bus, sel, i, r, q);
      if Beneath(ws[i].bus, Behind(sel, ws[i].res), r, q) {
        BeneathWalk(ws[i].bus, Behind(sel, ws[i].res), r, q);
      }
    }
  }

  // ----- Completeness -----

  /** r asks for an address: it has a size and can be reached through enabled, movable windows. */
  ghost predicate Wants(st: Store, bus: Bus, sel: Selector, r: Resource)
    decreases bus
  {
    (r in Candidates(bus, sel) && At(st, r).size > 0) ||
    exists w :: w in Windows(bus.children, sel) && w.res in Candidates(bus, sel) && w.bus < bus &&
      Wants(st, w.bus, Behind(sel, w.res), r)
  }

  /** The window is aligned for everything behind it and at least as large as computed. */
  predicate Roomy(b: Rec, sel: Selector) {
    && Aligned(b.base, b.align) && (sel.kind.Io? ==> b.base % 0x400 == 0)
    && b.base + b.size <= b.limit + 1
  }

  /** Placing in a roomy window repeats the sizing layout, moved by the window's base. */
  lemma {:induction false} LayoutTranslates(st: Store, bus: Bus, bridge: Resource, sel: Selector, k: nat)
    requires NoDup(Walk(bus, sel)) && SizedLevel(Integers, st, bus, bridge, sel) && Roomy(At(st, bridge), sel)
    requires k <= |Taken(st, bus, sel)|
    ensures var o, b := Taken(st, bus, sel), At(st, bridge);
            Cursor(Placing(Integers, b.limit), st, o[..k], b.base) == b.base + Cursor(Sizing(Integers), st, o[..k], 0)
    decreases k
  {
    if k > 0 {
      hide SizedLevel, Walk, Taken, Roomy, Cursor;
      LayoutTranslates(st, bus, bridge, sel, k - 1);
      LayoutStep(st, bus, bridge, sel, k - 1);
    }
  }

  lemma {:induction false} LayoutStep(st: Store, bus: Bus, bridge: Resource, sel: Selector, k: nat)
    requires NoDup(Walk(bus, sel)) && SizedLevel(Integers, st, bus, bridge, sel) && Roomy(At(st, bridge), sel)
    requires k < |Taken(st, bus, sel)|
    requires var o, b := Taken(st, bus, sel), At(st, bridge);
             Cursor(Placing(Integers, b.limit), st, o[..k], b.base) == b.base + Cursor(Sizing(Integers), st, o[..k], 0)
    ensures var o, b := Taken(st, bus, sel), At(st, bridge);
            && Cursor(Placing(Integers, b.limit), st, o[..k + 1], b.base) ==
               b.base + Cursor(Sizing(Integers), st, o[..k + 1], 0)
            && (At(st, o[k]).size > 0 ==> FitsAt(st, o, b, k))
  {
    hide Walk, Taken, Aligned, Candidates, Start, Advance, Round, Pow2, Roomy;
    var o, b := Taken(st, bus, sel), At(st, bridge);
    var x, c := o[k], Cursor(Sizing(Integers), st, o[..k], 0);
    assert o[..k + 1][..k] == o[..k] && o[..k + 1][k] == x;
    assert x in o;
    if At(st, x).size > 0 {
      assert x.kind == sel.kind by {
        TakenMembers(st, bus, sel);
        LevelMatches(bus.children, sel, x);
      }
      assert Cursor(Sizing(Integers), st, o[..k + 1], 0) <= b.size by {
        CursorGrows(Sizing(Integers), st, o, 0, k + 1, |o|);
        assert o[..|o|] == o;
        RoundIntegers(Cursor(Sizing(Integers), st, o, 0), b.gran);
      }
      LayoutOne(x, c, At(st, x), b, sel);
    } else {
      LayoutNone(x, c, At(st, x), b);
    }
  }

  lemma LayoutNone(x: Resource, c: nat, rec: Rec, b: Rec)
    requires rec.size == 0
    ensures Advance(Placing(Integers, b.limit), x, b.base + c, rec) == b.base + Advance(Sizing(Integers), x, c, rec)
  {
  }

  lemma LayoutOne(x: Resource, c: nat, rec: Rec, b: Rec, sel: Selector)
    requires Roomy(b, sel) && x.kind == sel.kind && rec.size > 0 && rec.align <= b.align && b.limit <= rec.limit
    requires Advance(Sizing(Integers), x, c, rec) <= b.size
    ensures Fits(Integers, x, b.base + c, rec, b.limit)
    ensures Advance(Placing(Integers, b.limit), x, b.base + c, rec) == b.base + Advance(Sizing(Integers), x, c, rec)
  {
    StartTranslates(x, c, b.base, rec, b.align);
    hide Start, Aligned;
  }

  lemma {:induction false} StartTranslates(x: Resource, c: nat, d: nat, rec: Rec, align: nat)
    requires Aligned(d, align) && rec.align <= align && (x.kind.Io? ==> d % 0x400 == 0)
    ensures Start(Integers, x, c + d, rec) == Start(Integers, x, c, rec) + d
  {
    AlignedWeaken(d, align, rec.align);
    if x.kind.Io? {
      SkipAliasesTranslates(c, d);
      RoundUpTranslates(SkipAliases(c), d, rec.align);
    } else {
      RoundUpTranslates(c, d, rec.align);
    }
  }

  lemma {:induction false} ZeroSizedWantsNothing(st: Store, bus: Bus, bridge: Resource, sel: Selector, r: Resource)
    requires NoDup(Walk(bus, sel)) && Sized(Integers, st, bus, bridge, sel) && At(st, bridge).size == 0
    ensures !Wants(st, bus, sel, r)
    decreases bus
  {
    hide Walk, NoDup, Candidates, Windows, Sized;
    forall x | x in Candidates(bus, sel)
      ensures At(st, x).size == 0
    {
      ZeroSizedCandidate(st, bus, bridge, sel, x);
    }
    forall w | w in Windows(bus.children, sel) && w.res in Candidates(bus, sel) && w.bus < bus
      ensures !Wants(st, w.bus, Behind(sel, w.res), r)
    {
      WindowSeparate(bus, sel, w);
      SizedInside(Integers, st, bus, bridge, sel, w);
      ZeroSizedWantsNothing(st, w.bus, w.res, Behind(sel, w.res), r);
    }
  }

  lemma {:induction false} ZeroSizedCandidate(st: Store, bus: Bus, bridge: Resource, sel: Selector, x: Resource)
    requires NoDup(Walk(bus, sel)) && Sized(Integers, st, bus, bridge, sel) && At(st, bridge).size == 0
    requires x in Candidates(bus, sel)
    ensures At(st, x).size == 0
  {
    hide Walk, NoDup, Taken, Round, Pow2, Candidates, Windows, Start;
    var o, b := Taken(st, bus, sel), At(st, bridge);
    RoundIntegers(Cursor(Sizing(Integers), st, o, 0), b.gran);
    TakenMembers(st, bus, sel);
    assert x in o;
    var k :| 0 <= k < |o| && o[k] == x;
    assert o[..|o|] == o && o[..k + 1][..k] == o[..k];
    CursorGrows(Sizing(Integers), st, o, 0, k + 1, |o|);
    CursorGrows(Sizing(Integers), st, o, 0, k, |o|);
    AdvanceGrows(Sizing(Integers), x, Cursor(Sizing(Integers), st, o[..k], 0), At(st, x));
  }

  lemma {:induction false} WantsFrame(a: Store, b: Store, bus: Bus, sel: Selector, r: Resource)
    requires NoDup(Walk(bus, sel)) && SameOn(a, b, Walk(bus, sel)) && Wants(a, bus, sel, r)
    ensures Wants(b, bus, sel, r)
    decreases bus
  {
    WalkParts(bus, sel);
    if r in Candidates(bus, sel) && At(a, r).size > 0 {
    } else {
      var w :| w in Windows(bus.children, sel) && w.res in Candidates(bus, sel) && w.bus < bus &&
        Wants(a, w.bus, Behind(sel, w.res), r);
      WindowSeparate(bus, sel, w);
      WantsFrame(a, b, w.bus, Behind(sel, w.res), r);
    }
  }

  /** Everything that asks for an address behind a sized, roomy window gets one. */
  lemma {:induction false} PlacingIsComplete(st: Store, bus: Bus, bridge: Resource, sel: Selector, r: Resource)
    requires Separate(bus, bridge, sel) && bridge in st && Covers(st, Walk(bus, sel))
    requires Sized(Integers, st, bus, bridge, sel) && Roomy(At(st, bridge), sel)
    requires Wants(st, bus, sel, r)
    ensures r in PlacedIn(st, bus, bridge, sel)
    decreases bus, 1, 0
  {
    if r in Candidates(bus, sel) && At(st, r).size > 0 {
      CandidatePlaced(st, bus, bridge, sel, r);
      PlacedOnIn(st, bus, bridge, sel);
    } else {
      var i := WantedVia(st, bus, sel, r);
      WindowHasSize(st, bus, bridge, sel, Windows(bus.children, sel)[i], r);
      WindowComplete(st, bus, bridge, i, sel, r);
    }
  }

  lemma {:induction false} WantedVia(st: Store, bus: Bus, sel: Selector, r: Resource) returns (i: nat)
    requires Wants(st, bus, sel, r) && !(r in Candidates(bus, sel) && At(st, r).size > 0)
    ensures i < |Windows(bus.children, sel)|
    ensures var w := Windows(bus.children, sel)[i];
            w in Windows(bus.children, sel) && w.res in Candidates(bus, sel) && w.bus < bus &&
              Wants(st, w.bus, Behind(sel, w.res), r)
  {
    var ws := Windows(bus.children, sel);
    var w :| w in ws && w.res in Candidates(bus, sel) && w.bus < bus && Wants(st, w.bus, Behind(sel, w.res), r);
    i :| 0 <= i < |ws| && ws[i] == w;
  }

  lemma {:induction false} PlacedOnIn(st: Store, bus: Bus, bridge: Resource, sel: Selector)
    ensures PlacedOn(st, bus, bridge, sel) <= PlacedIn(st, bus, bridge, sel)
  {
  }

  lemma {:induction false} PlacedBeyondIn(st: Store, bus: Bus, bridge: Resource, i: nat, sel: Selector)
    requires i <= |Windows(bus.children, sel)|
    ensures PlacedBeyond(PlaceLevel(Integers, st, bus, bridge, sel), bus, Windows(bus.children, sel)[..i], sel,
            PlacedOn(st, bus, bridge, sel))
            <= PlacedIn(st, bus, bridge, sel)
  {
    var ws := Windows(bus.children, sel);
    assert ws[..|ws|] == ws;
    BeyondGrows(PlaceLevel(Integers, st, bus, bridge, sel), bus, i, |ws|, sel, PlacedOn(st, bus, bridge, sel));
  }

  lemma {:induction false} WindowHasSize(st: Store, bus: Bus, bridge: Resource, sel: Selector, w: Window, r: Resource)
    requires NoDup(Walk(bus, sel)) && Sized(Integers, st, bus, bridge, sel)
    requires w in Windows(bus.children, sel) && w.res in Candidates(bus, sel)
    requires Wants(st, w.bus, Behind(sel, w.res), r)
    ensures At(st, w.res).size > 0
  {
    WindowSeparate(bus, sel, w);
    if At(st, w.res).size == 0 {
      ZeroSizedWantsNothing(st, w.bus, w.res, Behind(sel, w.res), r);
    }
  }

  lemma {:induction false} CandidatePlaced(st: Store, bus: Bus, bridge: Resource, sel: Selector, r: Resource)
    requires NoDup(Walk(bus, sel)) && Sized(Integers, st, bus, bridge, sel) && Roomy(At(st, bridge), sel)
    requires r in Candidates(bus, sel) && At(st, r).size > 0
    ensures r in PlacedOn(st, bus, bridge, sel)
  {
    var o := Taken(st, bus, sel);
    TakenMembers(st, bus, sel);
    var k :| 0 <= k < |o| && o[k] == r;
    LayoutTranslates(st, bus, bridge, sel, k);
    LayoutStep(st, bus, bridge, sel, k);
  }

  lemma {:induction false} WindowComplete(st: Store, bus: Bus, bridge: Resource, i: nat, sel: Selector, r: Resource)
    requires Separate(bus, bridge, sel) && bridge in st && Covers(st, Walk(bus, sel))
    requires Sized(Integers, st, bus, bridge, sel) && Roomy(At(st, bridge), sel) && i < |Windows(bus.children, sel)|
    requires var w := Windows(bus.children, sel)[i];
             w.bus < bus && w.res in Candidates(bus, sel) && At(st, w.res).size > 0 &&
               Wants(st, w.bus, Behind(sel, w.res), r)
    ensures r in PlacedIn(st, bus, bridge, sel)
    decreases bus, 0, 0
  {
    hide Walk, Wants, Sized, Candidates, Roomy, PlacedOn, PlaceLevel;
    var ws := Windows(bus.children, sel);
    var w := ws[i];
    assert w in ws;
    var mid := PlaceBehind(Integers, PlaceLevel(Integers, st, bus, bridge, sel), bus, ws[..i], sel);
    WindowSeparate(bus, sel, w);
    CandidatePlaced(st, bus, bridge, sel, w.res);
    UntilWindow(st, bus, bridge, i, sel);
    WantsFrame(st, mid, w.bus, Behind(sel, w.res), r);
    PlacingIsComplete(mid, w.bus, w.res, Behind(sel, w.res), r);
    assert ws[..i + 1][..i] == ws[..i];
    PlacedBeyondIn(st, bus, bridge, i + 1, sel);
  }

  lemma {:induction false} PlacedIsRoomy(st: Store, mid: Store, bus: Bus, bridge: Resource, sel: Selector, w: Window)
    requires Separate(bus, bridge, sel) && bridge in st && Covers(st, Walk(bus, sel)) &&
             Sized(Integers, st, bus, bridge, sel)
    requires w in Windows(bus.children, sel) && w.res in PlacedOn(st, bus, bridge, sel)
    requires At(mid, w.res) == At(PlaceLevel(Integers, st, bus, bridge, sel), w.res)
    ensures Roomy(At(mid, w.res), Behind(sel, w.res))
  {
    LevelPlaced(st, bus, bridge, sel, w.res);
    PlaceLevelFrame(Integers, st, bus, bridge, sel);
    WindowSeparate(bus, sel, w);
    TakenMembers(st, bus, sel);
    if sel.kind.Io? {
      AlignedWeaken(At(mid, w.res).base, At(mid, w.res).align, 10);
      Pow2Bound(10);
    }
  }

  /** When the pass gets to a placed window, it finds it sized and roomy. */
  lemma {:induction false} UntilWindow(st: Store, bus: Bus, bridge: Resource, i: nat, sel: Selector)
    requires Separate(bus, bridge, sel) && bridge in st && Covers(st, Walk(bus, sel))
    requires Sized(Integers, st, bus, bridge, sel) && i < |Windows(bus.children, sel)|
    requires Windows(bus.children, sel)[i].res in PlacedOn(st, bus, bridge, sel)
    ensures var ws := Windows(bus.children, sel);
            var w := ws[i];
            var mid := PlaceBehind(Integers, PlaceLevel(Integers, st, bus, bridge, sel), bus, ws[..i], sel);
            && mid.Keys == st.Keys && SameOn(st, mid, Beyond(sel, w))
            && w.bus < bus && Sized(Integers, mid, w.bus, w.res, Behind(sel, w.res)) &&
               Roomy(At(mid, w.res), Behind(sel, w.res))
  {
    hide Walk, PlaceLevel, PlaceBehind, Sized, Windows, Roomy, Level;
    var ws := Windows(bus.children, sel);
    var w := ws[i];
    assert w in ws;
    var st1 := PlaceLevel(Integers, st, bus, bridge, sel);
    PlaceLevelFrame(Integers, st, bus, bridge, sel);
    PlaceBehindFrame(Integers, st1, bus, i, sel);
    var mid := PlaceBehind(Integers, st1, bus, ws[..i], sel);
    WindowSeparate(bus, sel, w);
    LevelPlaced(st, bus, bridge, sel, w.res);
    SizedInside(Integers, st, bus, bridge, sel, w);
    assert SameOn(st, mid, Beyond(sel, w));
    SizedFrame(Integers, st, mid, w.bus, w.res, Behind(sel, w.res));
    PlacedIsRoomy(st, mid, bus, bridge, sel, w);
  }

  lemma {:induction false} BeyondGrows(st: Store, bus: Bus, i: nat, n: nat, sel: Selector, level: set<Resource>)
    requires i <= n <= |Windows(bus.children, sel)|
    ensures var ws := Windows(bus.children, sel);
            PlacedBeyond(st, bus, ws[..i], sel, level) <= PlacedBeyond(st, bus, ws[..n], sel, level)
    decreases n
  {
    var ws := Windows(bus.children, sel);
    if i < n {
      BeyondGrows(st, bus, i, n - 1, sel, level);
      assert ws[..n][..n - 1] == ws[..n - 1];
    }
  }
}

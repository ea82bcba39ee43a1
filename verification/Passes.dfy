/**
 What the two passes of the resource allocator compute, as functions of the record values.
 */
module Passes {
  import opened Alignment
  import opened Resources
  import opened LargestFirst
  import opened Walks

  /** The passes compute with 64-bit words; where no word overflows that is the same as with integers. */
  datatype Arith = Integers | Words

  function Norm(ar: Arith, x: nat): nat {
    if ar.Words? then Wrap(x) else x
  }

  /** The sizing pass, or the placing pass under a bridge whose window ends at `limit`. */
  datatype Pass = Sizing(ar: Arith) | Placing(ar: Arith, limit: nat)

  function Min(a: nat, b: nat): nat { if a <= b then a else b }

  function Max(a: nat, b: nat): nat { if a >= b then a else b }

  /** `round` */
  function Round(ar: Arith, val: nat, pow: nat): nat {
    RoundDown(Norm(ar, val + Pow2(pow) - 1), pow)
  }

  lemma RoundIntegers(val: nat, pow: nat)
    ensures Round(Integers, val, pow) == RoundUp(val, pow)
    ensures val <= Round(Integers, val, pow)
  {
    hide Pow2, RoundDown;
    RoundUpIsLeastMultiple(val, pow);
  }

  /** Past the aliases of legacy cards: the next block of 0x400 may start beyond the last address. */
  function Skip(ar: Arith, cursor: nat): nat {
    if cursor % 0x400 >= 0x100 then Norm(ar, SkipAliases(cursor)) else SkipAliases(cursor)
  }

  /** The first address at or after `cursor` a record may take. */
  function Start(ar: Arith, r: Resource, cursor: nat, rec: Rec): nat {
    Round(ar, if r.kind.Io? then Skip(ar, cursor) else cursor, rec.align)
  }

  predicate Fits(ar: Arith, r: Resource, cursor: nat, rec: Rec, limit: nat) {
    rec.size > 0 && Norm(ar, Start(ar, r, cursor, rec) + rec.size - 1) <= Min(rec.limit, limit)
  }

  /** Where the cursor stands after a record. */
  function Advance(pass: Pass, r: Resource, cursor: nat, rec: Rec): nat {
    if rec.size == 0 then cursor
    else if pass.Sizing? || Fits(pass.ar, r, cursor, rec, pass.limit) then
      Norm(pass.ar, Start(pass.ar, r, cursor, rec) + rec.size)
    else if r.kind.Io? then Skip(pass.ar, cursor)
    else cursor
  }

  /** What becomes of a record. */
  function Update(pass: Pass, r: Resource, cursor: nat, rec: Rec): Rec {
    match pass
    case Sizing(ar) =>
      if rec.size == 0 then rec else rec.(base := Start(ar, r, cursor, rec))
    case Placing(ar, limit) =>
      var lim := Min(rec.limit, limit);
      if rec.size == 0 then
        rec.(base := lim, limit := lim, isAssigned := true)
      else if Fits(ar, r, cursor, rec, limit) then
        var base := Start(ar, r, cursor, rec);
        rec.(base := base, limit := Norm(ar, base + rec.size - 1), isAssigned := true, isStored := false)
      else
        rec.(limit := lim)
  }

  /** The cursor after the records o, taken in order from c0. */
  ghost function Cursor(pass: Pass, st: Store, o: seq<Resource>, c0: nat): nat {
    if o == [] then c0 else
      var x := o[|o| - 1];
      Advance(pass, x, Cursor(pass, st, o[..|o| - 1], c0), At(st, x))
  }

  ghost function Sweep(pass: Pass, st: Store, o: seq<Resource>, c0: nat): Store {
    if o == [] then st else
      var x := o[|o| - 1];
      var rest := o[..|o| - 1];
      Sweep(pass, st, rest, c0)[x := Update(pass, x, Cursor(pass, st, rest, c0), At(st, x))]
  }

  /** The largest alignment and the smallest limit of the nonzero records join the bridge's. */
  ghost function JoinedAlign(st: Store, o: seq<Resource>, align: nat): nat {
    if o == [] then align else
      var rec := At(st, o[|o| - 1]);
      var rest := JoinedAlign(st, o[..|o| - 1], align);
      if rec.size == 0 then rest else Max(rest, rec.align)
  }

  ghost function JoinedLimit(st: Store, o: seq<Resource>, limit: nat): nat {
    if o == [] then limit else
      var rec := At(st, o[|o| - 1]);
      var rest := JoinedLimit(st, o[..|o| - 1], limit);
      if rec.size == 0 then rest else Min(rest, rec.limit)
  }

  /** Subtraction of 64-bit values: below zero it wraps around. */
  function Difference(a: nat, b: nat): nat {
    if a >= b then a - b else (a - b) % 0x1_0000_0000_0000_0000
  }

  ghost function SizedBridge(ar: Arith, b: Rec, st: Store, o: seq<Resource>): Rec {
    var align := JoinedAlign(st, o, b.align);
    var end := Cursor(Sizing(ar), st, o, Round(ar, b.base, b.align));
    b.(align := align, limit := JoinedLimit(st, o, b.limit),
       size := Difference(Round(ar, end, b.gran), Round(ar, b.base, align)))
  }

  /** `compute_resources` */
  ghost function SizeBus(ar: Arith, st: Store, bus: Bus, bridge: Resource, sel: Selector): Store
    decreases bus, 1, 0
  {
    var st1 := SizeBehind(ar, st, bus, Windows(bus.children, sel), sel);
    var o := Taken(st1, bus, sel);
    var b := At(st1, bridge);
    Sweep(Sizing(ar), st1, o, Round(ar, b.base, b.align))[bridge := SizedBridge(ar, b, st1, o)]
  }

  ghost function SizeBehind(ar: Arith, st: Store, bus: Bus, ws: seq<Window>, sel: Selector): Store
    requires forall w :: w in ws ==> w in Windows(bus.children, sel)
    decreases bus, 0, |ws|
  {
    if ws == [] then st else
      var w := ws[|ws| - 1];
      WindowIsSmaller(bus, sel, w);
      SizeBus(ar, SizeBehind(ar, st, bus, ws[..|ws| - 1], sel), w.bus, w.res, Behind(sel, w.res))
  }

  lemma {:induction false} SizeBehindSnoc(ar: Arith, st: Store, bus: Bus, ws: seq<Window>, w: Window, sel: Selector)
    requires ws + [w] <= Windows(bus.children, sel)
    ensures (forall v :: v in ws ==> v in Windows(bus.children, sel)) &&
            (forall v :: v in ws + [w] ==> v in Windows(bus.children, sel))
    ensures SizeBehind(ar, st, bus, ws + [w], sel) == SizeBus(ar, SizeBehind(ar, st, bus, ws, sel), w.bus, w.res,
            Behind(sel, w.res))
  {
    hide SizeBus, Windows, Walk, Behind;
    assert (ws + [w])[|ws|] == w && (ws + [w])[..|ws|] == ws;
  }

  /** The part of `allocate_resources` that deals with the bus itself. */
  ghost function PlaceLevel(ar: Arith, st: Store, bus: Bus, bridge: Resource, sel: Selector): Store {
    var b := At(st, bridge);
    var st1 := Sweep(Placing(ar, b.limit), st, Taken(st, bus, sel), b.base);
    st1[bridge := At(st1, bridge).(isAssigned := true)]
  }

  /** `allocate_resources` */
  ghost function PlaceBus(ar: Arith, st: Store, bus: Bus, bridge: Resource, sel: Selector): Store
    decreases bus, 1, 0
  {
    PlaceBehind(ar, PlaceLevel(ar, st, bus, bridge, sel), bus, Windows(bus.children, sel), sel)
  }

  ghost function PlaceBehind(ar: Arith, st: Store, bus: Bus, ws: seq<Window>, sel: Selector): Store
    requires forall w :: w in ws ==> w in Windows(bus.children, sel)
    decreases bus, 0, |ws|
  {
    if ws == [] then st else
      var w := ws[|ws| - 1];
      WindowIsSmaller(bus, sel, w);
      PlaceBus(ar, PlaceBehind(ar, st, bus, ws[..|ws| - 1], sel), w.bus, w.res, Behind(sel, w.res))
  }

  lemma {:induction false} PlaceBehindSnoc(ar: Arith, st: Store, bus: Bus, ws: seq<Window>, w: Window, sel: Selector)
    requires ws + [w] <= Windows(bus.children, sel)
    ensures (forall v :: v in ws ==> v in Windows(bus.children, sel)) &&
            (forall v :: v in ws + [w] ==> v in Windows(bus.children, sel))
    ensures PlaceBehind(ar, st, bus, ws + [w], sel) == PlaceBus(ar, PlaceBehind(ar, st, bus, ws, sel), w.bus, w.res,
            Behind(sel, w.res))
  {
    hide PlaceBus, Windows, Walk, Behind;
    assert (ws + [w])[|ws|] == w && (ws + [w])[..|ws|] == ws;
  }

  // ----- What a sweep changes -----

  ghost predicate SameOutside(a: Store, b: Store, touched: seq<Resource>) {
    forall r :: r in a && r !in touched ==> At(b, r) == At(a, r)
  }

  ghost predicate Covers(st: Store, s: seq<Resource>) {
    forall r :: r in s ==> r in st
  }

  lemma {:induction false} SweepFrame(pass: Pass, st: Store, o: seq<Resource>, c0: nat)
    requires Covers(st, o)
    ensures Sweep(pass, st, o, c0).Keys == st.Keys
    ensures SameOutside(st, Sweep(pass, st, o, c0), o)
  {
    if o != [] {
      var n := |o| - 1;
      SweepFrame(pass, st, o[..n], c0);
      assert o[n] in o;
    }
  }

  lemma {:induction false} SweepAt(pass: Pass, st: Store, o: seq<Resource>, c0: nat, k: nat)
    requires NoDup(o) && Covers(st, o) && k < |o|
    ensures At(Sweep(pass, st, o, c0), o[k]) == Update(pass, o[k], Cursor(pass, st, o[..k], c0), At(st, o[k]))
  {
    hide Update, Advance;
    var n := |o| - 1;
    SweepFrame(pass, st, o[..n], c0);
    assert o[n] in st && o[n] !in o[..n];
    if k < n {
      hide Cursor;
      SweepAt(pass, st, o[..n], c0, k);
      assert o[..n][..k] == o[..k] && o[k] in o[..n];
    }
  }

  /** Fields no placing step writes; limits only come down. */
  ghost predicate KeptByPlacing(a: Rec, b: Rec) {
    b.size == a.size && b.align == a.align && b.gran == a.gran && b.limit <= a.limit
  }

  /** The order in which a bus is taken: its movable records, largest first. */
  ghost function Taken(st: Store, bus: Bus, sel: Selector): seq<Resource> {
    Order(st, Candidates(bus, sel))
  }

  lemma {:induction false} TakenMembers(st: Store, bus: Bus, sel: Selector)
    requires NoDup(Walk(bus, sel))
    ensures NoDup(Taken(st, bus, sel))
    ensures forall r :: r in Taken(st, bus, sel) ==> r in Candidates(bus, sel)
    ensures forall r :: r in Candidates(bus, sel) ==> r in Taken(st, bus, sel)
    ensures forall r :: r in Taken(st, bus, sel) ==> r in Level(bus.children, sel) && r in Walk(bus, sel)
  {
    var c := Candidates(bus, sel);
    assert NoDup(c) && forall r :: r in c ==> r in Level(bus.children, sel) && r in Walk(bus, sel) by {
      WalkParts(bus, sel);
    }
    OrderMembers(st, c);
    OrderNoDup(st, c);
    forall r | r in Taken(st, bus, sel)
      ensures r in c
    {
    }
  }

  lemma {:induction false} PlaceLevelAt(ar: Arith, st: Store, bus: Bus, bridge: Resource, sel: Selector, k: nat)
    requires Separate(bus, bridge, sel) && bridge in st && Covers(st, Walk(bus, sel))
    requires k < |Taken(st, bus, sel)|
    ensures var o := Taken(st, bus, sel); var b := At(st, bridge);
            At(PlaceLevel(ar, st, bus, bridge, sel), o[k]) ==
            Update(Placing(ar, b.limit), o[k], Cursor(Placing(ar, b.limit), st, o[..k], b.base), At(st, o[k]))
  {
    TakenMembers(st, bus, sel);
    var o, b := Taken(st, bus, sel), At(st, bridge);
    assert o[k] in o;
    SweepAt(Placing(ar, b.limit), st, o, b.base, k);
  }

  lemma {:induction false} PlaceLevelFrame(ar: Arith, st: Store, bus: Bus, bridge: Resource, sel: Selector)
    requires Separate(bus, bridge, sel) && bridge in st && Covers(st, Walk(bus, sel))
    ensures PlaceLevel(ar, st, bus, bridge, sel).Keys == st.Keys
    ensures SameOutside(st, PlaceLevel(ar, st, bus, bridge, sel), [bridge] + Level(bus.children, sel))
    ensures At(PlaceLevel(ar, st, bus, bridge, sel), bridge) == At(st, bridge).(isAssigned := true)
    ensures forall r :: r in st ==> KeptByPlacing(At(st, r), At(PlaceLevel(ar, st, bus, bridge, sel), r))
  {
    var o, b := Taken(st, bus, sel), At(st, bridge);
    assert Covers(st, o) && bridge !in o && forall r :: r in o ==> r in Level(bus.children, sel) by {
      TakenMembers(st, bus, sel);
    }
    SweepFrame(Placing(ar, b.limit), st, o, b.base);
    forall r | r in st
      ensures KeptByPlacing(At(st, r), At(PlaceLevel(ar, st, bus, bridge, sel), r))
    {
      PlaceLevelKeeps(ar, st, bus, bridge, sel, r);
    }
  }

  lemma {:induction false} PlaceLevelKeeps(ar: Arith, st: Store, bus: Bus, bridge: Resource, sel: Selector, r: Resource)
    requires Separate(bus, bridge, sel) && bridge in st && Covers(st, Walk(bus, sel)) && r in st
    ensures KeptByPlacing(At(st, r), At(PlaceLevel(ar, st, bus, bridge, sel), r))
  {
    hide Walk, Taken, Start, Cursor, Norm, Candidates, Update, Fits, Sweep;
    var o, b := Taken(st, bus, sel), At(st, bridge);
    TakenMembers(st, bus, sel);
    SweepFrame(Placing(ar, b.limit), st, o, b.base);
    if r in o {
      var k :| 0 <= k < |o| && o[k] == r;
      PlaceLevelAt(ar, st, bus, bridge, sel, k);
      UpdateKeeps(ar, b.limit, r, Cursor(Placing(ar, b.limit), st, o[..k], b.base), At(st, r));
    }
  }

  lemma UpdateKeeps(ar: Arith, limit: nat, r: Resource, cursor: nat, rec: Rec)
    ensures KeptByPlacing(rec, Update(Placing(ar, limit), r, cursor, rec))
  {
    hide Start;
  }

  /** The placing pass stays on its walk, and leaves the window it works for where it is. */
  lemma {:induction false} PlaceFrame(ar: Arith, st: Store, bus: Bus, bridge: Resource, sel: Selector)
    requires Separate(bus, bridge, sel) && bridge in st && Covers(st, Walk(bus, sel))
    ensures PlaceBus(ar, st, bus, bridge, sel).Keys == st.Keys
    ensures SameOutside(st, PlaceBus(ar, st, bus, bridge, sel), [bridge] + Walk(bus, sel))
    ensures At(PlaceBus(ar, st, bus, bridge, sel), bridge) == At(st, bridge).(isAssigned := true)
    ensures forall r :: r in st ==> KeptByPlacing(At(st, r), At(PlaceBus(ar, st, bus, bridge, sel), r))
    decreases bus, 1, 0
  {
    var st1 := PlaceLevel(ar, st, bus, bridge, sel);
    PlaceLevelFrame(ar, st, bus, bridge, sel);
    WalkParts(bus, sel);
    var ws := Windows(bus.children, sel);
    assert ws[..|ws|] == ws;
    PlaceBehindFrame(ar, st1, bus, |ws|, sel);
  }

  /** `st` after the first n windows: levels keep their place, later windows are untouched. */
  ghost predicate OnlyBehind(st: Store, st': Store, bus: Bus, n: nat, sel: Selector)
    requires n <= |Windows(bus.children, sel)|
  {
    var ws := Windows(bus.children, sel);
    && st'.Keys == st.Keys
    && SameOutside(st, st', Walk(bus, sel))
    && (forall r :: r in Level(bus.children, sel) ==>
          At(st', r) == At(st, r) || At(st', r) == At(st, r).(isAssigned := true))
    && (forall r :: r in st ==> KeptByPlacing(At(st, r), At(st', r)))
    && (forall i :: n <= i < |ws| ==> At(st', ws[i].res) == At(st, ws[i].res) && SameOn(st, st', Beyond(sel, ws[i])))
  }

  ghost predicate SameOn(a: Store, b: Store, s: seq<Resource>) {
    forall r :: r in s ==> At(b, r) == At(a, r)
  }

  lemma PlaceBehindNone(ar: Arith, st: Store, bus: Bus, ws: seq<Window>, sel: Selector)
    requires ws == []
    ensures OnlyBehind(st, PlaceBehind(ar, st, bus, ws, sel), bus, 0, sel)
  {
    hide Walk, Windows, Level;
  }

  lemma {:induction false} PlaceBehindFrame(ar: Arith, st: Store, bus: Bus, n: nat, sel: Selector)
    requires NoDup(Walk(bus, sel)) && Covers(st, Walk(bus, sel))
    requires n <= |Windows(bus.children, sel)|
    ensures OnlyBehind(st, PlaceBehind(ar, st, bus, Windows(bus.children, sel)[..n], sel), bus, n, sel)
    decreases bus, 0, n
  {
    hide Walk, PlaceBus, PlaceBehind, Windows, Level, OnlyBehind;
    var ws := Windows(bus.children, sel);
    if n == 0 {
      PlaceBehindNone(ar, st, bus, ws[..n], sel);
    } else {
      var w := ws[n - 1];
      assert w in ws && ws[..n] == ws[..n - 1] + [w];
      PlaceBehindFrame(ar, st, bus, n - 1, sel);
      var mid := PlaceBehind(ar, st, bus, ws[..n - 1], sel);
      OnlyBehindKeys(st, mid, bus, n - 1, sel);
      WindowSeparate(bus, sel, w);
      PlaceFrame(ar, mid, w.bus, w.res, Behind(sel, w.res));
      PlaceBehindSnoc(ar, st, bus, ws[..n - 1], w, sel);
      OneMoreWindow(st, mid, PlaceBehind(ar, st, bus, ws[..n], sel), bus, n - 1, sel);
    }
  }

  lemma OnlyBehindKeys(st: Store, st': Store, bus: Bus, n: nat, sel: Selector)
    requires n <= |Windows(bus.children, sel)| && OnlyBehind(st, st', bus, n, sel)
    ensures st'.Keys == st.Keys
  {
  }

  lemma {:induction false} OneMoreWindow(st: Store, mid: Store, st': Store, bus: Bus, n: nat, sel: Selector)
    requires NoDup(Walk(bus, sel)) && n < |Windows(bus.children, sel)|
    requires OnlyBehind(st, mid, bus, n, sel)
    requires var w := Windows(bus.children, sel)[n];
             && st'.Keys == mid.Keys && w.res in st
             && SameOutside(mid, st', [w.res] + Beyond(sel, w))
             && At(st', w.res) == At(mid, w.res).(isAssigned := true)
             && forall r :: r in mid ==> KeptByPlacing(At(mid, r), At(st', r))
    ensures OnlyBehind(st, st', bus, n + 1, sel)
  {
    hide Windows, Level, KeptByPlacing, Beyond, Walk;
    var ws := Windows(bus.children, sel);
    var w := ws[n];
    assert w in ws;
    WindowSeparate(bus, sel, w);
    forall i | n + 1 <= i < |ws|
      ensures At(st', ws[i].res) == At(st, ws[i].res) && SameOn(st, st', Beyond(sel, ws[i]))
    {
      WindowsApart(bus, sel, i, n);
    }
    forall r | r in Level(bus.children, sel)
      ensures At(st', r) == At(st, r) || At(st', r) == At(st, r).(isAssigned := true)
    {
      assert r != w.res ==> At(st', r) == At(mid, r);
    }
  }
}

/**
 What the sizing pass establishes: every window is exactly as large as the layout behind
 it, at least as aligned and no less limited than anything it contains.
 */
module SizingPass {
  import opened Alignment
  import opened Resources
  import opened LargestFirst
  import opened Walks
  import opened Passes

  /** The window `bridge` fits the layout of the bus behind it. */
  ghost predicate SizedLevel(ar: Arith, st: Store, bus: Bus, bridge: Resource, sel: Selector) {
    var o, b := Taken(st, bus, sel), At(st, bridge);
    && b.size == Round(ar, Cursor(Sizing(ar), st, o, 0), b.gran)
    && (forall r :: r in o && At(st, r).size > 0 ==> At(st, r).align <= b.align && b.limit <= At(st, r).limit)
  }

  /** Bridges decode I/O addresses in steps of at least 1 KiB. */
  predicate Decodes(b: Rec, sel: Selector) {
    sel.kind.Io? ==> b.align >= 10
  }

  /** So do all windows further down. */
  ghost predicate Sized(ar: Arith, st: Store, bus: Bus, bridge: Resource, sel: Selector)
    decreases bus
  {
    && SizedLevel(ar, st, bus, bridge, sel)
    && (forall w :: w in Windows(bus.children, sel) && w.res in Candidates(bus, sel) ==>
          w.bus < bus && Decodes(At(st, w.res), sel) && Sized(ar, st, w.bus, w.res, Behind(sel, w.res)))
  }

  /** Before sizing: windows start at 0, and I/O windows decode at least 1 KiB. */
  ghost predicate Fresh(st: Store, bus: Bus, sel: Selector)
    decreases bus
  {
    forall w :: w in Windows(bus.children, sel) && w.res in Candidates(bus, sel) ==>
      && w.bus < bus && FreshWindow(At(st, w.res), sel)
      && Fresh(st, w.bus, Behind(sel, w.res))
  }

  predicate FreshWindow(b: Rec, sel: Selector) {
    b.base == 0 && Decodes(b, sel)
  }

  // ----- Frames -----

  /** Everything but the base. */
  ghost predicate SameSizing(a: Store, b: Store, s: seq<Resource>) {
    forall r :: r in s ==> At(a, r).(base := 0, isAssigned := false) == At(b, r).(base := 0, isAssigned := false)
  }

  lemma {:induction false} CursorFrame(pass: Pass, a: Store, b: Store, o: seq<Resource>, c0: nat)
    requires SameSizing(a, b, o)
    ensures Cursor(pass, a, o, c0) == Cursor(pass, b, o, c0)
  {
    if o != [] {
      var x := o[|o| - 1];
      assert x in o;
      AdvanceSame(pass, x, Cursor(pass, a, o[..|o| - 1], c0), At(a, x), At(b, x));
      hide Advance;
      CursorFrame(pass, a, b, o[..|o| - 1], c0);
    }
  }

  lemma AdvanceSame(pass: Pass, x: Resource, cursor: nat, a: Rec, b: Rec)
    requires a.(base := 0, isAssigned := false) == b.(base := 0, isAssigned := false)
    ensures Advance(pass, x, cursor, a) == Advance(pass, x, cursor, b)
  {
    assert a.size == b.size && a.align == b.align && a.limit == b.limit;
    assert Start(pass.ar, x, cursor, a) == Start(pass.ar, x, cursor, b);
    hide Start;
  }

  lemma {:induction false} TakenFrame(a: Store, b: Store, bus: Bus, sel: Selector)
    requires NoDup(Walk(bus, sel)) && SameSizing(a, b, Walk(bus, sel))
    ensures Taken(a, bus, sel) == Taken(b, bus, sel)
    ensures SameSizing(a, b, Taken(a, bus, sel))
  {
    WalkParts(bus, sel);
    TakenMembers(a, bus, sel);
    assert SameKeys(a, b, Candidates(bus, sel)) by {
      forall r | r in Candidates(bus, sel)
        ensures At(a, r).align == At(b, r).align && At(a, r).size == At(b, r).size
      {
        assert At(a, r).(base := 0, isAssigned := false) == At(b, r).(base := 0, isAssigned := false);
      }
    }
    OrderFrame(a, b, Candidates(bus, sel));
  }

  lemma SizedInside(ar: Arith, st: Store, bus: Bus, bridge: Resource, sel: Selector, w: Window)
    requires Sized(ar, st, bus, bridge, sel) && w in Windows(bus.children, sel) && w.res in Candidates(bus, sel)
    ensures w.bus < bus && Sized(ar, st, w.bus, w.res, Behind(sel, w.res))
  {
    hide Windows, Candidates, Taken;
  }

  lemma {:induction false} SizedFrame(ar: Arith, a: Store, b: Store, bus: Bus, bridge: Resource, sel: Selector)
    requires NoDup(Walk(bus, sel)) && Sized(ar, a, bus, bridge, sel)
    requires SameSizing(a, b, Walk(bus, sel)) && KeptByPlacing(At(a, bridge), At(b, bridge))
    ensures Sized(ar, b, bus, bridge, sel)
    decreases bus
  {
    hide Walk, Windows, Candidates, Taken, Cursor, Round;
    TakenFrame(a, b, bus, sel);
    var o := Taken(a, bus, sel);
    CursorFrame(Sizing(ar), a, b, o, 0);
    forall r | r in o && At(b, r).size > 0
      ensures At(b, r).align <= At(b, bridge).align && At(b, bridge).limit <= At(b, r).limit
    {
      assert At(a, r).(base := 0, isAssigned := false) == At(b, r).(base := 0, isAssigned := false);
    }
    forall w | w in Windows(bus.children, sel) && w.res in Candidates(bus, sel)
      ensures w.bus < bus && Decodes(At(b, w.res), sel) && Sized(ar, b, w.bus, w.res, Behind(sel, w.res))
    {
      WindowSeparate(bus, sel, w);
      assert At(a, w.res).(base := 0, isAssigned := false) == At(b, w.res).(base := 0, isAssigned := false);
      SizedFrame(ar, a, b, w.bus, w.res, Behind(sel, w.res));
    }
  }

  lemma {:induction false} FreshFrame(a: Store, b: Store, bus: Bus, sel: Selector)
    requires NoDup(Walk(bus, sel)) && Fresh(a, bus, sel) && SameOn(a, b, Walk(bus, sel))
    ensures Fresh(b, bus, sel)
    decreases bus
  {
    forall w | w in Windows(bus.children, sel) && w.res in Candidates(bus, sel)
      ensures w.bus < bus && FreshWindow(At(b, w.res), sel) && Fresh(b, w.bus, Behind(sel, w.res))
    {
      WindowSeparate(bus, sel, w);
      FreshFrame(a, b, w.bus, Behind(sel, w.res));
    }
  }

  // ----- What the sizing pass changes -----

  lemma {:induction false} JoinedBounds(st: Store, o: seq<Resource>, align: nat, limit: nat)
    ensures JoinedAlign(st, o, align) >= align && JoinedLimit(st, o, limit) <= limit
    ensures forall r :: r in o && At(st, r).size > 0 ==>
              At(st, r).align <= JoinedAlign(st, o, align) && JoinedLimit(st, o, limit) <= At(st, r).limit
  {
    if o != [] {
      var n := |o| - 1;
      JoinedBounds(st, o[..n], align, limit);
      forall r | r in o && At(st, r).size > 0
        ensures At(st, r).align <= JoinedAlign(st, o, align) && JoinedLimit(st, o, limit) <= At(st, r).limit
      {
        assert r == o[n] || r in o[..n];
      }
    }
  }

  /** The sizing of one bus, once everything behind it is sized. */
  ghost function SizeLevel(ar: Arith, st: Store, bus: Bus, bridge: Resource, sel: Selector): Store {
    var o, b := Taken(st, bus, sel), At(st, bridge);
    Sweep(Sizing(ar), st, o, Round(ar, b.base, b.align))[bridge := SizedBridge(ar, b, st, o)]
  }

  lemma {:induction false} SizeLevelFrame(ar: Arith, st: Store, bus: Bus, bridge: Resource, sel: Selector)
    requires Separate(bus, bridge, sel) && bridge in st && Covers(st, Walk(bus, sel))
    ensures SizeLevel(ar, st, bus, bridge, sel).Keys == st.Keys
    ensures SameOutside(st, SizeLevel(ar, st, bus, bridge, sel), [bridge] + Level(bus.children, sel))
    ensures SameSizing(st, SizeLevel(ar, st, bus, bridge, sel), Walk(bus, sel))
    ensures At(SizeLevel(ar, st, bus, bridge, sel), bridge) == SizedBridge(ar, At(st, bridge), st, Taken(st, bus, sel))
  {
    hide Walk, Taken, Round, Start, Cursor, Norm, Wrap;
    var o, b := Taken(st, bus, sel), At(st, bridge);
    TakenMembers(st, bus, sel);
    SweepFrame(Sizing(ar), st, o, Round(ar, b.base, b.align));
    forall r | r in Walk(bus, sel)
      ensures At(st, r).(base := 0, isAssigned := false) ==
              At(SizeLevel(ar, st, bus, bridge, sel), r).(base := 0, isAssigned := false)
    {
      SizeLevelKeeps(ar, st, bus, bridge, sel, r);
    }
  }

  lemma {:induction false} SizeLevelKeeps(ar: Arith, st: Store, bus: Bus, bridge: Resource, sel: Selector, r: Resource)
    requires Separate(bus, bridge, sel) && bridge in st && Covers(st, Walk(bus, sel)) && r in Walk(bus, sel)
    ensures At(st, r).(base := 0, isAssigned := false) ==
            At(SizeLevel(ar, st, bus, bridge, sel), r).(base := 0, isAssigned := false)
  {
    hide Walk, Taken, Round, Start, Cursor, Norm, Wrap, SizedBridge;
    var o, b := Taken(st, bus, sel), At(st, bridge);
    var c0 := Round(ar, b.base, b.align);
    TakenMembers(st, bus, sel);
    SweepFrame(Sizing(ar), st, o, c0);
    if r in o {
      var k :| 0 <= k < |o| && o[k] == r;
      SweepAt(Sizing(ar), st, o, c0, k);
    }
  }

  /** What an outer bus may rely on while an inner one is being sized. */
  ghost predicate OnlySized(st: Store, st': Store, bus: Bus, n: nat, sel: Selector)
    requires n <= |Windows(bus.children, sel)|
  {
    var ws := Windows(bus.children, sel);
    && st'.Keys == st.Keys
    && SameOutside(st, st', Walk(bus, sel))
    && (forall i :: n <= i < |ws| ==> At(st', ws[i].res) == At(st, ws[i].res) && SameOn(st, st', Beyond(sel, ws[i])))
  }

  lemma {:induction false} SizeFrame(ar: Arith, st: Store, bus: Bus, bridge: Resource, sel: Selector)
    requires Separate(bus, bridge, sel) && bridge in st && Covers(st, Walk(bus, sel))
    ensures SizeBus(ar, st, bus, bridge, sel).Keys == st.Keys
    ensures SameOutside(st, SizeBus(ar, st, bus, bridge, sel), [bridge] + Walk(bus, sel))
    ensures At(SizeBus(ar, st, bus, bridge, sel), bridge).base == At(st, bridge).base
    ensures At(SizeBus(ar, st, bus, bridge, sel), bridge).align >= At(st, bridge).align
    decreases bus, 1, 0
  {
    var ws := Windows(bus.children, sel);
    assert ws[..|ws|] == ws;
    SizeBehindFrame(ar, st, bus, |ws|, sel);
    var mid := SizeBehind(ar, st, bus, ws, sel);
    SizeLevelFrame(ar, mid, bus, bridge, sel);
    JoinedBounds(mid, Taken(mid, bus, sel), At(mid, bridge).align, At(mid, bridge).limit);
  }

  lemma SizeBehindNone(ar: Arith, st: Store, bus: Bus, ws: seq<Window>, sel: Selector)
    requires ws == []
    ensures OnlySized(st, SizeBehind(ar, st, bus, ws, sel), bus, 0, sel)
  {
    hide Walk, Windows, Level;
  }

  lemma {:induction false} SizeBehindFrame(ar: Arith, st: Store, bus: Bus, n: nat, sel: Selector)
    requires NoDup(Walk(bus, sel)) && Covers(st, Walk(bus, sel))
    requires n <= |Windows(bus.children, sel)|
    ensures OnlySized(st, SizeBehind(ar, st, bus, Windows(bus.children, sel)[..n], sel), bus, n, sel)
    decreases bus, 0, n
  {
    hide Walk, SizeBus, SizeBehind, Windows, Level, OnlySized;
    var ws := Windows(bus.children, sel);
    if n == 0 {
      SizeBehindNone(ar, st, bus, ws[..n], sel);
    } else {
      var w := ws[n - 1];
      assert w in ws && ws[..n] == ws[..n - 1] + [w];
      SizeBehindFrame(ar, st, bus, n - 1, sel);
      var mid := SizeBehind(ar, st, bus, ws[..n - 1], sel);
      OnlySizedKeys(st, mid, bus, n - 1, sel);
      WindowSeparate(bus, sel, w);
      SizeFrame(ar, mid, w.bus, w.res, Behind(sel, w.res));
      SizeBehindSnoc(ar, st, bus, ws[..n - 1], w, sel);
      OneMoreSized(st, mid, SizeBehind(ar, st, bus, ws[..n], sel), bus, n - 1, sel);
    }
  }

  lemma OnlySizedKeys(st: Store, st': Store, bus: Bus, n: nat, sel: Selector)
    requires n <= |Windows(bus.children, sel)| && OnlySized(st, st', bus, n, sel)
    ensures st'.Keys == st.Keys
  {
  }

  lemma {:induction false} OneMoreSized(st: Store, mid: Store, st': Store, bus: Bus, n: nat, sel: Selector)
    requires NoDup(Walk(bus, sel)) && n < |Windows(bus.children, sel)|
    requires OnlySized(st, mid, bus, n, sel)
    requires var w := Windows(bus.children, sel)[n];
             && st'.Keys == mid.Keys && SameOutside(mid, st', [w.res] + Beyond(sel, w))
    ensures OnlySized(st, st', bus, n + 1, sel)
  {
    hide Windows, Level;
    var ws := Windows(bus.children, sel);
    assert ws[n] in ws;
    WindowSeparate(bus, sel, ws[n]);
    forall i | n + 1 <= i < |ws|
      ensures At(st', ws[i].res) == At(st, ws[i].res) && SameOn(st, st', Beyond(sel, ws[i]))
    {
      WindowsApart(bus, sel, i, n);
      assert ws[i] in ws;
      WindowSeparate(bus, sel, ws[i]);
    }
  }

  // ----- What it establishes -----

  /** After the sizing pass every window below a fresh bridge is exactly sized. */
  lemma {:induction false} SizingEstablishes(ar: Arith, st: Store, bus: Bus, bridge: Resource, sel: Selector)
    requires Separate(bus, bridge, sel) && bridge in st && Covers(st, Walk(bus, sel))
    requires At(st, bridge).base == 0 && Fresh(st, bus, sel)
    ensures Sized(ar, SizeBus(ar, st, bus, bridge, sel), bus, bridge, sel)
    decreases bus, 1, 0
  {
    var ws := Windows(bus.children, sel);
    assert ws[..|ws|] == ws;
    SizeBehindFrame(ar, st, bus, |ws|, sel);
    SizingBehind(ar, st, bus, |ws|, sel);
    var st1 := SizeBehind(ar, st, bus, ws, sel);
    SizeBusSplits(ar, st, bus, bridge, sel);
    hide SizeBus, SizeBehind, Sized, Fresh, SizeLevel, Windows, Walk;
    SizedOnTop(ar, st1, bus, bridge, sel);
  }

  lemma SizeBusSplits(ar: Arith, st: Store, bus: Bus, bridge: Resource, sel: Selector)
    ensures SizeBus(ar, st, bus, bridge, sel) == SizeLevel(ar,
            SizeBehind(ar, st, bus, Windows(bus.children, sel), sel), bus, bridge, sel)
  {
    hide Sweep, SizedBridge, Taken, Windows, Round, SizeBehind, Cursor;
  }

  /** Sizing a bus whose windows are all sized keeps them sized, and sizes the bridge. */
  lemma {:induction false} SizedOnTop(ar: Arith, st1: Store, bus: Bus, bridge: Resource, sel: Selector)
    requires Separate(bus, bridge, sel) && bridge in st1 && Covers(st1, Walk(bus, sel))
    requires At(st1, bridge).base == 0
    requires var ws := Windows(bus.children, sel);
             forall i :: 0 <= i < |ws| && ws[i].res in Candidates(bus, sel) ==>
               Decodes(At(st1, ws[i].res), sel) && Sized(ar, st1, ws[i].bus, ws[i].res, Behind(sel, ws[i].res))
    ensures Sized(ar, SizeLevel(ar, st1, bus, bridge, sel), bus, bridge, sel)
  {
    SizeLevelFrame(ar, st1, bus, bridge, sel);
    SizeLevelEstablishes(ar, st1, bus, bridge, sel);
    hide SizeLevel, SizedLevel, Candidates, Windows, Walk, Sized, SizedBridge, SameOutside;
    WindowsKeptSized(ar, st1, SizeLevel(ar, st1, bus, bridge, sel), bus, bridge, sel);
  }

  lemma {:induction false} WindowsKeptSized(ar: Arith, a: Store, b: Store, bus: Bus, bridge: Resource, sel: Selector)
    requires NoDup(Walk(bus, sel)) && SameSizing(a, b, Walk(bus, sel)) && SizedLevel(ar, b, bus, bridge, sel)
    requires var ws := Windows(bus.children, sel);
             forall i :: 0 <= i < |ws| && ws[i].res in Candidates(bus, sel) ==>
               Decodes(At(a, ws[i].res), sel) && Sized(ar, a, ws[i].bus, ws[i].res, Behind(sel, ws[i].res))
    ensures Sized(ar, b, bus, bridge, sel)
  {
    hide SizedLevel, Candidates, Windows, Walk, SameSizing;
    var ws := Windows(bus.children, sel);
    forall w | w in ws && w.res in Candidates(bus, sel)
      ensures w.bus < bus && Decodes(At(b, w.res), sel) && Sized(ar, b, w.bus, w.res, Behind(sel, w.res))
    {
      hide Sized;
      var i :| 0 <= i < |ws| && ws[i] == w;
      WindowKeptSized(ar, a, b, bus, w, sel);
    }
  }

  lemma {:induction false} WindowKeptSized(ar: Arith, a: Store, b: Store, bus: Bus, w: Window, sel: Selector)
    requires NoDup(Walk(bus, sel)) && w in Windows(bus.children, sel)
    requires Decodes(At(a, w.res), sel) && Sized(ar, a, w.bus, w.res, Behind(sel, w.res)) &&
             SameSizing(a, b, Walk(bus, sel))
    ensures w.bus < bus && Decodes(At(b, w.res), sel) && Sized(ar, b, w.bus, w.res, Behind(sel, w.res))
  {
    hide Sized, Walk, Windows;
    WindowSeparate(bus, sel, w);
    assert At(a, w.res).(base := 0, isAssigned := false) == At(b, w.res).(base := 0, isAssigned := false);
    SizedFrame(ar, a, b, w.bus, w.res, Behind(sel, w.res));
  }

  lemma RoundZero(ar: Arith, pow: nat)
    ensures Round(ar, 0, pow) == 0
  {
    var x := Norm(ar, Pow2(pow) - 1);
    assert x <= Pow2(pow) - 1 by {
      hide Pow2;
      RemainderAtMost(Pow2(pow) - 1, WORDS);
    }
    RoundDownIs(x, pow);
    DivModUnique(x, Pow2(pow), 0, x);
  }

  lemma {:induction false} SizedBridgeFits(ar: Arith, b: Rec, st: Store, o: seq<Resource>)
    requires b.base == 0
    ensures var s := SizedBridge(ar, b, st, o);
            && s.size == Round(ar, Cursor(Sizing(ar), st, o, 0), b.gran) && s.gran == b.gran && s.align >= b.align
            && forall r :: r in o && At(st, r).size > 0 ==> At(st, r).align <= s.align && s.limit <= At(st, r).limit
  {
    RoundZero(ar, b.align);
    RoundZero(ar, JoinedAlign(st, o, b.align));
    JoinedBounds(st, o, b.align, b.limit);
  }

  lemma {:induction false} SizeLevelEstablishes(ar: Arith, st1: Store, bus: Bus, bridge: Resource, sel: Selector)
    requires Separate(bus, bridge, sel) && bridge in st1 && Covers(st1, Walk(bus, sel))
    requires At(st1, bridge).base == 0
    ensures SizedLevel(ar, SizeLevel(ar, st1, bus, bridge, sel), bus, bridge, sel)
  {
    var st2 := SizeLevel(ar, st1, bus, bridge, sel);
    var o, b := Taken(st1, bus, sel), At(st1, bridge);
    SizeLevelFrame(ar, st1, bus, bridge, sel);
    TakenFrame(st1, st2, bus, sel);
    CursorFrame(Sizing(ar), st1, st2, o, 0);
    SizedBridgeFits(ar, b, st1, o);
    assert At(st2, bridge) == SizedBridge(ar, b, st1, o);
    forall r | r in o && At(st2, r).size > 0
      ensures At(st2, r).align <= At(st2, bridge).align && At(st2, bridge).limit <= At(st2, r).limit
    {
      assert At(st1, r).(base := 0, isAssigned := false) == At(st2, r).(base := 0, isAssigned := false);
    }
  }

  lemma {:induction false} SizingBehind(ar: Arith, st: Store, bus: Bus, n: nat, sel: Selector)
    requires NoDup(Walk(bus, sel)) && Covers(st, Walk(bus, sel)) && Fresh(st, bus, sel)
    requires n <= |Windows(bus.children, sel)|
    ensures var ws := Windows(bus.children, sel);
            var st' := SizeBehind(ar, st, bus, ws[..n], sel);
            forall i :: 0 <= i < n && ws[i].res in Candidates(bus, sel) ==>
              Decodes(At(st', ws[i].res), sel) && Sized(ar, st', ws[i].bus, ws[i].res, Behind(sel, ws[i].res))
    decreases bus, 0, n
  {
    hide Sized, SizeBus, SizeBehind, Walk, Candidates, Windows, Level;
    var ws := Windows(bus.children, sel);
    if n > 0 {
      var w := ws[n - 1];
      assert w in ws && ws[..n] == ws[..n - 1] + [w];
      SizeBehindFrame(ar, st, bus, n - 1, sel);
      SizingBehind(ar, st, bus, n - 1, sel);
      var mid := SizeBehind(ar, st, bus, ws[..n - 1], sel);
      var st' := SizeBehind(ar, st, bus, ws[..n], sel);
      WindowSeparate(bus, sel, w);
      SizeBehindSnoc(ar, st, bus, ws[..n - 1], w, sel);
      SizeFrame(ar, mid, w.bus, w.res, Behind(sel, w.res));
      if w.res in Candidates(bus, sel) {
        FreshFrame(st, mid, w.bus, Behind(sel, w.res));
        SizingEstablishes(ar, mid, w.bus, w.res, Behind(sel, w.res));
      }
      forall i | 0 <= i < n - 1 && ws[i].res in Candidates(bus, sel)
        ensures Decodes(At(st', ws[i].res), sel) && Sized(ar, st', ws[i].bus, ws[i].res, Behind(sel, ws[i].res))
      {
        WindowsApart(bus, sel, i, n - 1);
        assert ws[i] in ws;
        WindowSeparate(bus, sel, ws[i]);
        SizedFrame(ar, mid, st', ws[i].bus, ws[i].res, Behind(sel, ws[i].res));
      }
    }
  }
}

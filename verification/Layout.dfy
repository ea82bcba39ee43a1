/**
 What a bridge window is sized for: the records behind it one after the other, largest first,
 each at the least address it may have behind the one before.
 */
module Layout {
  import opened Alignment
  import opened Resources
  import opened LargestFirst
  import opened Walks
  import opened Passes
  import opened SizingPass

  /** a is the least multiple of 2^pow from `from` on. */
  ghost predicate NextMultiple(a: nat, from: nat, pow: nat) {
    a % Pow2(pow) == 0 && from <= a && forall x: nat :: Aligned(x, pow) && from <= x ==> a <= x
  }

  /** Ten-bit decoders see only the first 256 ports of every 1024. */
  predicate Port(x: nat) {
    x % 1024 < 256
  }

  /** u is the least port from `from` on that such a decoder does not take for another one. */
  ghost predicate NextPort(u: nat, from: nat) {
    Port(u) && from <= u && forall x: nat :: Port(x) && from <= x ==> u <= x
  }

  /** The end of the first k records, empty ones left out. */
  ghost function EndOf(st: Store, o: seq<Resource>, k: nat): nat
    requires k <= |o|
  {
    if k == 0 then 0
    else if At(st, o[k - 1]).size == 0 then EndOf(st, o, k - 1)
    else At(st, o[k - 1]).base + At(st, o[k - 1]).size
  }

  /** A record begins at the least address it may have from `from` on. */
  ghost predicate Close(r: Resource, rec: Rec, from: nat) {
    exists u :: (if r.kind.Io? then NextPort(u, from) else u == from) && NextMultiple(rec.base, u, rec.align)
  }

  lemma StartIsClose(r: Resource, from: nat, rec: Rec)
    requires rec.base == Start(Integers, r, from, rec)
    ensures Close(r, rec, from)
  {
    SkipAliasesIsLeast(from);
    hide SkipAliases;
    var u := if r.kind.Io? then Skip(Integers, from) else from;
    assert r.kind.Io? ==> NextPort(u, from) by {
      forall x: nat | Port(x) && from <= x ensures SkipAliases(from) <= x {
      }
    }
    RoundIntegers(u, rec.align);
    RoundUpIsLeastMultiple(u, rec.align);
    hide RoundUp, Pow2, Round;
    assert NextMultiple(rec.base, u, rec.align);
  }

  lemma SameStart(r: Resource, from: nat, rec: Rec, base: nat)
    ensures Start(Integers, r, from, rec.(base := base)) == Start(Integers, r, from, rec)
  {
  }

  /** The sizing sweep lays records close behind each other. */
  lemma {:induction false} SweepIsClose(st: Store, o: seq<Resource>, k: nat)
    requires NoDup(o) && Covers(st, o) && k <= |o|
    ensures var st' := Sweep(Sizing(Integers), st, o, 0);
            && EndOf(st', o, k) == Cursor(Sizing(Integers), st, o[..k], 0)
            && forall j :: 0 <= j < k && At(st', o[j]).size > 0 ==> Close(o[j], At(st', o[j]), EndOf(st', o, j))
  {
    hide Start, Close, Sweep;
    var st' := Sweep(Sizing(Integers), st, o, 0);
    if k > 0 {
      SweepIsClose(st, o, k - 1);
      SweepAt(Sizing(Integers), st, o, 0, k - 1);
      assert o[..k][..k - 1] == o[..k - 1];
      if At(st', o[k - 1]).size > 0 {
        SameStart(o[k - 1], EndOf(st', o, k - 1), At(st, o[k - 1]), At(st', o[k - 1]).base);
        StartIsClose(o[k - 1], EndOf(st', o, k - 1), At(st', o[k - 1]));
      }
    }
  }

  /** The alignment is the largest among the sized records and the window's own, the limit the smallest. */
  ghost predicate Joins(st: Store, o: seq<Resource>, own: Rec, b: Rec) {
    && own.align <= b.align && b.limit <= own.limit
    && (forall r :: r in o && At(st, r).size > 0 ==> At(st, r).align <= b.align && b.limit <= At(st, r).limit)
    && (b.align == own.align || exists r :: r in o && At(st, r).size > 0 && At(st, r).align == b.align)
    && (b.limit == own.limit || exists r :: r in o && At(st, r).size > 0 && At(st, r).limit == b.limit)
  }

  lemma {:induction false} JoinedIsOne(st: Store, o: seq<Resource>, align: nat, limit: nat)
    ensures JoinedAlign(st, o, align) == align ||
            exists r :: r in o && At(st, r).size > 0 && At(st, r).align == JoinedAlign(st, o, align)
    ensures JoinedLimit(st, o, limit) == limit ||
            exists r :: r in o && At(st, r).size > 0 && At(st, r).limit == JoinedLimit(st, o, limit)
  {
    if o != [] {
      var n := |o| - 1;
      JoinedIsOne(st, o[..n], align, limit);
      assert o[n] in o && forall r :: r in o[..n] ==> r in o;
    }
  }

  /** What a window looks like that has been sized for what is behind it. */
  ghost predicate Fitted(st: Store, o: seq<Resource>, own: Rec, b: Rec) {
    && (forall k :: 0 <= k < |o| && At(st, o[k]).size > 0 ==> Close(o[k], At(st, o[k]), EndOf(st, o, k)))
    && NextMultiple(b.size, EndOf(st, o, |o|), b.gran)
    && Joins(st, o, own, b)
  }

  lemma BehindKeepsBridge(st: Store, st1: Store, bus: Bus, bridge: Resource, sel: Selector)
    requires Separate(bus, bridge, sel) && bridge in st && Covers(st, Walk(bus, sel))
    requires OnlySized(st, st1, bus, |Windows(bus.children, sel)|, sel)
    ensures At(st1, bridge) == At(st, bridge) && bridge in st1 && Covers(st1, Walk(bus, sel))
  {
    hide Walk, Windows;
  }

  lemma {:induction false} LevelIsTight(st: Store, bus: Bus, bridge: Resource, sel: Selector)
    requires Separate(bus, bridge, sel) && bridge in st && Covers(st, Walk(bus, sel)) && At(st, bridge).base == 0
    ensures var st' := SizeLevel(Integers, st, bus, bridge, sel);
            && Fitted(st', Taken(st', bus, sel), At(st, bridge), At(st', bridge)) && At(st', bridge).base == 0
            && At(st', bridge).gran == At(st, bridge).gran
  {
    hide Walk, Candidates, Sweep, Cursor, Fitted, Close, Round, Taken;
    var o, st' := Taken(st, bus, sel), SizeLevel(Integers, st, bus, bridge, sel);
    TakenMembers(st, bus, sel);
    SizeLevelFrame(Integers, st, bus, bridge, sel);
    TakenFrame(st, st', bus, sel);
    RoundNothing(At(st, bridge).align);
    SweepIsClose(st, o, |o|);
    assert o[..|o|] == o;
    var swept := Sweep(Sizing(Integers), st, o, 0);
    SameLayout(swept, st', bridge, o);
    BridgeFits(At(st, bridge), st, o);
    JoinsFrame(st, st', o, At(st, bridge), At(st', bridge));
    FittedParts(st', o, At(st, bridge), At(st', bridge));
  }

  lemma RoundNothing(pow: nat)
    ensures Round(Integers, 0, pow) == 0
  {
    RoundIntegers(0, pow);
    RoundUpIsLeastMultiple(0, pow);
    hide RoundUp, Round, Pow2;
    assert Aligned(0, pow);
  }

  /** The record of the bridge does not matter to the layout. */
  lemma SameLayout(a: Store, b: Store, bridge: Resource, o: seq<Resource>)
    requires bridge !in o && bridge in b && b == a[bridge := b[bridge]]
    ensures forall k :: 0 <= k <= |o| ==> EndOf(a, o, k) == EndOf(b, o, k)
    ensures forall k :: 0 <= k < |o| ==> At(a, o[k]) == At(b, o[k])
  {
    forall k | 0 <= k < |o| ensures At(a, o[k]) == At(b, o[k]) {
      assert o[k] in o;
    }
    forall k | 0 <= k <= |o| ensures EndOf(a, o, k) == EndOf(b, o, k) {
      SameEnd(a, b, o, k);
    }
  }

  lemma {:induction false} SameEnd(a: Store, b: Store, o: seq<Resource>, k: nat)
    requires k <= |o| && forall j :: 0 <= j < |o| ==> At(a, o[j]) == At(b, o[j])
    ensures EndOf(a, o, k) == EndOf(b, o, k)
  {
    if k > 0 {
      SameEnd(a, b, o, k - 1);
    }
  }

  lemma BridgeFits(own: Rec, st: Store, o: seq<Resource>)
    requires own.base == 0
    ensures var b := SizedBridge(Integers, own, st, o);
            && b.base == 0 && b.gran == own.gran && Joins(st, o, own, b)
            && NextMultiple(b.size, Cursor(Sizing(Integers), st, o, 0), b.gran)
  {
    hide Cursor, Round, JoinedAlign, JoinedLimit, NextMultiple, Difference;
    JoinedBounds(st, o, own.align, own.limit);
    JoinedIsOne(st, o, own.align, own.limit);
    RoundNothing(own.align);
    RoundNothing(JoinedAlign(st, o, own.align));
    RoundIsNext(Cursor(Sizing(Integers), st, o, 0), own.gran);
  }

  lemma RoundIsNext(val: nat, pow: nat)
    ensures NextMultiple(Round(Integers, val, pow), val, pow)
    ensures Difference(Round(Integers, val, pow), 0) == Round(Integers, val, pow)
  {
    RoundIntegers(val, pow);
    RoundUpIsLeastMultiple(val, pow);
    hide RoundUp, Round, Pow2;
  }

  lemma JoinsFrame(a: Store, b: Store, o: seq<Resource>, own: Rec, w: Rec)
    requires Joins(a, o, own, w) && SameSizing(a, b, o)
    ensures Joins(b, o, own, w)
  {
    forall r | r in o
      ensures At(a, r).size == At(b, r).size && At(a, r).align == At(b, r).align && At(a, r).limit == At(b, r).limit
    {
      assert At(a, r).(base := 0, isAssigned := false) == At(b, r).(base := 0, isAssigned := false);
    }
  }

  lemma FittedParts(st: Store, o: seq<Resource>, own: Rec, b: Rec)
    requires forall k :: 0 <= k < |o| && At(st, o[k]).size > 0 ==> Close(o[k], At(st, o[k]), EndOf(st, o, k))
    requires NextMultiple(b.size, EndOf(st, o, |o|), b.gran) && Joins(st, o, own, b)
    ensures Fitted(st, o, own, b)
  {
    hide Close, NextMultiple, Joins, EndOf;
  }

  // ----- All the way down -----

  /** The window and all enabled, movable windows further down are fitted; `own` has their records before sizing. */
  ghost predicate FittedTree(own: Store, st: Store, bus: Bus, bridge: Resource, sel: Selector)
    decreases bus
  {
    && Fitted(st, Taken(st, bus, sel), At(own, bridge), At(st, bridge)) && At(st, bridge).gran == At(own, bridge).gran
    && forall w :: w in Windows(bus.children, sel) && w.res in Candidates(bus, sel) ==>
         w.bus < bus && FittedTree(own, st, w.bus, w.res, Behind(sel, w.res))
  }

  ghost predicate Unmoved(a: Rec, b: Rec) {
    a.(base := 0) == b.(base := 0)
  }

  lemma FittedSame(a: Store, b: Store, o: seq<Resource>, own: Rec, w: Rec, w': Rec)
    requires Fitted(a, o, own, w) && SameOn(a, b, o) && Unmoved(w, w')
    ensures Fitted(b, o, own, w')
  {
    hide Close, NextMultiple;
    forall j | 0 <= j < |o| ensures At(a, o[j]) == At(b, o[j]) {
      assert o[j] in o;
    }
    forall k | 0 <= k <= |o| ensures EndOf(a, o, k) == EndOf(b, o, k) {
      SameEnd(a, b, o, k);
    }
    JoinsSame(a, b, o, own, w, w');
  }

  lemma JoinsSame(a: Store, b: Store, o: seq<Resource>, own: Rec, w: Rec, w': Rec)
    requires Joins(a, o, own, w) && SameOn(a, b, o) && Unmoved(w, w')
    ensures Joins(b, o, own, w') && w'.size == w.size && w'.gran == w.gran
  {
    assert w'.align == w.align && w'.limit == w.limit && w'.size == w.size && w'.gran == w.gran;
  }

  /** It does not matter where the window is, nor what happens elsewhere. */
  lemma {:induction false} FittedFrame(own: Store, a: Store, b: Store, bus: Bus, bridge: Resource, sel: Selector)
    requires NoDup(Walk(bus, sel)) && FittedTree(own, a, bus, bridge, sel)
    requires SameOn(a, b, Walk(bus, sel)) && Unmoved(At(a, bridge), At(b, bridge))
    ensures FittedTree(own, b, bus, bridge, sel)
    decreases bus
  {
    hide Walk, Windows, Candidates, Taken, Fitted, Behind;
    TakenMembers(a, bus, sel);
    SameTaken(a, b, bus, sel);
    FittedSame(a, b, Taken(a, bus, sel), At(own, bridge), At(a, bridge), At(b, bridge));
    UnmovedGran(At(a, bridge), At(b, bridge));
    forall w | w in Windows(bus.children, sel) && w.res in Candidates(bus, sel)
      ensures w.bus < bus && FittedTree(own, b, w.bus, w.res, Behind(sel, w.res))
    {
      WindowSeparate(bus, sel, w);
      FittedFrame(own, a, b, w.bus, w.res, Behind(sel, w.res));
    }
  }

  lemma UnmovedGran(a: Rec, b: Rec)
    requires Unmoved(a, b)
    ensures a.gran == b.gran
  {
    assert a.(base := 0).gran == b.(base := 0).gran;
  }

  lemma SameTaken(a: Store, b: Store, bus: Bus, sel: Selector)
    requires NoDup(Walk(bus, sel)) && SameOn(a, b, Walk(bus, sel))
    ensures Taken(a, bus, sel) == Taken(b, bus, sel)
  {
    hide Walk, Taken;
    TakenFrame(a, b, bus, sel);
  }

  /** Nor where the records before sizing are looked up. */
  lemma {:induction false} OwnFrame(a: Store, b: Store, st: Store, bus: Bus, bridge: Resource, sel: Selector)
    requires NoDup(Walk(bus, sel)) && FittedTree(a, st, bus, bridge, sel)
    requires SameOn(a, b, Walk(bus, sel)) && At(a, bridge) == At(b, bridge)
    ensures FittedTree(b, st, bus, bridge, sel)
    decreases bus
  {
    hide Walk, Windows, Candidates, Taken, Fitted, Behind;
    forall w | w in Windows(bus.children, sel) && w.res in Candidates(bus, sel)
      ensures w.bus < bus && FittedTree(b, st, w.bus, w.res, Behind(sel, w.res))
    {
      WindowSeparate(bus, sel, w);
      OwnFrame(a, b, st, w.bus, w.res, Behind(sel, w.res));
    }
  }

  /**
   After sizing from base 0, behind the window and behind all windows further down, the movable records of enabled
   devices stand close behind each other, and the window has the size, the alignment and the limit that this takes.
   */
  lemma {:induction false} SizingIsTight(st: Store, bus: Bus, bridge: Resource, sel: Selector)
    requires Separate(bus, bridge, sel) && bridge in st && Covers(st, Walk(bus, sel))
    requires At(st, bridge).base == 0 && Fresh(st, bus, sel)
    ensures FittedTree(st, SizeBus(Integers, st, bus, bridge, sel), bus, bridge, sel)
    decreases bus, 1, 0
  {
    hide Walk, Windows, Candidates, SizedBridge, Fitted, SizeBehind, SizeBus, FittedTree, SizeLevel, Fresh, OnlySized;
    var ws := Windows(bus.children, sel);
    assert ws[..|ws|] == ws;
    SizeBehindFrame(Integers, st, bus, |ws|, sel);
    BehindIsTight(st, bus, |ws|, sel);
    var st1 := SizeBehind(Integers, st, bus, ws, sel);
    BehindKeepsBridge(st, st1, bus, bridge, sel);
    SizeBusSplits(Integers, st, bus, bridge, sel);
    LevelIsTight(st1, bus, bridge, sel);
    TightOnTop(st, st1, bus, bridge, sel);
  }

  lemma {:induction false} TightOnTop(st: Store, st1: Store, bus: Bus, bridge: Resource, sel: Selector)
    requires Separate(bus, bridge, sel) && bridge in st1 && Covers(st1, Walk(bus, sel))
    requires At(st1, bridge).base == 0 && At(st1, bridge) == At(st, bridge)
    requires var st' := SizeLevel(Integers, st1, bus, bridge, sel);
             Fitted(st', Taken(st', bus, sel), At(st1, bridge), At(st', bridge)) &&
             At(st', bridge).gran == At(st1, bridge).gran
    requires var ws := Windows(bus.children, sel);
             forall i :: 0 <= i < |ws| && ws[i].res in Candidates(bus, sel) ==>
               FittedTree(st, st1, ws[i].bus, ws[i].res, Behind(sel, ws[i].res))
    ensures FittedTree(st, SizeLevel(Integers, st1, bus, bridge, sel), bus, bridge, sel)
  {
    hide Walk, Windows, Candidates, SizeLevel, Level, Fitted, Taken, Behind;
    var ws, st' := Windows(bus.children, sel), SizeLevel(Integers, st1, bus, bridge, sel);
    forall w | w in ws && w.res in Candidates(bus, sel)
      ensures w.bus < bus && FittedTree(st, st', w.bus, w.res, Behind(sel, w.res))
    {
      var i :| 0 <= i < |ws| && ws[i] == w;
      WindowSeparate(bus, sel, w);
      LevelLeaves(st1, bus, bridge, sel, w);
      FittedFrame(st, st1, st', w.bus, w.res, Behind(sel, w.res));
    }
  }

  /** Of a window, sizing the level changes only the base, and nothing behind it. */
  lemma LevelLeaves(st: Store, bus: Bus, bridge: Resource, sel: Selector, w: Window)
    requires Separate(bus, bridge, sel) && bridge in st && Covers(st, Walk(bus, sel))
    requires w in Windows(bus.children, sel) && w.res in Candidates(bus, sel)
    ensures var st' := SizeLevel(Integers, st, bus, bridge, sel);
            Unmoved(At(st, w.res), At(st', w.res)) && SameOn(st, st', Walk(w.bus, Behind(sel, w.res)))
  {
    WindowSeparate(bus, sel, w);
    SizeLevelFrame(Integers, st, bus, bridge, sel);
    TakenMembers(st, bus, sel);
    hide Walk, Windows, Candidates, Level, Taken, SizedBridge, Start, Round, Cursor;
    var o, c0 := Taken(st, bus, sel), Round(Integers, At(st, bridge).base, At(st, bridge).align);
    var k :| 0 <= k < |o| && o[k] == w.res;
    SweepFrame(Sizing(Integers), st, o, c0);
    SweepAt(Sizing(Integers), st, o, c0, k);
  }

  lemma {:induction false} BehindIsTight(st: Store, bus: Bus, n: nat, sel: Selector)
    requires NoDup(Walk(bus, sel)) && Covers(st, Walk(bus, sel)) && Fresh(st, bus, sel)
    requires n <= |Windows(bus.children, sel)|
    ensures var ws := Windows(bus.children, sel);
            var st' := SizeBehind(Integers, st, bus, ws[..n], sel);
            forall i :: 0 <= i < n && ws[i].res in Candidates(bus, sel) ==>
              FittedTree(st, st', ws[i].bus, ws[i].res, Behind(sel, ws[i].res))
    decreases bus, 0, n
  {
    hide FittedTree, SizeBus, SizeBehind, Walk, Candidates, Windows, Level;
    var ws := Windows(bus.children, sel);
    if n > 0 {
      var w := ws[n - 1];
      assert w in ws && ws[..n] == ws[..n - 1] + [w];
      SizeBehindFrame(Integers, st, bus, n - 1, sel);
      BehindIsTight(st, bus, n - 1, sel);
      var mid := SizeBehind(Integers, st, bus, ws[..n - 1], sel);
      var st' := SizeBehind(Integers, st, bus, ws[..n], sel);
      WindowSeparate(bus, sel, w);
      SizeBehindSnoc(Integers, st, bus, ws[..n - 1], w, sel);
      SizeFrame(Integers, mid, w.bus, w.res, Behind(sel, w.res));
      if w.res in Candidates(bus, sel) {
        FreshFrame(st, mid, w.bus, Behind(sel, w.res));
        SizingIsTight(mid, w.bus, w.res, Behind(sel, w.res));
        OwnFrame(mid, st, st', w.bus, w.res, Behind(sel, w.res));
      }
      forall i | 0 <= i < n - 1 && ws[i].res in Candidates(bus, sel)
        ensures FittedTree(st, st', ws[i].bus, ws[i].res, Behind(sel, ws[i].res))
      {
        WindowsApart(bus, sel, i, n - 1);
        assert ws[i] in ws;
        WindowSeparate(bus, sel, ws[i]);
        FittedFrame(st, mid, st', ws[i].bus, ws[i].res, Behind(sel, ws[i].res));
      }
    }
  }

  // ----- Placing -----

  /**
   What placing makes of a record behind the address `from`: it is parked, or placed at the least address that it may
   have, or left where it was if it would end too high there; the next one comes behind `to`.
   */
  ghost predicate Handled(r: Resource, rec: Rec, a: Rec, from: nat, to: nat, limit: nat) {
    var highest := Min(rec.limit, limit);
    if rec.size == 0 then a == rec.(base := highest, limit := highest, isAssigned := true) && to == from
    else
      exists base: nat :: Close(r, rec.(base := base), from) &&
        var last := base + rec.size - 1;
        if last <= highest then
          a == rec.(base := base, limit := last, isAssigned := true, isStored := false) && to == last + 1
        else
          a == rec.(limit := highest) && if r.kind.Io? then NextPort(to, from) else to == from
  }

  lemma UpdateHandles(r: Resource, cursor: nat, rec: Rec, limit: nat)
    ensures var pass := Placing(Integers, limit);
            Handled(r, rec, Update(pass, r, cursor, rec), cursor, Advance(pass, r, cursor, rec), limit)
  {
    var base := Start(Integers, r, cursor, rec);
    SameStart(r, cursor, rec, base);
    StartIsClose(r, cursor, rec.(base := base));
    SkipIsNextPort(cursor);
    hide Start, Close, NextPort, Skip;
  }

  lemma SkipIsNextPort(cursor: nat)
    ensures NextPort(Skip(Integers, cursor), cursor)
  {
    SkipAliasesIsLeast(cursor);
    hide SkipAliases;
    forall x: nat | Port(x) && cursor <= x ensures SkipAliases(cursor) <= x {
    }
  }

  /** The records on a bus are handled largest first, from the base of the window on. */
  lemma {:induction false} PlacingIsTight(st: Store, bus: Bus, bridge: Resource, sel: Selector) returns (ends: seq<nat>)
    requires Separate(bus, bridge, sel) && bridge in st && Covers(st, Walk(bus, sel))
    ensures var st', o, b := PlaceLevel(Integers, st, bus, bridge, sel), Taken(st, bus, sel), At(st, bridge);
            && |ends| == |o| + 1 && ends[0] == b.base && At(st', bridge) == b.(isAssigned := true)
            && forall k :: 0 <= k < |o| ==>
                 Handled(o[k], At(st, o[k]), At(st', o[k]), ends[k], ends[k + 1], b.limit)
  {
    hide Walk, PlaceLevel, Taken, Update, Advance, Handled;
    var st', o, b := PlaceLevel(Integers, st, bus, bridge, sel), Taken(st, bus, sel), At(st, bridge);
    var pass := Placing(Integers, b.limit);
    PlaceLevelFrame(Integers, st, bus, bridge, sel);
    ends := seq(|o| + 1, k requires 0 <= k <= |o| => Cursor(pass, st, o[..k], b.base));
    forall k | 0 <= k < |o| ensures Handled(o[k], At(st, o[k]), At(st', o[k]), ends[k], ends[k + 1], b.limit) {
      PlaceLevelAt(Integers, st, bus, bridge, sel, k);
      assert o[..k + 1][..k] == o[..k];
      UpdateHandles(o[k], ends[k], At(st, o[k]), b.limit);
    }
  }

  // ----- Empty records -----

  /** A record of no size is parked at the highest address that it and the window allow, and takes no room there. */
  lemma {:induction false} EmptyIsParked(ar: Arith, st: Store, bus: Bus, bridge: Resource, sel: Selector, r: Resource)
    requires Separate(bus, bridge, sel) && bridge in st && Covers(st, Walk(bus, sel))
    requires r in Candidates(bus, sel) && At(st, r).size == 0
    ensures var a, highest := At(PlaceBus(ar, st, bus, bridge, sel), r), Min(At(st, r).limit, At(st, bridge).limit);
            a.base == highest && a.limit == highest && a.size == 0 && a.isAssigned
  {
    hide Walk, Windows, PlaceLevel, PlaceBehind, Candidates, Taken, Start, Cursor;
    var st1, ws, o := PlaceLevel(ar, st, bus, bridge, sel), Windows(bus.children, sel), Taken(st, bus, sel);
    assert ws[..|ws|] == ws;
    TakenMembers(st, bus, sel);
    var k :| 0 <= k < |o| && o[k] == r;
    PlaceLevelAt(ar, st, bus, bridge, sel, k);
    PlaceLevelFrame(ar, st, bus, bridge, sel);
    PlaceBehindFrame(ar, st1, bus, |ws|, sel);
  }
}

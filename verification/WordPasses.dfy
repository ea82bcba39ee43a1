/**
 Where the passes, which compute with 64-bit words, do what they would do with integers.
 */
module WordPasses {
  import opened Alignment
  import opened Resources
  import opened LargestFirst
  import opened Walks
  import opened Passes
  import opened SizingPass
  import opened PlacingPass

  lemma SmallNorm(ar: Arith, x: nat)
    requires x < WORDS
    ensures Norm(ar, x) == x
  {
  }

  lemma SkipIsSteady(c: nat)
    ensures c <= SkipAliases(c) <= c + 0x300 && SkipAliases(SkipAliases(c)) == SkipAliases(c)
  {
  }

  // ----- Placing -----

  /** Even at `top`, the start and the end of the record are far from the end of the address space. */
  predicate RoomAbove(rec: Rec, top: nat) {
    top + Pow2(rec.align) + rec.size + 0x800 <= WORDS
  }

  /** The cursor is not beyond `top`, except by one alias skip. */
  predicate Near(c: nat, top: nat) {
    c <= top || (c <= top + 0x300 && SkipAliases(c) == c)
  }

  lemma SkipAgrees(c: nat)
    requires SkipAliases(c) < WORDS
    ensures Skip(Words, c) == SkipAliases(c) == Skip(Integers, c)
  {
    SkipIsSteady(c);
    hide SkipAliases, Wrap;
    SmallNorm(Words, SkipAliases(c));
  }

  lemma RoundAgrees(d: nat, pow: nat)
    requires d + Pow2(pow) <= WORDS
    ensures Round(Words, d, pow) == RoundUp(d, pow) == Round(Integers, d, pow)
    ensures d <= RoundUp(d, pow) < d + Pow2(pow)
  {
    RoundUpIsLeastMultiple(d, pow);
    hide Pow2, RoundDown;
    SmallNorm(Words, d + Pow2(pow) - 1);
  }

  lemma StartAgrees(r: Resource, c: nat, rec: Rec, top: nat)
    requires Near(c, top) && RoomAbove(rec, top)
    ensures Start(Words, r, c, rec) == Start(Integers, r, c, rec)
    ensures Start(Words, r, c, rec) + rec.size <= WORDS
    ensures r.kind.Io? ==> Skip(Words, c) == Skip(Integers, c) == SkipAliases(c) <= top + 0x300
  {
    SkipIsSteady(c);
    hide SkipAliases, Pow2, RoundUp, Round, Skip;
    if r.kind.Io? {
      SkipAgrees(c);
      RoundAgrees(SkipAliases(c), rec.align);
    } else {
      RoundAgrees(c, rec.align);
    }
  }

  lemma FitsAgrees(r: Resource, c: nat, rec: Rec, limit: nat, top: nat)
    requires Near(c, top) && RoomAbove(rec, top)
    ensures Fits(Words, r, c, rec, limit) == Fits(Integers, r, c, rec, limit)
  {
    StartAgrees(r, c, rec, top);
    hide Start, Wrap, RoomAbove, Near;
    if rec.size > 0 {
      SmallNorm(Words, Start(Words, r, c, rec) + rec.size - 1);
    }
  }

  lemma StepAgrees(r: Resource, c: nat, rec: Rec, limit: nat, top: nat)
    requires Near(c, top) && limit < top < WORDS && RoomAbove(rec, top)
    ensures Advance(Placing(Words, limit), r, c, rec) == Advance(Placing(Integers, limit), r, c, rec)
    ensures Update(Placing(Words, limit), r, c, rec) == Update(Placing(Integers, limit), r, c, rec)
    ensures Near(Advance(Placing(Integers, limit), r, c, rec), top)
  {
    SkipIsSteady(c);
    StartAgrees(r, c, rec, top);
    FitsAgrees(r, c, rec, limit, top);
    hide Start, Wrap, RoomAbove, Skip, SkipAliases;
    if Fits(Integers, r, c, rec, limit) {
      SmallNorm(Words, Start(Words, r, c, rec) + rec.size - 1);
      SmallNorm(Words, Start(Words, r, c, rec) + rec.size);
    }
  }

  /**
   Every record behind the bridge starts below `top` and has room above it, and so have the
   windows that the pass will not place itself.
   */
  ghost predicate Low(st: Store, bus: Bus, sel: Selector, top: nat)
    decreases bus
  {
    && (forall r :: r in Level(bus.children, sel) ==> RoomAbove(At(st, r), top) && At(st, r).base <= top)
    && (forall w :: w in Windows(bus.children, sel) ==>
          && w.bus < bus && (w.res in Candidates(bus, sel) || At(st, w.res).limit < top)
          && Low(st, w.bus, Behind(sel, w.res), top))
  }

  lemma {:induction false} LowFrame(a: Store, b: Store, bus: Bus, sel: Selector, top: nat)
    requires NoDup(Walk(bus, sel)) && Low(a, bus, sel, top) && SameOn(a, b, Walk(bus, sel))
    ensures Low(b, bus, sel, top)
    decreases bus
  {
    WalkParts(bus, sel);
    hide Walk, Candidates, RoomAbove, Windows, Level;
    forall w | w in Windows(bus.children, sel)
      ensures w.bus < bus && (w.res in Candidates(bus, sel) || At(b, w.res).limit < top)
      ensures Low(b, w.bus, Behind(sel, w.res), top)
    {
      WindowSeparate(bus, sel, w);
      LowFrame(a, b, w.bus, Behind(sel, w.res), top);
    }
  }

  predicate LowWindow(b: Rec, top: nat) {
    b.base <= top && b.limit < top < WORDS
  }

  lemma {:induction false} SweepAgrees(st: Store, o: seq<Resource>, limit: nat, c0: nat, top: nat)
    requires c0 <= top && limit < top < WORDS && forall r :: r in o ==> RoomAbove(At(st, r), top)
    ensures Cursor(Placing(Words, limit), st, o, c0) == Cursor(Placing(Integers, limit), st, o, c0)
    ensures Sweep(Placing(Words, limit), st, o, c0) == Sweep(Placing(Integers, limit), st, o, c0)
    ensures Near(Cursor(Placing(Integers, limit), st, o, c0), top)
  {
    hide Advance, Update, RoomAbove;
    if o != [] {
      var x, rest := o[|o| - 1], o[..|o| - 1];
      assert x in o;
      SweepAgrees(st, rest, limit, c0, top);
      StepAgrees(x, Cursor(Placing(Integers, limit), st, rest, c0), At(st, x), limit, top);
    }
  }

  lemma {:induction false} LevelAgrees(st: Store, bus: Bus, bridge: Resource, sel: Selector, top: nat)
    requires NoDup(Walk(bus, sel)) && LowWindow(At(st, bridge), top) && Low(st, bus, sel, top)
    ensures PlaceLevel(Words, st, bus, bridge, sel) == PlaceLevel(Integers, st, bus, bridge, sel)
  {
    TakenMembers(st, bus, sel);
    hide Walk, Taken, RoomAbove, Sweep;
    SweepAgrees(st, Taken(st, bus, sel), At(st, bridge).limit, At(st, bridge).base, top);
  }

  /** A window of the level is low when the pass gets to it. */
  lemma {:induction false} WindowStaysLow(st: Store, bus: Bus, bridge: Resource, sel: Selector, top: nat, r: Resource)
    requires Separate(bus, bridge, sel) && bridge in st && Covers(st, Walk(bus, sel)) && r in Level(bus.children, sel)
    requires LowWindow(At(st, bridge), top) && Low(st, bus, sel, top)
    requires r in Candidates(bus, sel) || At(st, r).limit < top
    ensures LowWindow(At(PlaceLevel(Integers, st, bus, bridge, sel), r), top)
  {
    var o, b := Taken(st, bus, sel), At(st, bridge);
    TakenMembers(st, bus, sel);
    SweepFrame(Placing(Integers, b.limit), st, o, b.base);
    WalkParts(bus, sel);
    hide Walk, Taken, Sweep, Update, Candidates, Pow2, Cursor, RoomAbove;
    if r in o {
      var k :| 0 <= k < |o| && o[k] == r;
      PlaceLevelAt(Integers, st, bus, bridge, sel, k);
      UpdateStaysLow(r, Cursor(Placing(Integers, b.limit), st, o[..k], b.base), At(st, r), b.limit, top);
    }
  }

  lemma UpdateStaysLow(r: Resource, cursor: nat, rec: Rec, limit: nat, top: nat)
    requires rec.base <= top && limit < top
    ensures var rec' := Update(Placing(Integers, limit), r, cursor, rec); rec'.base <= top && rec'.limit < top
  {
    hide Start;
  }

  /**
   The placing pass does with words what it would do with integers, if there is an address
   `top` above the window such that no record, aligned and placed there, overflows.
   */
  lemma {:induction false} PlaceAgrees(st: Store, bus: Bus, bridge: Resource, sel: Selector, top: nat)
    requires Separate(bus, bridge, sel) && bridge in st && Covers(st, Walk(bus, sel))
    requires LowWindow(At(st, bridge), top) && Low(st, bus, sel, top)
    ensures PlaceBus(Words, st, bus, bridge, sel) == PlaceBus(Integers, st, bus, bridge, sel)
    decreases bus, 1, 0
  {
    var ws := Windows(bus.children, sel);
    LevelAgrees(st, bus, bridge, sel, top);
    assert ws[..|ws|] == ws;
    BehindAgrees(st, bus, bridge, |ws|, sel, top);
  }

  lemma BehindNothing(st1: Store, bus: Bus, ws: seq<Window>, sel: Selector)
    requires ws == []
    ensures PlaceBehind(Words, st1, bus, ws, sel) == PlaceBehind(Integers, st1, bus, ws, sel)
  {
  }

  lemma {:induction false} BehindAgrees(st: Store, bus: Bus, bridge: Resource, n: nat, sel: Selector, top: nat)
    requires Separate(bus, bridge, sel) && bridge in st && Covers(st, Walk(bus, sel))
    requires LowWindow(At(st, bridge), top) && Low(st, bus, sel, top) && n <= |Windows(bus.children, sel)|
    ensures var st1, ws := PlaceLevel(Integers, st, bus, bridge, sel), Windows(bus.children, sel)[..n];
            PlaceBehind(Words, st1, bus, ws, sel) == PlaceBehind(Integers, st1, bus, ws, sel)
    decreases bus, 0, n
  {
    hide *;
    var ws := Windows(bus.children, sel);
    if n == 0 {
      BehindNothing(PlaceLevel(Integers, st, bus, bridge, sel), bus, ws[..n], sel);
    } else {
      var w := ws[n - 1];
      assert w in ws && ws[..n] == ws[..n - 1] + [w];
      BehindAgrees(st, bus, bridge, n - 1, sel, top);
      var st1 := PlaceLevel(Integers, st, bus, bridge, sel);
      WindowReached(st, bus, bridge, n - 1, sel, top);
      PlaceAgrees(PlaceBehind(Integers, st1, bus, ws[..n - 1], sel), w.bus, w.res, Behind(sel, w.res), top);
      BehindStep(st1, bus, ws[..n - 1], w, sel);
    }
  }

  lemma BehindStep(st1: Store, bus: Bus, ws: seq<Window>, w: Window, sel: Selector)
    requires ws + [w] <= Windows(bus.children, sel) && forall v :: v in ws + [w] ==> v in Windows(bus.children, sel)
    requires forall v :: v in ws ==> v in Windows(bus.children, sel)
    requires PlaceBehind(Words, st1, bus, ws, sel) == PlaceBehind(Integers, st1, bus, ws, sel)
    requires var mid := PlaceBehind(Integers, st1, bus, ws, sel);
             PlaceBus(Words, mid, w.bus, w.res, Behind(sel, w.res)) ==
               PlaceBus(Integers, mid, w.bus, w.res, Behind(sel, w.res))
    ensures PlaceBehind(Words, st1, bus, ws + [w], sel) == PlaceBehind(Integers, st1, bus, ws + [w], sel)
  {
    hide PlaceBus, PlaceBehind, Windows;
    PlaceBehindSnoc(Words, st1, bus, ws, w, sel);
    PlaceBehindSnoc(Integers, st1, bus, ws, w, sel);
  }

  lemma {:induction false} WindowReached(st: Store, bus: Bus, bridge: Resource, i: nat, sel: Selector, top: nat)
    requires Separate(bus, bridge, sel) && bridge in st && Covers(st, Walk(bus, sel))
    requires LowWindow(At(st, bridge), top) && Low(st, bus, sel, top) && i < |Windows(bus.children, sel)|
    ensures var ws := Windows(bus.children, sel);
            var w, mid := ws[i], PlaceBehind(Integers, PlaceLevel(Integers, st, bus, bridge, sel), bus, ws[..i], sel);
            && w.bus < bus && Separate(w.bus, w.res, Behind(sel, w.res)) && w.res in mid
            && Covers(mid, Walk(w.bus, Behind(sel, w.res)))
            && LowWindow(At(mid, w.res), top) && Low(mid, w.bus, Behind(sel, w.res), top)
  {
    var ws := Windows(bus.children, sel);
    var w, mid := ws[i], PlaceBehind(Integers, PlaceLevel(Integers, st, bus, bridge, sel), bus, ws[..i], sel);
    assert w in ws;
    WindowSeparate(bus, sel, w);
    ReachedUnchanged(st, bus, bridge, sel, i);
    WindowStaysLow(st, bus, bridge, sel, top, w.res);
    hide PlaceLevel, Windows, Walk, LowWindow, Candidates, Level, RoomAbove;
    LowFrame(st, mid, w.bus, Behind(sel, w.res), top);
  }

  /** What lies behind a window, when the pass gets to it, is as it was. */
  lemma {:induction false} ReachedUnchanged(st: Store, bus: Bus, bridge: Resource, sel: Selector, i: nat)
    requires Separate(bus, bridge, sel) && bridge in st && Covers(st, Walk(bus, sel)) &&
             i < |Windows(bus.children, sel)|
    ensures var w, st1 := Windows(bus.children, sel)[i], PlaceLevel(Integers, st, bus, bridge, sel);
            var mid := PlaceBehind(Integers, st1, bus, Windows(bus.children, sel)[..i], sel);
            && mid.Keys == st.Keys && At(mid, w.res) == At(st1, w.res) && SameOn(st, mid, Beyond(sel, w))
  {
    var ws := Windows(bus.children, sel);
    var w := ws[i];
    assert w in ws;
    WindowSeparate(bus, sel, w);
    PlaceLevelFrame(Integers, st, bus, bridge, sel);
    hide Walk, Windows, Level, PlaceLevel, PlaceBehind;
    PlaceBehindFrame(Integers, PlaceLevel(Integers, st, bus, bridge, sel), bus, i, sel);
  }

  /** So whatever is placed is well placed, */
  lemma PlacingWordsIsSafe(st: Store, bus: Bus, bridge: Resource, sel: Selector, top: nat)
    requires Separate(bus, bridge, sel) && bridge in st && Covers(st, Walk(bus, sel))
    requires LowWindow(At(st, bridge), top) && Low(st, bus, sel, top)
    ensures WellPlaced(PlaceBus(Words, st, bus, bridge, sel), bus, sel, PlacedIn(st, bus, bridge, sel),
                       At(st, bridge).base, At(st, bridge).limit)
  {
    hide WellPlaced, PlacedIn, PlaceBus, Walk, Low;
    PlaceAgrees(st, bus, bridge, sel, top);
    PlacingIsSafe(st, bus, bridge, sel);
  }

  /** and in a window that was sized without overflow and has room, so is everything that asks for an address. */
  lemma PlacingWordsIsComplete(st: Store, bus: Bus, bridge: Resource, sel: Selector, top: nat, r: Resource)
    requires Separate(bus, bridge, sel) && bridge in st && Covers(st, Walk(bus, sel))
    requires LowWindow(At(st, bridge), top) && Low(st, bus, sel, top)
    requires Sized(Words, st, bus, bridge, sel) && Tame(st, bus, bridge, sel) && Roomy(At(st, bridge), sel)
    requires Wants(st, bus, sel, r)
    ensures r in PlacedIn(st, bus, bridge, sel)
    ensures var st' := PlaceBus(Words, st, bus, bridge, sel);
            r in Walk(bus, sel) && Settled(At(st', r))
            && At(st, bridge).base <= At(st', r).base && At(st', r).limit <= At(st, bridge).limit
  {
    hide PlacedIn, PlaceBus, Walk, Low, Sized, Tame, Wants;
    SizedAgrees(st, bus, bridge, sel);
    PlacingWordsIsSafe(st, bus, bridge, sel, top);
    PlacingIsComplete(st, bus, bridge, sel, r);
  }

  // ----- Sizing -----

  /** No running total behind the window overflows a word, even aligned or rounded up. */
  ghost predicate TameLevel(st: Store, bus: Bus, bridge: Resource, sel: Selector) {
    var o := Taken(st, bus, sel);
    var end := Cursor(Sizing(Integers), st, o, 0);
    && end + Pow2(At(st, bridge).gran) <= WORDS
    && forall r :: r in o && At(st, r).size > 0 ==> end + Pow2(At(st, r).align) <= WORDS
  }

  ghost predicate Tame(st: Store, bus: Bus, bridge: Resource, sel: Selector)
    decreases bus
  {
    && TameLevel(st, bus, bridge, sel)
    && forall w :: w in Windows(bus.children, sel) && w.res in Candidates(bus, sel) ==>
         w.bus < bus && Tame(st, w.bus, w.res, Behind(sel, w.res))
  }

  lemma TotalAgrees(r: Resource, c: nat, rec: Rec, end: nat)
    requires rec.size > 0 ==> Advance(Sizing(Integers), r, c, rec) <= end && end + Pow2(rec.align) <= WORDS
    ensures Advance(Sizing(Words), r, c, rec) == Advance(Sizing(Integers), r, c, rec)
  {
    if rec.size > 0 {
      SkipIsSteady(c);
      var d := if r.kind.Io? then SkipAliases(c) else c;
      RoundUpIsLeastMultiple(d, rec.align);
      assert Start(Integers, r, c, rec) == RoundUp(d, rec.align);
      RoundAgrees(d, rec.align);
      if r.kind.Io? {
        SkipAgrees(c);
      }
      hide RoundUp, Round, SkipAliases, Skip, Pow2, Wrap;
      SmallNorm(Words, Start(Integers, r, c, rec) + rec.size);
    }
  }

  lemma {:induction false} CursorAgrees(st: Store, o: seq<Resource>, k: nat)
    requires k <= |o|
    requires var end := Cursor(Sizing(Integers), st, o, 0);
             forall r :: r in o && At(st, r).size > 0 ==> end + Pow2(At(st, r).align) <= WORDS
    ensures Cursor(Sizing(Words), st, o[..k], 0) == Cursor(Sizing(Integers), st, o[..k], 0)
  {
    hide Advance, Pow2;
    if k > 0 {
      CursorAgrees(st, o, k - 1);
      assert o[..k][..k - 1] == o[..k - 1] && o[k - 1] in o && o[..|o|] == o;
      CursorGrows(Sizing(Integers), st, o, 0, k, |o|);
      TotalAgrees(o[k - 1], Cursor(Sizing(Integers), st, o[..k - 1], 0), At(st, o[k - 1]),
        Cursor(Sizing(Integers), st, o, 0));
    }
  }

  /** A tree that was sized with words, and in which no total overflows, is sized as integers would size it. */
  lemma {:induction false} SizedAgrees(st: Store, bus: Bus, bridge: Resource, sel: Selector)
    requires Sized(Words, st, bus, bridge, sel) && Tame(st, bus, bridge, sel)
    ensures Sized(Integers, st, bus, bridge, sel)
    decreases bus
  {
    hide SizedLevel, TameLevel, Windows, Candidates, Walk;
    LevelSizedAgrees(st, bus, bridge, sel);
    forall w | w in Windows(bus.children, sel) && w.res in Candidates(bus, sel)
      ensures w.bus < bus && Decodes(At(st, w.res), sel) && Sized(Integers, st, w.bus, w.res, Behind(sel, w.res))
    {
      SizedInner(st, bus, bridge, sel, w);
      hide Sized, Tame;
      SizedAgrees(st, w.bus, w.res, Behind(sel, w.res));
    }
  }

  lemma SizedInner(st: Store, bus: Bus, bridge: Resource, sel: Selector, w: Window)
    requires Sized(Words, st, bus, bridge, sel) && Tame(st, bus, bridge, sel)
    requires w in Windows(bus.children, sel) && w.res in Candidates(bus, sel)
    ensures w.bus < bus && Decodes(At(st, w.res), sel)
    ensures Sized(Words, st, w.bus, w.res, Behind(sel, w.res)) && Tame(st, w.bus, w.res, Behind(sel, w.res))
  {
    hide SizedLevel, TameLevel, Windows, Candidates;
  }

  lemma LevelSizedAgrees(st: Store, bus: Bus, bridge: Resource, sel: Selector)
    requires SizedLevel(Words, st, bus, bridge, sel) && TameLevel(st, bus, bridge, sel)
    ensures SizedLevel(Integers, st, bus, bridge, sel)
  {
    var o := Taken(st, bus, sel);
    hide Taken, Cursor, Pow2, Round;
    assert o[..|o|] == o;
    CursorAgrees(st, o, |o|);
    RoundAgrees(Cursor(Sizing(Integers), st, o, 0), At(st, bridge).gran);
  }

  // ----- Exactly when one step goes wrong -----

  /** Rounding up ends below where it started exactly if the sum overflows. */
  lemma RoundWrapsIff(d: nat, pow: nat)
    requires d < WORDS && Pow2(pow) <= WORDS
    ensures d <= Round(Words, d, pow) <==> d + Pow2(pow) - 1 < WORDS
  {
    var x := d + Pow2(pow) - 1;
    if x < WORDS {
      RoundAgrees(d, pow);
    } else {
      assert Wrap(x) == x - WORDS;
      RoundDownIsGreatestMultiple(Wrap(x), pow);
    }
    hide Pow2, RoundDown, Wrap;
  }

  /** Skipping the aliases ends below where it started exactly if the next block is beyond the address space. */
  lemma SkipWrapsIff(c: nat)
    requires c < WORDS
    ensures c <= Skip(Words, c) <==> SkipAliases(c) < WORDS
  {
    SkipIsSteady(c);
    if SkipAliases(c) < WORDS {
      SkipAgrees(c);
    } else {
      assert Wrap(SkipAliases(c)) == SkipAliases(c) - WORDS;
    }
  }

  /** Where a record may start at the earliest, aliases skipped, as an integer. */
  function Earliest(r: Resource, c: nat): (d: nat)
    ensures c <= d
  {
    if r.kind.Io? then SkipAliases(c) else c
  }

  lemma StartFromEarliest(r: Resource, c: nat, rec: Rec)
    requires Earliest(r, c) < WORDS
    ensures Start(Words, r, c, rec) == Round(Words, Earliest(r, c), rec.align)
  {
    if r.kind.Io? {
      SkipAgrees(c);
    }
    hide Skip, SkipAliases, Round;
  }

  lemma StartIsWord(r: Resource, c: nat, rec: Rec)
    ensures Start(Words, r, c, rec) < WORDS
  {
    var d := if r.kind.Io? then Skip(Words, c) else c;
    RoundDownIsGreatestMultiple(Norm(Words, d + Pow2(rec.align) - 1), rec.align);
    hide Skip, Pow2, RoundDown;
  }

  /**
   A record that passes the test for the end of the window is really placed at or behind the
   cursor and inside the window exactly if neither its alignment nor its size runs over 2^64.
   */
  lemma FitIsRightIff(r: Resource, c: nat, rec: Rec, limit: nat)
    requires c < WORDS && limit < WORDS && rec.size < WORDS && Pow2(rec.align) <= WORDS
    requires Fits(Words, r, c, rec, limit)
    ensures Earliest(r, c) <= Start(Words, r, c, rec) && Start(Words, r, c, rec) + rec.size - 1 <= limit <==>
            Earliest(r, c) + Pow2(rec.align) - 1 < WORDS && Start(Words, r, c, rec) + rec.size <= WORDS
  {
    StartIsWord(r, c, rec);
    if Earliest(r, c) < WORDS {
      StartFromEarliest(r, c, rec);
      RoundWrapsIff(Earliest(r, c), rec.align);
    }
    hide Start, Earliest, Round, Pow2;
  }

  /** The cursor behind a record that was placed right is behind its start exactly if the end is not 2^64 itself. */
  lemma CursorIsRightIff(r: Resource, c: nat, rec: Rec, limit: nat)
    requires Fits(Words, r, c, rec, limit) && Start(Words, r, c, rec) + rec.size <= WORDS
    ensures Start(Words, r, c, rec) < Advance(Placing(Words, limit), r, c, rec) <==>
            Start(Words, r, c, rec) + rec.size < WORDS
  {
    hide Start;
  }

  // ----- Without room above, words and integers part -----

  lemma Pow30(pow: nat)
    requires pow == 30
    ensures Pow2(pow) == 0x4000_0000
  {
    Pow2Bound(10);
    Pow2Sum(10, 10);
    Pow2Sum(20, 10);
  }

  /**
   A memory window below 2 GiB that needs 3.5 GiB starts, in words, just below 2^64. A bridge
   that needs 3 GiB of it passes the test, because its end wraps around; it is placed beyond the
   window, and the next record after it is tried at 1 GiB.
   */
  lemma WrappedWindowFits(r: Resource, domain: Rec, window: nat, rec: Rec)
    requires r.kind.Mem? && domain.limit == 0x7FFF_FFFF && domain.size == 0xE000_0000 && domain.align == 30
    requires window == RoundDown(Wrap(domain.limit - domain.size + 1), domain.align)
    requires rec.size == 0xC000_0000 && rec.limit == 0xFFFF_FFFF && rec.align == 30
    ensures window == WORDS - 0x8000_0000 && Start(Words, r, window, rec) == window
    ensures Fits(Words, r, window, rec, domain.limit) && !Fits(Integers, r, window, rec, domain.limit)
    ensures Advance(Placing(Words, domain.limit), r, window, rec) == 0x4000_0000
  {
    hide RoundDown, Wrap, Pow2, Start;
    ThirtyBits();
    Round30(Wrap(domain.limit - domain.size + 1), domain.align);
    StartsAtWindow(r, Words, window, rec);
    StartsAtWindow(r, Integers, window, rec);
  }

  lemma StartsAtWindow(r: Resource, ar: Arith, window: nat, rec: Rec)
    requires r.kind.Mem? && rec.align == 30 && window == WORDS - 0x8000_0000
    ensures Start(ar, r, window, rec) == window
  {
    hide Pow2, RoundDown, Wrap;
    ThirtyBits();
    Pow30(rec.align);
    Round30(window + 0x3FFF_FFFF, rec.align);
  }

  lemma Round30(v: nat, pow: nat)
    requires pow == 30
    ensures RoundDown(v, pow) == v - v % 0x4000_0000
  {
    hide Pow2, RoundDown;
    Pow30(pow);
    RoundDownIs(v, pow);
  }

  lemma ThirtyBits()
    ensures Wrap(0x7FFF_FFFF - 0xE000_0000 + 1) == WORDS - 0x6000_0000
    ensures (WORDS - 0x6000_0000) % 0x4000_0000 == 0x2000_0000
    ensures Wrap(WORDS - 0x8000_0000 + 0x3FFF_FFFF) == WORDS - 0x8000_0000 + 0x3FFF_FFFF
    ensures (WORDS - 0x8000_0000 + 0x3FFF_FFFF) % 0x4000_0000 == 0x3FFF_FFFF
    ensures Wrap(WORDS - 0x8000_0000 + 0xC000_0000 - 1) == 0x3FFF_FFFF &&
            Wrap(WORDS - 0x8000_0000 + 0xC000_0000) == 0x4000_0000
  {
  }
}

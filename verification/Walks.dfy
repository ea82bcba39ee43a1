/**
 Which records a pass over one bus can reach. The only assumption made on the tree is that
 a walk meets every record once, and everything below follows from it.
 */
module Walks {
  import opened Resources
  import opened LargestFirst

  lemma {:induction false} NoDupConcat<T>(a: seq<T>, b: seq<T>)
    requires NoDup(a + b)
    ensures NoDup(a) && NoDup(b)
    ensures forall x :: x in a ==> x !in b
  {
    forall i, j | 0 <= i < j < |a| ensures a[i] != a[j] {
      assert (a + b)[i] == a[i] && (a + b)[j] == a[j];
    }
    forall i, j | 0 <= i < j < |b| ensures b[i] != b[j] {
      assert (a + b)[|a| + i] == b[i] && (a + b)[|a| + j] == b[j];
    }
    forall i, j | 0 <= i < |a| && 0 <= j < |b| ensures a[i] != b[j] {
      assert (a + b)[i] == a[i] && (a + b)[|a| + j] == b[j];
    }
  }

  /** The records the sweep of one bus puts in order. */
  ghost function Candidates(bus: Bus, sel: Selector): seq<Resource> {
    Movable(Found(bus.children, sel))
  }

  lemma {:induction false} MovableMembers(rs: seq<Resource>)
    ensures forall r :: r in Movable(rs) ==> r in rs && !r.fixed
    ensures forall r :: r in rs && !r.fixed ==> r in Movable(rs)
  {
    if rs != [] {
      MovableMembers(rs[..|rs| - 1]);
      assert rs == rs[..|rs| - 1] + [rs[|rs| - 1]];
    }
  }

  lemma {:induction false} MovableNoDup(rs: seq<Resource>)
    requires NoDup(rs)
    ensures NoDup(Movable(rs))
  {
    if rs != [] {
      MovableNoDup(rs[..|rs| - 1]);
      MovableMembers(rs[..|rs| - 1]);
    }
  }

  lemma {:induction false} FoundOnLevel(devs: seq<Device>, sel: Selector)
    requires NoDup(Level(devs, sel))
    ensures NoDup(Found(devs, sel))
    ensures forall r :: r in Found(devs, sel) ==> r in Level(devs, sel)
  {
    if devs != [] {
      var rest := devs[..|devs| - 1];
      NoDupConcat(Level(rest, sel), MatchingOn(devs[|devs| - 1].resources, sel));
      FoundOnLevel(rest, sel);
      var a, b := Found(rest, sel), MatchingOn(devs[|devs| - 1].resources, sel);
      forall i, j | 0 <= i < |a| && 0 <= j < |b| ensures a[i] != b[j] {
        assert a[i] in a && a[i] in Level(rest, sel) && b[j] in b;
      }
    }
  }

  ghost predicate DistinctWindows(ws: seq<Window>) {
    forall i, j :: 0 <= i < j < |ws| ==> ws[i].res != ws[j].res
  }

  lemma {:induction false} WindowsOnDistinct(rs: seq<Resource>, links: seq<Bus>, sel: Selector)
    requires NoDup(MatchingOn(rs, sel))
    ensures DistinctWindows(WindowsOn(rs, links, sel))
  {
    if rs != [] {
      var rest := rs[..|rs| - 1];
      NoDupConcat(MatchingOn(rest, sel), if Matches(rs[|rs| - 1], sel) then [rs[|rs| - 1]] else []);
      WindowsOnDistinct(rest, links, sel);
      var a := WindowsOn(rest, links, sel);
      forall i | 0 <= i < |a| ensures a[i].res in MatchingOn(rest, sel) {
        WindowsOnMembers(rest, links, sel, a[i]);
      }
    }
  }

  lemma {:induction false} WindowsDistinct(devs: seq<Device>, sel: Selector)
    requires NoDup(Level(devs, sel))
    ensures DistinctWindows(Windows(devs, sel))
  {
    if devs != [] {
      var rest := devs[..|devs| - 1];
      var d := devs[|devs| - 1];
      NoDupConcat(Level(rest, sel), MatchingOn(d.resources, sel));
      WindowsDistinct(rest, sel);
      WindowsOnDistinct(d.resources, d.links, sel);
      var a, b := Windows(rest, sel), WindowsOn(d.resources, d.links, sel);
      forall i, j | 0 <= i < |a| && 0 <= j < |b| ensures a[i].res != b[j].res {
        var _ := WindowsMembers(rest, sel, a[i]);
        WindowsOnMembers(d.resources, d.links, sel, b[j]);
      }
    }
  }

  /** What lies behind one window. */
  ghost function Beyond(sel: Selector, w: Window): seq<Resource> {
    Walk(w.bus, Behind(sel, w.res))
  }

  lemma {:induction false} WalkBehindParts(bus: Bus, ws: seq<Window>, sel: Selector)
    requires forall w :: w in ws ==> w in Windows(bus.children, sel)
    requires NoDup(WalkBehind(bus, ws, sel))
    ensures forall i :: 0 <= i < |ws| ==> NoDup(Beyond(sel, ws[i]))
    ensures forall i, r :: 0 <= i < |ws| && r in Beyond(sel, ws[i]) ==> r in WalkBehind(bus, ws, sel)
    ensures forall i, j, r :: 0 <= i < j < |ws| && r in Beyond(sel, ws[i]) ==> r !in Beyond(sel, ws[j])
    ensures forall r :: r in WalkBehind(bus, ws, sel) ==> exists i :: 0 <= i < |ws| && r in Beyond(sel, ws[i])
  {
    if ws != [] {
      var n := |ws| - 1;
      var rest := ws[..n];
      NoDupConcat(WalkBehind(bus, rest, sel), Beyond(sel, ws[n]));
      WalkBehindParts(bus, rest, sel);
      forall r | r in WalkBehind(bus, ws, sel)
        ensures exists i :: 0 <= i < |ws| && r in Beyond(sel, ws[i])
      {
        if r !in Beyond(sel, ws[n]) {
          var i :| 0 <= i < |rest| && r in Beyond(sel, rest[i]);
          assert r in Beyond(sel, ws[i]);
        }
      }
      forall i, r | 0 <= i < |ws| && r in Beyond(sel, ws[i])
        ensures r in WalkBehind(bus, ws, sel)
      {
        if i < n {
          assert r in Beyond(sel, rest[i]);
        }
      }
      forall i, j, r | 0 <= i < j < |ws| && r in Beyond(sel, ws[i])
        ensures r !in Beyond(sel, ws[j])
      {
        assert rest[i] == ws[i];
        if j < n {
          assert rest[j] == ws[j];
        }
      }
      forall i | 0 <= i < |ws| ensures NoDup(Beyond(sel, ws[i])) {
        if i < n {
          assert rest[i] == ws[i];
        }
      }
    }
  }

  /** A bridge window `bridge` in front of `bus`; no record is met twice. */
  ghost predicate Separate(bus: Bus, bridge: Resource, sel: Selector) {
    NoDup(Walk(bus, sel)) && bridge !in Walk(bus, sel)
  }

  /** How a separate walk decomposes. */
  lemma {:induction false} WalkParts(bus: Bus, sel: Selector)
    requires NoDup(Walk(bus, sel))
    ensures NoDup(Candidates(bus, sel)) && DistinctWindows(Windows(bus.children, sel))
    ensures forall r :: r in Candidates(bus, sel) ==> r in Level(bus.children, sel)
    ensures forall r :: r in Level(bus.children, sel) ==> r in Walk(bus, sel)
    ensures forall r :: r in WalkBehind(bus, Windows(bus.children, sel), sel) ==> r in Walk(bus, sel)
    ensures forall r :: r in Level(bus.children, sel) ==> r !in WalkBehind(bus, Windows(bus.children, sel), sel)
    ensures NoDup(WalkBehind(bus, Windows(bus.children, sel), sel))
  {
    var level, behind := Level(bus.children, sel), WalkBehind(bus, Windows(bus.children, sel), sel);
    NoDupConcat(level, behind);
    FoundOnLevel(bus.children, sel);
    MovableNoDup(Found(bus.children, sel));
    MovableMembers(Found(bus.children, sel));
    WindowsDistinct(bus.children, sel);
    assert Walk(bus, sel) == level + behind;
    forall r | r in Candidates(bus, sel) ensures r in level {
      assert r in Movable(Found(bus.children, sel));
      assert r in Found(bus.children, sel);
    }
    forall r | r in level ensures r in Walk(bus, sel) {
      assert r in level + behind;
    }
  }

  /** Behind a window the same assumption holds again. */
  lemma {:induction false} WindowSeparate(bus: Bus, sel: Selector, w: Window)
    requires NoDup(Walk(bus, sel)) && w in Windows(bus.children, sel)
    ensures w.bus < bus
    ensures Separate(w.bus, w.res, Behind(sel, w.res))
    ensures w.res in Walk(bus, sel) && w.res in Level(bus.children, sel)
    ensures forall r :: r in Beyond(sel, w) ==> r in Walk(bus, sel) && r !in Level(bus.children, sel)
  {
    WindowIsSmaller(bus, sel, w);
    var _ := WindowsMembers(bus.children, sel, w);
    var ws := Windows(bus.children, sel);
    WalkParts(bus, sel);
    WalkBehindParts(bus, ws, sel);
    var i :| 0 <= i < |ws| && ws[i] == w;
    forall r | r in Beyond(sel, w)
      ensures r in WalkBehind(bus, ws, sel)
    {
      assert r in Beyond(sel, ws[i]);
    }
  }

  /** Two windows of one bus have nothing in common. */
  lemma {:induction false} WindowsApart(bus: Bus, sel: Selector, i: nat, j: nat)
    requires NoDup(Walk(bus, sel))
    requires i < |Windows(bus.children, sel)| && j < |Windows(bus.children, sel)| && i != j
    ensures var ws := Windows(bus.children, sel);
            ws[i].res != ws[j].res &&
            ws[i].res !in Beyond(sel, ws[j]) && ws[j].res !in Beyond(sel, ws[i]) &&
            forall r :: r in Beyond(sel, ws[i]) ==> r !in Beyond(sel, ws[j])
  {
    var ws := Windows(bus.children, sel);
    WalkParts(bus, sel);
    WalkBehindParts(bus, ws, sel);
    assert ws[i] in ws && ws[j] in ws;
    WindowSeparate(bus, sel, ws[i]);
    WindowSeparate(bus, sel, ws[j]);
    if i < j {
    } else {
      forall r | r in Beyond(sel, ws[i]) ensures r !in Beyond(sel, ws[j]) {
      }
    }
  }
}

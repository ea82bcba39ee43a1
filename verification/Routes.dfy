/**
 Where a record stands on the tree, told by positions and by the fields of records and devices
 alone; and what the passes reach, in these terms.
 */
module Routes {
  import opened Options
  import opened Resources
  import opened LargestFirst
  import opened Walks
  import opened Listings
  import opened PlacingPass

  /** Child number `child` of a bus, and record number `record` of that device. */
  datatype Turn = Turn(child: nat, record: nat)

  /** The record at the end of a route: every turn but the last goes through a bridge window to the bus of its link. */
  function RecordAt(bus: Bus, route: seq<Turn>): Option<Resource>
    decreases route
  {
    if route == [] || route[0].child >= |bus.children| then None
    else
      var d := bus.children[route[0].child];
      if route[0].record >= |d.resources| then None
      else
        var r := d.resources[route[0].record];
        if |route| == 1 then Some(r)
        else if r.bridge && r.link < |d.links| then RecordAt(d.links[r.link], route[1..])
        else None
  }

  /** All devices on the route are enabled. */
  predicate Enabled(bus: Bus, route: seq<Turn>)
    decreases route
  {
    route != [] && route[0].child < |bus.children| ==>
      var d := bus.children[route[0].child];
      && d.enabled
      && (|route| > 1 && route[0].record < |d.resources| && d.resources[route[0].record].link < |d.links| ==>
            Enabled(d.links[d.resources[route[0].record].link], route[1..]))
  }

  /** Two records of one kind with the same prefetch flag. */
  predicate Alike(a: Resource, b: Resource) {
    a.kind == b.kind && a.prefetch == b.prefetch
  }

  /** r stands at the end of the route, and all windows on it are of its kind and have its prefetch flag. */
  ghost predicate LeadsTo(bus: Bus, route: seq<Turn>, r: Resource) {
    && RecordAt(bus, route) == Some(r)
    && forall i :: 0 < i < |route| && RecordAt(bus, route[..i]).Some? ==> Alike(RecordAt(bus, route[..i]).value, r)
  }

  /** The windows on the route are not at fixed addresses, and neither is its end. */
  ghost predicate Free(bus: Bus, route: seq<Turn>) {
    forall i :: 0 < i <= |route| && RecordAt(bus, route[..i]).Some? ==> !RecordAt(bus, route[..i]).value.fixed
  }

  /** r needs an address, is movable, and can be reached through enabled devices and movable windows like it. */
  ghost predicate Asks(st: Store, bus: Bus, r: Resource) {
    At(st, r).size > 0 && exists route :: LeadsTo(bus, route, r) && Enabled(bus, route) && Free(bus, route)
  }

  /** q is a window that r stands behind. */
  ghost predicate Under(bus: Bus, q: Resource, r: Resource) {
    exists route, i :: LeadsTo(bus, route, r) && 0 < i < |route| && RecordAt(bus, route[..i]) == Some(q)
  }

  // ----- One turn more -----

  lemma OneTurn(bus: Bus, t: Turn)
    requires t.child < |bus.children| && t.record < |bus.children[t.child].resources|
    ensures RecordAt(bus, [t]) == Some(bus.children[t.child].resources[t.record])
    ensures Enabled(bus, [t]) <==> bus.children[t.child].enabled
  {
  }

  lemma FirstTurn(bus: Bus, route: seq<Turn>)
    requires RecordAt(bus, route).Some?
    ensures route != [] && route[0].child < |bus.children|
    ensures route[0].record < |bus.children[route[0].child].resources|
    ensures RecordAt(bus, route[..1]) == Some(bus.children[route[0].child].resources[route[0].record])
    ensures Enabled(bus, route) ==> bus.children[route[0].child].enabled
    ensures |route| > 1 ==>
              var d := bus.children[route[0].child];
              var w := d.resources[route[0].record];
              && w.bridge && w.link < |d.links| && RecordAt(d.links[w.link], route[1..]) == RecordAt(bus, route)
              && (Enabled(bus, route) ==> Enabled(d.links[w.link], route[1..]))
  {
    OneTurn(bus, route[0]);
    assert route[..1] == [route[0]];
  }

  lemma MoreTurns(bus: Bus, t: Turn, rest: seq<Turn>)
    requires t.child < |bus.children| && t.record < |bus.children[t.child].resources| && rest != []
    requires var d := bus.children[t.child];
             d.resources[t.record].bridge && d.resources[t.record].link < |d.links|
    ensures var d := bus.children[t.child];
            var next := d.links[d.resources[t.record].link];
            && RecordAt(bus, [t] + rest) == RecordAt(next, rest)
            && (Enabled(bus, [t] + rest) <==> d.enabled && Enabled(next, rest))
  {
    var route := [t] + rest;
    assert route[1..] == rest && route[0] == t;
  }

  /** The windows on a longer route are the first one and those on the rest. */
  lemma PartsOfRoute(bus: Bus, t: Turn, rest: seq<Turn>, i: nat)
    requires t.child < |bus.children| && t.record < |bus.children[t.child].resources| && rest != []
    requires var d := bus.children[t.child];
             d.resources[t.record].bridge && d.resources[t.record].link < |d.links|
    requires 0 < i <= |rest| + 1
    ensures var d := bus.children[t.child];
            var w := d.resources[t.record];
            RecordAt(bus, ([t] + rest)[..i]) == if i == 1 then Some(w) else RecordAt(d.links[w.link], rest[..i - 1])
  {
    hide RecordAt, Enabled;
    if i == 1 {
      assert ([t] + rest)[..1] == [t];
      OneTurn(bus, t);
    } else {
      assert ([t] + rest)[..i] == [t] + rest[..i - 1];
      MoreTurns(bus, t, rest[..i - 1]);
    }
  }

  lemma LongerLeads(bus: Bus, t: Turn, rest: seq<Turn>, r: Resource)
    requires t.child < |bus.children| && t.record < |bus.children[t.child].resources| && rest != []
    requires var d := bus.children[t.child];
             d.resources[t.record].bridge && d.resources[t.record].link < |d.links|
    ensures var d := bus.children[t.child];
            var w := d.resources[t.record];
            && (LeadsTo(bus, [t] + rest, r) <==> Alike(w, r) && LeadsTo(d.links[w.link], rest, r))
            && (Free(bus, [t] + rest) <==> !w.fixed && Free(d.links[w.link], rest))
  {
    hide RecordAt, Enabled, Alike;
    var d := bus.children[t.child];
    var w := d.resources[t.record];
    var route, next := [t] + rest, d.links[w.link];
    MoreTurns(bus, t, rest);
    assert route[..|route|] == route && rest[..|rest|] == rest;
    forall i | 0 < i <= |route|
      ensures RecordAt(bus, route[..i]) == if i == 1 then Some(w) else RecordAt(next, rest[..i - 1])
    {
      PartsOfRoute(bus, t, rest, i);
    }
    forall i | 0 < i <= |rest|
      ensures RecordAt(next, rest[..i]) == RecordAt(bus, route[..i + 1])
    {
      PartsOfRoute(bus, t, rest, i + 1);
    }
    assert RecordAt(bus, route[..1]) == Some(w);
  }

  // ----- The lists of the passes, by positions -----

  lemma {:induction false} MatchingAt(rs: seq<Resource>, sel: Selector, r: Resource)
    ensures r in MatchingOn(rs, sel) <==> r in rs && Matches(r, sel)
  {
    MatchingMembers(rs, sel);
  }

  lemma {:induction false} FoundAt(devs: seq<Device>, sel: Selector, r: Resource)
    ensures r in Found(devs, sel) <==>
            Matches(r, sel) && exists i :: 0 <= i < |devs| && devs[i].enabled && r in devs[i].resources
  {
    if devs != [] {
      var n := |devs| - 1;
      FoundAt(devs[..n], sel, r);
      MatchingAt(devs[n].resources, sel, r);
      hide Found, MatchingOn, Matches;
      FoundStep(devs, sel);
      if Matches(r, sel) && exists i :: 0 <= i < n && devs[..n][i].enabled && r in devs[..n][i].resources {
        var i :| 0 <= i < n && devs[..n][i].enabled && r in devs[..n][i].resources;
        assert devs[i] == devs[..n][i];
      }
      if exists i :: 0 <= i < |devs| && devs[i].enabled && r in devs[i].resources {
        var i :| 0 <= i < |devs| && devs[i].enabled && r in devs[i].resources;
        assert i < n ==> devs[..n][i] == devs[i];
      }
    }
  }

  lemma FoundStep(devs: seq<Device>, sel: Selector)
    requires devs != []
    ensures var n := |devs| - 1;
            Found(devs, sel) ==
              Found(devs[..n], sel) + if devs[n].enabled then MatchingOn(devs[n].resources, sel) else []
  {
  }

  lemma {:induction false} LevelAt(devs: seq<Device>, sel: Selector, r: Resource)
    ensures r in Level(devs, sel) <==> Matches(r, sel) && exists i :: 0 <= i < |devs| && r in devs[i].resources
  {
    if devs != [] {
      var n := |devs| - 1;
      LevelAt(devs[..n], sel, r);
      MatchingAt(devs[n].resources, sel, r);
      assert Level(devs, sel) == Level(devs[..n], sel) + MatchingOn(devs[n].resources, sel);
      hide Level, MatchingOn, Matches;
      if Matches(r, sel) && exists i :: 0 <= i < n && r in devs[..n][i].resources {
        var i :| 0 <= i < n && r in devs[..n][i].resources;
        assert devs[i] == devs[..n][i];
      }
      if exists i :: 0 <= i < |devs| && r in devs[i].resources {
        var i :| 0 <= i < |devs| && r in devs[i].resources;
        assert i < n ==> devs[..n][i] == devs[i];
      }
    }
  }

  /** A matching record that a walk meets once stands on one device. */
  lemma {:induction false} OneDevice(devs: seq<Device>, sel: Selector, r: Resource, i: nat, j: nat)
    requires NoDup(Level(devs, sel)) && Matches(r, sel) && i < |devs| && j < |devs|
    requires r in devs[i].resources && r in devs[j].resources
    ensures i == j
    decreases |devs|
  {
    var n := |devs| - 1;
    assert Level(devs, sel) == Level(devs[..n], sel) + MatchingOn(devs[n].resources, sel);
    NoDupConcat(Level(devs[..n], sel), MatchingOn(devs[n].resources, sel));
    MatchingAt(devs[n].resources, sel, r);
    LevelAt(devs[..n], sel, r);
    hide Level, MatchingOn, Matches, NoDup;
    assert i < n ==> devs[..n][i] == devs[i];
    assert j < n ==> devs[..n][j] == devs[j];
    if i < n && j < n {
      OneDevice(devs[..n], sel, r, i, j);
    }
  }

  /** The place of a window on its bus. */
  predicate WindowAt(devs: seq<Device>, t: Turn, w: Window) {
    && t.child < |devs| && t.record < |devs[t.child].resources|
    && w.res == devs[t.child].resources[t.record] && w.res.bridge
    && w.res.link < |devs[t.child].links| && w.bus == devs[t.child].links[w.res.link]
  }

  lemma {:induction false} WindowsOnAt(rs: seq<Resource>, links: seq<Bus>, sel: Selector, w: Window)
    ensures w in WindowsOn(rs, links, sel) <==>
            w.res in rs && w.res.bridge && Matches(w.res, sel) && w.res.link < |links| && w.bus == links[w.res.link]
  {
    hide Matches;
    if rs != [] {
      WindowsOnAt(rs[..|rs| - 1], links, sel, w);
      assert rs == rs[..|rs| - 1] + [rs[|rs| - 1]];
    }
  }

  lemma {:induction false} WindowsAt(devs: seq<Device>, sel: Selector, w: Window)
    ensures w in Windows(devs, sel) <==> Matches(w.res, sel) && exists t :: WindowAt(devs, t, w)
  {
    if devs != [] {
      var n := |devs| - 1;
      WindowsAt(devs[..n], sel, w);
      WindowsOnAt(devs[n].resources, devs[n].links, sel, w);
      assert Windows(devs, sel) == Windows(devs[..n], sel) + WindowsOn(devs[n].resources, devs[n].links, sel);
      hide Windows, WindowsOn, Matches;
      if exists t :: WindowAt(devs[..n], t, w) {
        var t :| WindowAt(devs[..n], t, w);
        assert WindowAt(devs, t, w);
      }
      if exists t :: WindowAt(devs, t, w) {
        var t :| WindowAt(devs, t, w);
        assert t.child < n ==> WindowAt(devs[..n], t, w);
      }
      if w in WindowsOn(devs[n].resources, devs[n].links, sel) {
        var k :| 0 <= k < |devs[n].resources| && devs[n].resources[k] == w.res;
        assert WindowAt(devs, Turn(n, k), w);
      }
    }
  }

  // ----- What a walk meets -----

  lemma WalkSplits(bus: Bus, sel: Selector, r: Resource)
    requires NoDup(Walk(bus, sel))
    ensures r in Walk(bus, sel) <==>
            r in Level(bus.children, sel) || exists w :: w in Windows(bus.children, sel) && r in Beyond(sel, w)
  {
    var ws := Windows(bus.children, sel);
    WalkParts(bus, sel);
    WalkBehindParts(bus, ws, sel);
    assert Walk(bus, sel) == Level(bus.children, sel) + WalkBehind(bus, ws, sel);
    hide Walk, Windows, Level, WalkBehind;
    if r in WalkBehind(bus, ws, sel) {
      var i :| 0 <= i < |ws| && r in Beyond(sel, ws[i]);
      assert ws[i] in ws;
    }
    if exists w :: w in ws && r in Beyond(sel, w) {
      var w :| w in ws && r in Beyond(sel, w);
      var i :| 0 <= i < |ws| && ws[i] == w;
      assert r in Beyond(sel, ws[i]);
    }
  }

  lemma LevelRoute(bus: Bus, sel: Selector, r: Resource) returns (route: seq<Turn>)
    requires r in Level(bus.children, sel)
    ensures LeadsTo(bus, route, r) && Matches(r, sel) && |route| == 1
  {
    LevelAt(bus.children, sel, r);
    var i :| 0 <= i < |bus.children| && r in bus.children[i].resources;
    var k :| 0 <= k < |bus.children[i].resources| && bus.children[i].resources[k] == r;
    route := [Turn(i, k)];
  }

  /** The route to a record behind a window, from the route on the bus behind it. */
  lemma ThroughWindow(bus: Bus, sel: Selector, w: Window, t: Turn, rest: seq<Turn>, r: Resource)
    requires Matches(w.res, sel) && WindowAt(bus.children, t, w)
    requires LeadsTo(w.bus, rest, r) && Matches(r, Behind(sel, w.res))
    ensures LeadsTo(bus, [t] + rest, r) && Matches(r, sel) && |rest| > 0
  {
    hide RecordAt, Enabled;
    RouteHasEnd(w.bus, rest);
    LongerLeads(bus, t, rest, r);
  }

  lemma RouteHasEnd(bus: Bus, route: seq<Turn>)
    ensures RecordAt(bus, route).Some? ==> |route| > 0
  {
  }

  lemma {:induction false} WalkRoute(bus: Bus, sel: Selector, r: Resource) returns (route: seq<Turn>)
    requires NoDup(Walk(bus, sel)) && r in Walk(bus, sel)
    ensures LeadsTo(bus, route, r) && Matches(r, sel)
    decreases bus
  {
    hide Walk, Windows, Level, LeadsTo, Matches, WindowAt, Behind;
    WalkSplits(bus, sel, r);
    if r in Level(bus.children, sel) {
      route := LevelRoute(bus, sel, r);
    } else {
      var w :| w in Windows(bus.children, sel) && r in Beyond(sel, w);
      WindowSeparate(bus, sel, w);
      var rest := WalkRoute(w.bus, Behind(sel, w.res), r);
      WindowsAt(bus.children, sel, w);
      var t :| WindowAt(bus.children, t, w);
      ThroughWindow(bus, sel, w, t, rest, r);
      route := [t] + rest;
    }
  }

  /** The first window of a route that leads to a matching record. */
  lemma FirstWindow(bus: Bus, sel: Selector, route: seq<Turn>, r: Resource) returns (w: Window)
    requires LeadsTo(bus, route, r) && Matches(r, sel) && |route| > 1
    ensures WindowAt(bus.children, route[0], w) && w in Windows(bus.children, sel) && Matches(w.res, sel)
    ensures LeadsTo(w.bus, route[1..], r) && Matches(r, Behind(sel, w.res)) && RecordAt(bus, route[..1]) == Some(w.res)
    ensures Enabled(bus, route) ==> bus.children[route[0].child].enabled && Enabled(w.bus, route[1..])
    ensures Free(bus, route) ==> !w.res.fixed && Free(w.bus, route[1..])
  {
    FirstTurn(bus, route);
    hide RecordAt, Enabled;
    var t := route[0];
    var d := bus.children[t.child];
    w := Window(d.resources[t.record], d.links[d.resources[t.record].link]);
    assert route == [t] + route[1..];
    LongerLeads(bus, t, route[1..], r);
    WindowsAt(bus.children, sel, w);
    assert WindowAt(bus.children, t, w);
  }

  lemma {:induction false} RouteWalk(bus: Bus, sel: Selector, route: seq<Turn>, r: Resource)
    requires NoDup(Walk(bus, sel)) && LeadsTo(bus, route, r) && Matches(r, sel)
    ensures r in Walk(bus, sel)
    decreases bus
  {
    hide Walk, Windows, Level, WindowAt, Behind;
    WalkSplits(bus, sel, r);
    FirstTurn(bus, route);
    if |route| == 1 {
      assert route[..1] == route;
      LevelAt(bus.children, sel, r);
    } else {
      var w := FirstWindow(bus, sel, route, r);
      WindowSeparate(bus, sel, w);
      RouteWalk(w.bus, Behind(sel, w.res), route[1..], r);
    }
  }

  /** A walk meets exactly the matching records to which windows like them lead. */
  lemma {:induction false} WalkIff(bus: Bus, sel: Selector, r: Resource)
    requires NoDup(Walk(bus, sel))
    ensures r in Walk(bus, sel) <==> Matches(r, sel) && exists route :: LeadsTo(bus, route, r)
  {
    hide Walk, LeadsTo, Matches;
    if r in Walk(bus, sel) {
      var route := WalkRoute(bus, sel, r);
    }
    if Matches(r, sel) && exists route :: LeadsTo(bus, route, r) {
      var route :| LeadsTo(bus, route, r);
      RouteWalk(bus, sel, route, r);
    }
  }

  // ----- Which windows are above a record -----

  lemma {:induction false} BeneathRoute(bus: Bus, sel: Selector, q: Resource, r: Resource)
    returns (route: seq<Turn>, i: nat)
    requires NoDup(Walk(bus, sel)) && Beneath(bus, sel, q, r)
    ensures LeadsTo(bus, route, r) && Matches(r, sel) && 0 < i < |route| && RecordAt(bus, route[..i]) == Some(q)
    decreases bus
  {
    hide Walk, Windows, RecordAt, Enabled, LeadsTo, Matches, Behind;
    var w :| w in Windows(bus.children, sel) && w.bus < bus &&
      ((w.res == q && r in Beyond(sel, w)) || Beneath(w.bus, Behind(sel, w.res), q, r));
    WindowSeparate(bus, sel, w);
    WindowsAt(bus.children, sel, w);
    var t :| WindowAt(bus.children, t, w);
    var rest: seq<Turn>;
    if w.res == q && r in Beyond(sel, w) {
      rest := WalkRoute(w.bus, Behind(sel, w.res), r);
      i := 1;
    } else {
      rest, i := BeneathRoute(w.bus, Behind(sel, w.res), q, r);
      i := i + 1;
    }
    ThroughWindow(bus, sel, w, t, rest, r);
    PartsOfRoute(bus, t, rest, i);
    route := [t] + rest;
  }

  lemma {:induction false} RouteBeneath(bus: Bus, sel: Selector, route: seq<Turn>, i: nat, q: Resource, r: Resource)
    requires NoDup(Walk(bus, sel)) && LeadsTo(bus, route, r) && Matches(r, sel)
    requires 0 < i < |route| && RecordAt(bus, route[..i]) == Some(q)
    ensures Beneath(bus, sel, q, r)
    decreases bus
  {
    hide Walk, Windows, RecordAt, Enabled, Matches, Behind, WindowAt;
    var w := FirstWindow(bus, sel, route, r);
    WindowSeparate(bus, sel, w);
    if i == 1 {
      RouteWalk(w.bus, Behind(sel, w.res), route[1..], r);
    } else {
      var t, rest := route[0], route[1..];
      assert [t] + rest == route;
      WindowPlace(bus.children, t, w);
      RouteHasEnd(w.bus, rest);
      PartsOfRoute(bus, t, rest, i);
      RouteBeneath(w.bus, Behind(sel, w.res), rest, i - 1, q, r);
    }
  }

  lemma WindowPlace(devs: seq<Device>, t: Turn, w: Window)
    requires WindowAt(devs, t, w)
    ensures t.child < |devs| && t.record < |devs[t.child].resources|
    ensures w.res == devs[t.child].resources[t.record] && w.res.bridge
    ensures w.res.link < |devs[t.child].links| && w.bus == devs[t.child].links[w.res.link]
  {
  }

  /**
   The windows of a pass that a record lies behind are the windows on the way to it, and they all
   have its kind and its prefetch flag.
   */
  lemma {:induction false} BeneathIff(bus: Bus, sel: Selector, q: Resource, r: Resource)
    requires NoDup(Walk(bus, sel))
    ensures Beneath(bus, sel, q, r) <==> Matches(r, sel) && Under(bus, q, r)
    ensures Beneath(bus, sel, q, r) ==> r.kind == q.kind && r.prefetch == q.prefetch && q.bridge
  {
    hide Walk, RecordAt, Enabled, Matches;
    if Beneath(bus, sel, q, r) {
      var route, i := BeneathRoute(bus, sel, q, r);
      BridgeOnRoute(bus, route, i);
    }
    if Matches(r, sel) && Under(bus, q, r) {
      var route, i :| LeadsTo(bus, route, r) && 0 < i < |route| && RecordAt(bus, route[..i]) == Some(q);
      RouteBeneath(bus, sel, route, i, q, r);
    }
  }

  lemma {:induction false} BridgeOnRoute(bus: Bus, route: seq<Turn>, i: nat)
    requires RecordAt(bus, route).Some? && 0 < i < |route| && RecordAt(bus, route[..i]).Some?
    ensures RecordAt(bus, route[..i]).value.bridge
    decreases i
  {
    FirstTurn(bus, route);
    hide RecordAt, Enabled;
    if i > 1 {
      var t, rest := route[0], route[1..];
      var d := bus.children[t.child];
      assert [t] + rest == route;
      PartsOfRoute(bus, t, rest, i);
      BridgeOnRoute(d.links[d.resources[t.record].link], rest, i - 1);
    }
  }

  // ----- Who asks for an address -----

  lemma CandidateAt(bus: Bus, sel: Selector, r: Resource)
    ensures r in Candidates(bus, sel) <==>
            Matches(r, sel) && !r.fixed &&
              exists i :: 0 <= i < |bus.children| && bus.children[i].enabled && r in bus.children[i].resources
  {
    MovableMembers(Found(bus.children, sel));
    FoundAt(bus.children, sel, r);
  }

  lemma CandidateRoute(bus: Bus, sel: Selector, r: Resource) returns (route: seq<Turn>)
    requires r in Candidates(bus, sel)
    ensures LeadsTo(bus, route, r) && Matches(r, sel) && Enabled(bus, route) && Free(bus, route) && |route| == 1
  {
    CandidateAt(bus, sel, r);
    var i :| 0 <= i < |bus.children| && bus.children[i].enabled && r in bus.children[i].resources;
    var k :| 0 <= k < |bus.children[i].resources| && bus.children[i].resources[k] == r;
    route := [Turn(i, k)];
    assert route[..1] == route;
  }

  lemma {:induction false} WantsRoute(st: Store, bus: Bus, sel: Selector, r: Resource) returns (route: seq<Turn>)
    requires NoDup(Walk(bus, sel)) && Wants(st, bus, sel, r)
    ensures LeadsTo(bus, route, r) && Matches(r, sel) && Enabled(bus, route) && Free(bus, route) && At(st, r).size > 0
    decreases bus
  {
    hide Walk, Windows, Candidates, LeadsTo, Enabled, Free, Matches, Behind;
    if r in Candidates(bus, sel) && At(st, r).size > 0 {
      route := CandidateRoute(bus, sel, r);
    } else {
      var i := WantedVia(st, bus, sel, r);
      var w := Windows(bus.children, sel)[i];
      WindowSeparate(bus, sel, w);
      var rest := WantsRoute(st, w.bus, Behind(sel, w.res), r);
      var t := WindowTurn(bus, sel, w);
      ThroughWindow(bus, sel, w, t, rest, r);
      ThroughOpen(bus, w, t, rest);
      route := [t] + rest;
    }
  }

  /** The place of a movable window on an enabled device. */
  lemma WindowTurn(bus: Bus, sel: Selector, w: Window) returns (t: Turn)
    requires NoDup(Walk(bus, sel)) && w in Windows(bus.children, sel) && w.res in Candidates(bus, sel)
    ensures WindowAt(bus.children, t, w) && Matches(w.res, sel)
    ensures !w.res.fixed && t.child < |bus.children| && bus.children[t.child].enabled
  {
    WindowsAt(bus.children, sel, w);
    CandidateAt(bus, sel, w.res);
    hide Windows, Candidates, Matches;
    t :| WindowAt(bus.children, t, w);
    var i :| 0 <= i < |bus.children| && bus.children[i].enabled && w.res in bus.children[i].resources;
    LevelOnce(bus, sel);
    OneDevice(bus.children, sel, w.res, i, t.child);
  }

  lemma LevelOnce(bus: Bus, sel: Selector)
    requires NoDup(Walk(bus, sel))
    ensures NoDup(Level(bus.children, sel))
  {
    NoDupConcat(Level(bus.children, sel), WalkBehind(bus, Windows(bus.children, sel), sel));
  }

  lemma ThroughOpen(bus: Bus, w: Window, t: Turn, rest: seq<Turn>)
    requires WindowAt(bus.children, t, w) && rest != [] && bus.children[t.child].enabled && !w.res.fixed
    requires Enabled(w.bus, rest) && Free(w.bus, rest)
    ensures Enabled(bus, [t] + rest) && Free(bus, [t] + rest)
  {
    hide RecordAt, Enabled, Free;
    MoreTurns(bus, t, rest);
    LongerLeads(bus, t, rest, w.res);
  }

  lemma {:induction false} RouteWants(st: Store, bus: Bus, sel: Selector, route: seq<Turn>, r: Resource)
    requires NoDup(Walk(bus, sel)) && LeadsTo(bus, route, r) && Matches(r, sel)
    requires Enabled(bus, route) && Free(bus, route) && At(st, r).size > 0
    ensures Wants(st, bus, sel, r)
    decreases bus
  {
    FirstTurn(bus, route);
    hide Walk, Windows, Candidates, RecordAt, Enabled, Matches, Behind, WindowAt;
    var d := bus.children[route[0].child];
    CandidateAt(bus, sel, d.resources[route[0].record]);
    assert route[..|route|] == route;
    if |route| > 1 {
      var w := FirstWindow(bus, sel, route, r);
      WindowSeparate(bus, sel, w);
      WindowPlace(bus.children, route[0], w);
      RouteWants(st, w.bus, Behind(sel, w.res), route[1..], r);
    }
  }

  /**
   Behind a bridge, exactly those records ask for an address that need one, are movable, and stand on enabled
   devices behind movable windows of their own kind and prefetch flag.
   */
  lemma {:induction false} WantsIff(st: Store, bus: Bus, sel: Selector, r: Resource)
    requires NoDup(Walk(bus, sel))
    ensures Wants(st, bus, sel, r) <==> Matches(r, sel) && Asks(st, bus, r)
  {
    hide Walk, Wants, LeadsTo, Enabled, Free, Matches;
    if Wants(st, bus, sel, r) {
      var route := WantsRoute(st, bus, sel, r);
    }
    if Matches(r, sel) && Asks(st, bus, r) {
      var route :| LeadsTo(bus, route, r) && Enabled(bus, route) && Free(bus, route);
      RouteWants(st, bus, sel, route, r);
    }
  }

  // ----- The order in which the records of a bus are met -----

  /** Record number p[1] of child number p[0], which is enabled, is r, and the pass is about it. */
  predicate MetAt(devs: seq<Device>, sel: Selector, p: seq<nat>, r: Resource) {
    && |p| == 2 && p[0] < |devs| && devs[p[0]].enabled && p[1] < |devs[p[0]].resources|
    && devs[p[0]].resources[p[1]] == r && r.kind == sel.kind
    && (sel.prefetch.Some? ==> r.prefetch == sel.prefetch.value)
  }

  ghost predicate Meets(devs: seq<Device>, sel: Selector, rs: seq<Resource>, places: seq<seq<nat>>) {
    |places| == |rs| && Increasing(places) && forall i :: 0 <= i < |rs| ==> MetAt(devs, sel, places[i], rs[i])
  }

  /** All places in children before this one, and in this one before record number k. */
  predicate UpTo(p: seq<nat>, child: nat, k: nat) {
    |p| == 2 && (p[0] < child || (p[0] == child && p[1] < k))
  }

  lemma MeetsMore(devs: seq<Device>, sel: Selector, rs: seq<Resource>, places: seq<seq<nat>>, child: nat, k: nat)
    requires Meets(devs, sel, rs, places) && forall p :: p in places ==> UpTo(p, child, k)
    requires child < |devs| && k < |devs[child].resources| && MetAt(devs, sel, [child, k], devs[child].resources[k])
    ensures Meets(devs, sel, rs + [devs[child].resources[k]], places + [[child, k]])
  {
    forall i | 0 <= i < |places| ensures Before(places[i], [child, k]) {
      var p := places[i];
      assert p in places && p[1..] == [p[1]] && [child, k][1..] == [k];
      assert p[0] == child ==> Before(p[1..], [child, k][1..]);
    }
    IncreasingConcat(places, [[child, k]]);
    hide MetAt, Before;
  }

  lemma {:induction false} MetOnDevice(devs: seq<Device>, sel: Selector, rs: seq<Resource>, places: seq<seq<nat>>,
                                       child: nat, k: nat) returns (more: seq<seq<nat>>)
    requires Meets(devs, sel, rs, places) && forall p :: p in places ==> UpTo(p, child, 0)
    requires child < |devs| && devs[child].enabled && k <= |devs[child].resources|
    ensures Meets(devs, sel, rs + MatchingOn(devs[child].resources[..k], sel), more) && places <= more
    ensures forall p :: p in more ==> UpTo(p, child, k)
    ensures forall j :: 0 <= j < k && Matches(devs[child].resources[j], sel) ==> [child, j] in more
  {
    var own := devs[child].resources;
    if k == 0 {
      more := places;
      assert own[..0] == [] && rs + [] == rs;
    } else {
      var before := MetOnDevice(devs, sel, rs, places, child, k - 1);
      var sofar := rs + MatchingOn(own[..k - 1], sel);
      assert own[..k][..k - 1] == own[..k - 1];
      more := before;
      if Matches(own[k - 1], sel) {
        MeetsMore(devs, sel, sofar, before, child, k - 1);
        more := before + [[child, k - 1]];
        assert sofar + [own[k - 1]] == rs + MatchingOn(own[..k], sel);
      } else {
        assert sofar == rs + MatchingOn(own[..k], sel);
      }
    }
  }

  /** The sweep meets the matching records of enabled devices, each place once, in the order of the places. */
  lemma {:induction false} FoundInOrder(devs: seq<Device>, sel: Selector, n: nat) returns (places: seq<seq<nat>>)
    requires n <= |devs|
    ensures Meets(devs, sel, Found(devs[..n], sel), places)
    ensures forall p :: p in places ==> UpTo(p, n, 0)
    ensures forall p, r :: MetAt(devs, sel, p, r) && p[0] < n ==> p in places
  {
    if n == 0 {
      places := [];
    } else {
      var before := FoundInOrder(devs, sel, n - 1);
      var d := devs[n - 1];
      assert devs[..n][..n - 1] == devs[..n - 1];
      places := before;
      if d.enabled {
        places := MetOnDevice(devs, sel, Found(devs[..n - 1], sel), before, n - 1, |d.resources|);
        assert d.resources[..|d.resources|] == d.resources;
      } else {
        assert Found(devs[..n - 1], sel) + [] == Found(devs[..n - 1], sel);
      }
      forall p, r | MetAt(devs, sel, p, r) && p[0] < n ensures p in places {
        assert p == [p[0], p[1]];
      }
    }
  }

  lemma SweepInOrder(devs: seq<Device>, sel: Selector) returns (places: seq<seq<nat>>)
    ensures Meets(devs, sel, Found(devs, sel), places)
    ensures forall p, r :: MetAt(devs, sel, p, r) ==> p in places
  {
    places := FoundInOrder(devs, sel, |devs|);
    assert devs[..|devs|] == devs;
  }
}

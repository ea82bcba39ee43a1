/**
 Which fixed resources the descent of `constrain_resources` meets, and in which order, told by
 where they stand.
 */
module FixedPlaces {
  import opened Resources
  import opened Listings
  import opened FixedRanges

  /**
   The fixed resource f stands at a place of the device: 0, k is its own resource number k; 1, l, c leads on to
   child number c of its link number l, which has to be enabled.
   */
  ghost predicate FixedAt(dev: Device, place: seq<nat>, f: Resource)
    decreases dev
  {
    if |place| == 2 then
      place[0] == 0 && place[1] < |dev.resources| && dev.resources[place[1]] == f && f.fixed
    else
      && |place| > 3 && place[0] == 1 && place[1] < |dev.links| && place[2] < |dev.links[place[1]].children|
      && var child := dev.links[place[1]].children[place[2]];
         child.enabled && FixedAt(child, place[3..], f)
  }

  /** f is a fixed resource of the device, or of a device below it to which only enabled devices lead. */
  ghost predicate HoldsFixed(dev: Device, f: Resource) {
    exists place :: FixedAt(dev, place, f)
  }

  /** These resources are what stands at these places, and the places are in order. */
  ghost predicate Lists(dev: Device, fs: seq<Resource>, places: seq<seq<nat>>) {
    |places| == |fs| && Increasing(places) && forall i :: 0 <= i < |fs| ==> FixedAt(dev, places[i], fs[i])
  }

  lemma ListsConcat(dev: Device, fs: seq<Resource>, a: seq<seq<nat>>, gs: seq<Resource>, b: seq<seq<nat>>)
    requires Lists(dev, fs, a) && Lists(dev, gs, b) && AllBefore(a, b)
    ensures Lists(dev, fs + gs, a + b)
  {
    hide FixedAt, Before;
    IncreasingConcat(a, b);
  }

  lemma FixedOnStep(rs: seq<Resource>, n: nat)
    requires 0 < n <= |rs|
    ensures FixedOn(rs[..n]) == FixedOn(rs[..n - 1]) + (if rs[n - 1].fixed then [rs[n - 1]] else [])
  {
    assert rs[..n][..n - 1] == rs[..n - 1];
  }

  lemma NothingListed(dev: Device)
    ensures Lists(dev, FixedOn(dev.resources[..0]), [])
  {
  }

  lemma {:induction false} ListOwn(dev: Device, n: nat) returns (places: seq<seq<nat>>)
    requires n <= |dev.resources|
    ensures Lists(dev, FixedOn(dev.resources[..n]), places)
    ensures forall p :: p in places ==> |p| == 2 && p[0] == 0 && p[1] < n
    ensures forall k :: 0 <= k < n && dev.resources[k].fixed ==> [0, k] in places
  {
    hide *;
    if n == 0 {
      NothingListed(dev);
      places := [];
    } else {
      var k, fs := n - 1, FixedOn(dev.resources[..n - 1]);
      places := ListOwn(dev, k);
      FixedOnStep(dev.resources, n);
      if dev.resources[k].fixed {
        OneListed(dev, k);
        BeforeRecord(places, k);
        ListsConcat(dev, fs, places, [dev.resources[k]], [[0, k]]);
        places := places + [[0, k]];
      } else {
        assert fs + [] == fs;
      }
    }
  }

  lemma OneListed(dev: Device, k: nat)
    requires k < |dev.resources| && dev.resources[k].fixed
    ensures Lists(dev, [dev.resources[k]], [[0, k]])
  {
  }

  lemma BeforeRecord(places: seq<seq<nat>>, k: nat)
    requires forall p :: p in places ==> |p| == 2 && p[0] == 0 && p[1] < k
    ensures AllBefore(places, [[0, k]])
  {
    forall i | 0 <= i < |places| ensures Before(places[i], [0, k]) {
      var p := places[i];
      assert p in places && [0, k][1..] == [k] && p[1..] == [p[1]];
      assert Before(p[1..], [k]);
    }
  }

  /** A child's listing, seen from the device. */
  lemma ListChild(dev: Device, l: nat, c: nat, places: seq<seq<nat>>)
    requires l < |dev.links| && c < |dev.links[l].children| && dev.links[l].children[c].enabled
    requires Lists(dev.links[l].children[c], FixedIn(dev.links[l].children[c]), places)
    ensures Lists(dev, FixedIn(dev.links[l].children[c]), Prefixed([1, l, c], places))
  {
    hide FixedIn, Before;
    IncreasingPrefixed([1, l, c], places);
    forall i | 0 <= i < |places|
      ensures FixedAt(dev, [1, l, c] + places[i], FixedIn(dev.links[l].children[c])[i])
    {
      var p := [1, l, c] + places[i];
      assert p[3..] == places[i] && p[0] == 1 && p[1] == l && p[2] == c;
    }
  }

  /** All places that start like this. */
  ghost predicate Below(places: seq<seq<nat>>, l: nat, c: nat) {
    forall p :: p in places ==> |p| >= 3 && p[0] == 1 && (p[1] < l || (p[1] == l && p[2] < c))
  }

  lemma BelowBefore(places: seq<seq<nat>>, l: nat, c: nat, more: seq<seq<nat>>)
    requires Below(places, l, c)
    ensures AllBefore(places, Prefixed([1, l, c], more))
  {
    forall i, j | 0 <= i < |places| && 0 <= j < |more| ensures Before(places[i], [1, l, c] + more[j]) {
      var p, q := places[i], [1, l, c] + more[j];
      assert p in places && q[1..][0] == l && q[1..][1..][0] == c;
      assert p[1..][0] == p[1] && p[1..][1..][0] == p[2];
      assert p[1] < l || Before(p[1..][1..], q[1..][1..]);
      assert Before(p[1..], q[1..]);
    }
  }

  lemma {:induction false} ListChildren(dev: Device, l: nat, n: nat) returns (places: seq<seq<nat>>)
    requires l < |dev.links| && n <= |dev.links[l].children|
    ensures Lists(dev, FixedBelow(dev.links[l], n), places)
    ensures forall p :: p in places ==> |p| >= 3 && p[0] == 1 && p[1] == l && p[2] < n
    ensures forall p, f :: FixedAt(dev, p, f) && |p| > 3 && p[1] == l && p[2] < n ==> p in places
    decreases dev, 0, n
  {
    hide *;
    if n == 0 {
      places := [];
      NothingBelow(dev, l);
    } else {
      var rest := ListChildren(dev, l, n - 1);
      var child := dev.links[l].children[n - 1];
      places := rest;
      FixedBelowStep(dev.links[l], n);
      if child.enabled {
        var inner := ListAll(child);
        ListChild(dev, l, n - 1, inner);
        BelowBefore(rest, l, n - 1, inner);
        ListsConcat(dev, FixedBelow(dev.links[l], n - 1), rest, FixedIn(child), Prefixed([1, l, n - 1], inner));
        places := rest + Prefixed([1, l, n - 1], inner);
        forall p, f | FixedAt(dev, p, f) && |p| > 3 && p[1] == l && p[2] == n - 1 ensures p in places {
          ChildPlace(dev, l, n - 1, inner, p, f);
        }
      } else {
        assert FixedBelow(dev.links[l], n - 1) + [] == FixedBelow(dev.links[l], n - 1);
        DisabledPlaces(dev, l, n - 1);
      }
    }
  }

  lemma NothingBelow(dev: Device, l: nat)
    requires l < |dev.links|
    ensures Lists(dev, FixedBelow(dev.links[l], 0), [])
  {
  }

  lemma FixedBelowStep(bus: Bus, n: nat)
    requires 0 < n <= |bus.children|
    ensures FixedBelow(bus, n) ==
            FixedBelow(bus, n - 1) + if bus.children[n - 1].enabled then FixedIn(bus.children[n - 1]) else []
  {
    hide FixedIn;
  }

  lemma ChildPlace(dev: Device, l: nat, c: nat, inner: seq<seq<nat>>, p: seq<nat>, f: Resource)
    requires l < |dev.links| && c < |dev.links[l].children|
    requires FixedAt(dev, p, f) && |p| > 3 && p[1] == l && p[2] == c
    requires forall q, g :: FixedAt(dev.links[l].children[c], q, g) ==> q in inner
    ensures p in Prefixed([1, l, c], inner)
  {
    var k :| 0 <= k < |inner| && inner[k] == p[3..];
    assert p == [1, l, c] + p[3..] == Prefixed([1, l, c], inner)[k];
  }

  lemma DisabledPlaces(dev: Device, l: nat, c: nat)
    requires l < |dev.links| && c < |dev.links[l].children| && !dev.links[l].children[c].enabled
    ensures forall p, f :: FixedAt(dev, p, f) && |p| > 3 ==> !(p[1] == l && p[2] == c)
  {
  }

  lemma {:induction false} ListLinks(dev: Device, n: nat) returns (places: seq<seq<nat>>)
    requires n <= |dev.links|
    ensures Lists(dev, FixedLinks(dev, n), places)
    ensures forall p :: p in places ==> |p| >= 3 && p[0] == 1 && p[1] < n
    ensures forall p, f :: FixedAt(dev, p, f) && |p| > 3 && p[1] < n ==> p in places
    decreases dev, 1, n
  {
    if n == 0 {
      places := [];
    } else {
      var rest := ListLinks(dev, n - 1);
      var more := ListChildren(dev, n - 1, |dev.links[n - 1].children|);
      LinksBefore(rest, n - 1, more);
      ListsConcat(dev, FixedLinks(dev, n - 1), rest, FixedBelow(dev.links[n - 1], |dev.links[n - 1].children|), more);
      places := rest + more;
    }
  }

  lemma LinksBefore(places: seq<seq<nat>>, l: nat, more: seq<seq<nat>>)
    requires forall p :: p in places ==> |p| >= 3 && p[0] == 1 && p[1] < l
    requires forall p :: p in more ==> |p| >= 3 && p[0] == 1 && p[1] == l
    ensures AllBefore(places, more)
  {
    forall i, j | 0 <= i < |places| && 0 <= j < |more| ensures Before(places[i], more[j]) {
      assert places[i] in places && more[j] in more;
      assert Before(places[i][1..], more[j][1..]);
    }
  }

  /** The descent meets all fixed resources of enabled devices, in the order of their places, and no others. */
  lemma {:induction false} ListAll(dev: Device) returns (places: seq<seq<nat>>)
    ensures Lists(dev, FixedIn(dev), places)
    ensures forall p, f :: FixedAt(dev, p, f) ==> p in places
    decreases dev, 2, 0
  {
    var own := ListOwn(dev, |dev.resources|);
    var below := ListLinks(dev, |dev.links|);
    assert dev.resources[..|dev.resources|] == dev.resources;
    OwnBefore(own, below);
    ListsConcat(dev, FixedOn(dev.resources), own, FixedLinks(dev, |dev.links|), below);
    places := own + below;
    forall p, f | FixedAt(dev, p, f) ensures p in places {
      if |p| == 2 {
        assert p == [0, p[1]];
      }
    }
  }

  lemma OwnBefore(own: seq<seq<nat>>, below: seq<seq<nat>>)
    requires forall p :: p in own ==> |p| == 2 && p[0] == 0
    requires forall p :: p in below ==> |p| >= 3 && p[0] == 1
    ensures AllBefore(own, below)
  {
    forall i, j | 0 <= i < |own| && 0 <= j < |below| ensures Before(own[i], below[j]) {
      assert own[i] in own && below[j] in below;
    }
  }

  lemma OnePlace(dev: Device, place: seq<nat>, f: Resource, g: Resource)
    requires FixedAt(dev, place, f) && FixedAt(dev, place, g)
    ensures f == g
    decreases dev
  {
  }

  lemma FixedInIff(dev: Device, f: Resource)
    ensures f in FixedIn(dev) <==> HoldsFixed(dev, f)
  {
    var places := ListAll(dev);
    hide FixedAt, FixedIn;
    if f in FixedIn(dev) {
      var i :| 0 <= i < |FixedIn(dev)| && FixedIn(dev)[i] == f;
      assert FixedAt(dev, places[i], f);
    }
    if HoldsFixed(dev, f) {
      var p :| FixedAt(dev, p, f);
      var i :| 0 <= i < |places| && places[i] == p;
      OnePlace(dev, p, f, FixedIn(dev)[i]);
    }
  }
}

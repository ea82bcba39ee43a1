/**
 Listings in traversal order: what stands at places that come one after the other.
 */
module Listings {

  /** The order of places: the first number that differs decides. */
  predicate Before(a: seq<nat>, b: seq<nat>) {
    a != [] && b != [] && (a[0] < b[0] || (a[0] == b[0] && Before(a[1..], b[1..])))
  }

  ghost predicate Increasing(places: seq<seq<nat>>) {
    forall i, j :: 0 <= i < j < |places| ==> Before(places[i], places[j])
  }

  ghost predicate AllBefore(a: seq<seq<nat>>, b: seq<seq<nat>>) {
    forall i, j :: 0 <= i < |a| && 0 <= j < |b| ==> Before(a[i], b[j])
  }

  lemma IncreasingConcat(a: seq<seq<nat>>, b: seq<seq<nat>>)
    requires Increasing(a) && Increasing(b) && AllBefore(a, b)
    ensures Increasing(a + b)
  {
    hide Before;
    forall i, j | 0 <= i < j < |a + b| ensures Before((a + b)[i], (a + b)[j]) {
      assert j >= |a| ==> (a + b)[j] == b[j - |a|];
      assert i >= |a| ==> (a + b)[i] == b[i - |a|];
    }
  }

  lemma BeforePrefixed(head: seq<nat>, a: seq<nat>, b: seq<nat>)
    requires Before(a, b)
    ensures Before(head + a, head + b)
    decreases |head|
  {
    if head == [] {
      assert head + a == a && head + b == b;
    } else {
      BeforePrefixed(head[1..], a, b);
      assert (head + a)[1..] == head[1..] + a && (head + b)[1..] == head[1..] + b;
    }
  }

  /** The same places, seen from further up. */
  function Prefixed(head: seq<nat>, places: seq<seq<nat>>): (r: seq<seq<nat>>)
    ensures |r| == |places| && forall i :: 0 <= i < |places| ==> r[i] == head + places[i]
  {
    seq(|places|, i requires 0 <= i < |places| => head + places[i])
  }

  lemma IncreasingPrefixed(head: seq<nat>, places: seq<seq<nat>>)
    requires Increasing(places)
    ensures Increasing(Prefixed(head, places))
  {
    hide Before;
    forall i, j | 0 <= i < j < |places| ensures Before(head + places[i], head + places[j]) {
      BeforePrefixed(head, places[i], places[j]);
    }
  }
}

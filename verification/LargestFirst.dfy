/**
 The order in which the allocator takes resources: largest alignment first, then largest
 size, ties in traversal order. `pick_largest_resource` finds the successor of a record in
 one sweep; here that sweep is shown to step through a stable sort.
 */
module LargestFirst {
  import opened Options
  import opened Resources

  predicate Larger(a: Rec, b: Rec) {
    a.align > b.align || (a.align == b.align && a.size > b.size)
  }

  ghost predicate NoDup<T>(s: seq<T>) {
    forall i, j :: 0 <= i < j < |s| ==> s[i] != s[j]
  }

  // ----- The order, as a stable insertion sort -----

  /** Put x behind everything that is not smaller. */
  ghost function Insert(st: Store, x: Resource, o: seq<Resource>): seq<Resource> {
    if o == [] || Larger(At(st, x), At(st, o[0])) then [x] + o
    else [o[0]] + Insert(st, x, o[1..])
  }

  ghost function Order(st: Store, s: seq<Resource>): seq<Resource> {
    if s == [] then [] else Insert(st, s[|s| - 1], Order(st, s[..|s| - 1]))
  }

  ghost predicate Descending(st: Store, o: seq<Resource>) {
    forall i, j :: 0 <= i < j < |o| ==> !Larger(At(st, o[j]), At(st, o[i]))
  }

  lemma {:induction false} InsertCounts(st: Store, x: Resource, o: seq<Resource>)
    ensures multiset(Insert(st, x, o)) == multiset(o) + multiset{x}
  {
    hide Larger;
    if o != [] {
      InsertCounts(st, x, o[1..]);
      assert o == [o[0]] + o[1..];
    }
  }

  lemma {:induction false} InsertSorted(st: Store, x: Resource, o: seq<Resource>)
    requires Descending(st, o)
    ensures Descending(st, Insert(st, x, o))
    ensures multiset(Insert(st, x, o)) == multiset(o) + multiset{x}
  {
    InsertCounts(st, x, o);
    if o == [] {
    } else if Larger(At(st, x), At(st, o[0])) {
      DescendingCons(st, x, o);
    } else {
      var rest := o[1..];
      InsertSorted(st, x, rest);
      var ins := Insert(st, x, rest);
      forall j | 0 <= j < |ins|
        ensures !Larger(At(st, ins[j]), At(st, o[0]))
      {
        assert ins[j] in multiset(ins);
        assert ins[j] == x || ins[j] in rest;
      }
      DescendingCons(st, o[0], ins);
    }
  }

  lemma DescendingCons(st: Store, x: Resource, o: seq<Resource>)
    requires Descending(st, o) && forall j :: 0 <= j < |o| ==> !Larger(At(st, o[j]), At(st, x))
    ensures Descending(st, [x] + o)
  {
    hide Larger;
  }

  /** At least as aligned, and at least as large if it is just as aligned. */
  predicate NoSmaller(a: Rec, b: Rec) {
    a.align > b.align || (a.align == b.align && a.size >= b.size)
  }

  lemma OrderStep(st: Store, s: seq<Resource>)
    ensures s == [] ==> Order(st, s) == [] && Descending(st, [])
    ensures s != [] ==> Order(st, s) == Insert(st, s[|s| - 1], Order(st, s[..|s| - 1]))
  {
  }

  lemma {:induction false} OrderDescends(st: Store, s: seq<Resource>)
    ensures Descending(st, Order(st, s)) && multiset(Order(st, s)) == multiset(s)
  {
    hide *;
    OrderStep(st, s);
    if s != [] {
      OrderDescends(st, s[..|s| - 1]);
      InsertSorted(st, s[|s| - 1], Order(st, s[..|s| - 1]));
      assert s == s[..|s| - 1] + [s[|s| - 1]];
    }
  }

  lemma DescendingTells(st: Store, o: seq<Resource>)
    requires Descending(st, o)
    ensures forall i, j :: 0 <= i < j < |o| ==> NoSmaller(At(st, o[i]), At(st, o[j]))
  {
  }

  /** The order is a permutation of the records, sorted by decreasing (align, size). */
  lemma OrderSorted(st: Store, s: seq<Resource>)
    ensures Descending(st, Order(st, s))
    ensures var o := Order(st, s); forall i, j :: 0 <= i < j < |o| ==> NoSmaller(At(st, o[i]), At(st, o[j]))
    ensures multiset(Order(st, s)) == multiset(s)
  {
    hide *;
    OrderDescends(st, s);
    DescendingTells(st, Order(st, s));
  }

  lemma {:induction false} OrderMembers(st: Store, s: seq<Resource>)
    ensures |Order(st, s)| == |s|
    ensures forall r :: r in Order(st, s) ==> r in s
    ensures forall r :: r in s ==> r in Order(st, s)
  {
    OrderSorted(st, s);
    assert |multiset(Order(st, s))| == |multiset(s)|;
    forall r | r in Order(st, s) ensures r in s {
      assert r in multiset(s);
    }
    forall r | r in s ensures r in Order(st, s) {
      assert r in multiset(Order(st, s));
    }
  }

  lemma {:induction false} NoDupByCount<T>(s: seq<T>)
    ensures NoDup(s) <==> forall x :: x in s ==> multiset(s)[x] == 1
  {
    if NoDup(s) {
      forall x | x in s
        ensures multiset(s)[x] == 1
      {
        var i :| 0 <= i < |s| && s[i] == x;
        CountOnce(s, i);
      }
    }
    if forall x :: x in s ==> multiset(s)[x] == 1 {
      forall i, j | 0 <= i < j < |s|
        ensures s[i] != s[j]
      {
        assert s[i] in s;
        if s[i] == s[j] {
          CountTwice(s, i, j);
        }
      }
    }
  }

  lemma CountOnce<T>(s: seq<T>, i: nat)
    requires i < |s| && NoDup(s)
    ensures multiset(s)[s[i]] == 1
  {
    var a, b := s[..i], s[i + 1..];
    assert s == a + ([s[i]] + b);
    assert s[i] !in multiset(a) && s[i] !in multiset(b);
    CountParts(a, s[i], b);
  }

  lemma CountParts<T>(a: seq<T>, x: T, b: seq<T>)
    ensures multiset(a + ([x] + b))[x] == multiset(a)[x] + 1 + multiset(b)[x]
  {
  }

  lemma CountTwice<T>(s: seq<T>, i: nat, j: nat)
    requires i < j < |s| && s[i] == s[j]
    ensures multiset(s)[s[i]] >= 2
  {
    var a, b := s[..i], s[i + 1..];
    assert s == a + ([s[i]] + b);
    assert b[j - i - 1] == s[i] && s[i] in multiset(b);
    CountParts(a, s[i], b);
  }

  lemma {:induction false} OrderNoDup(st: Store, s: seq<Resource>)
    requires NoDup(s)
    ensures NoDup(Order(st, s))
  {
    OrderSorted(st, s);
    OrderMembers(st, s);
    NoDupByCount(s);
    NoDupByCount(Order(st, s));
  }

  /** Only (align, size) of the sorted records matters. */
  ghost predicate SameKeys(a: Store, b: Store, s: seq<Resource>) {
    forall r :: r in s ==> At(a, r).align == At(b, r).align && At(a, r).size == At(b, r).size
  }

  lemma {:induction false} InsertFrame(a: Store, b: Store, x: Resource, o: seq<Resource>)
    requires SameKeys(a, b, [x] + o)
    ensures Insert(a, x, o) == Insert(b, x, o)
  {
    assert x in [x] + o;
    if o != [] {
      assert o[0] in [x] + o;
      InsertFrame(a, b, x, o[1..]);
    }
  }

  lemma {:induction false} OrderFrame(a: Store, b: Store, s: seq<Resource>)
    requires SameKeys(a, b, s)
    ensures Order(a, s) == Order(b, s)
  {
    if s != [] {
      OrderFrame(a, b, s[..|s| - 1]);
      OrderMembers(a, s[..|s| - 1]);
      InsertFrame(a, b, s[|s| - 1], Order(a, s[..|s| - 1]));
    }
  }

  // ----- The sweep -----

  /**
   What one sweep over s, started with `last`, does not skip: records that come after
   `last` in (align, size), or tie with it and are met after it.
   */
  ghost function Eligible(st: Store, s: seq<Resource>, last: Option<Resource>): seq<Resource> {
    if s == [] then [] else
      var x := s[|s| - 1];
      var rest := s[..|s| - 1];
      Eligible(st, rest, last) + (if Skipped(st, x, last, last.Some? && last.value in rest) then [] else [x])
  }

  predicate Skipped(st: Store, x: Resource, last: Option<Resource>, seenLast: bool) {
    last.Some? &&
    (x == last.value ||
     Larger(At(st, x), At(st, last.value)) ||
     (!Larger(At(st, last.value), At(st, x)) && !seenLast))
  }

  ghost function First(o: seq<Resource>): Option<Resource> {
    if o == [] then None else Some(o[0])
  }

  /** The record after `last`, as the sweep computes it. */
  ghost function Next(st: Store, s: seq<Resource>, last: Option<Resource>): Option<Resource> {
    First(Order(st, Eligible(st, s, last)))
  }

  lemma {:induction false} OrderSnoc(st: Store, s: seq<Resource>, x: Resource)
    ensures Order(st, s + [x]) == Insert(st, x, Order(st, s))
  {
    assert (s + [x])[..|s + [x]| - 1] == s;
  }

  lemma {:induction false} EligibleSnoc(st: Store, s: seq<Resource>, x: Resource, last: Option<Resource>)
    ensures Eligible(st, s + [x], last) ==
            if Skipped(st, x, last, last.Some? && last.value in s) then Eligible(st, s, last)
              else Eligible(st, s, last) + [x]
  {
    assert (s + [x])[..|s + [x]| - 1] == s;
  }

  /** One step of the sweep: keep the first of the largest so far. */
  lemma {:induction false} NextStep(st: Store, s: seq<Resource>, x: Resource, last: Option<Resource>)
    ensures Next(st, s + [x], last) ==
            if Skipped(st, x, last, last.Some? && last.value in s) then Next(st, s, last)
            else if Next(st, s, last).None? || Larger(At(st, x), At(st, Next(st, s, last).value)) then Some(x)
            else Next(st, s, last)
  {
    EligibleSnoc(st, s, x, last);
    var e := Eligible(st, s, last);
    if !Skipped(st, x, last, last.Some? && last.value in s) {
      OrderSnoc(st, e, x);
    }
  }

  lemma {:induction false} InsertAfter(st: Store, x: Resource, a: seq<Resource>, b: seq<Resource>)
    requires forall r :: r in a ==> !Larger(At(st, x), At(st, r))
    ensures Insert(st, x, a + b) == a + Insert(st, x, b)
  {
    hide *;
    if a == [] {
      assert a + b == b;
    } else {
      assert (a + b)[0] == a[0] && (a + b)[1..] == a[1..] + b && a[0] in a;
      InsertAfter(st, x, a[1..], b);
      InsertStep(st, x, a + b);
      assert a == [a[0]] + a[1..];
    }
  }

  lemma {:induction false} InsertBefore(st: Store, x: Resource, a: seq<Resource>, b: seq<Resource>)
    requires forall r :: r in b ==> Larger(At(st, x), At(st, r))
    ensures Insert(st, x, a + b) == Insert(st, x, a) + b
  {
    hide *;
    if a == [] {
      assert a + b == b;
      InsertEmpty(st, x);
      if b != [] {
        assert b[0] in b;
        InsertStep(st, x, b);
      }
    } else {
      var ab := a + b;
      assert ab[0] == a[0] && ab[1..] == a[1..] + b && [x] + ab == [x] + a + b;
      InsertBefore(st, x, a[1..], b);
      InsertStep(st, x, a);
      InsertStep(st, x, ab);
    }
  }

  lemma InsertStep(st: Store, x: Resource, o: seq<Resource>)
    requires o != []
    ensures Insert(st, x, o) == if Larger(At(st, x), At(st, o[0])) then [x] + o else [o[0]] + Insert(st, x, o[1..])
  {
    hide Larger;
  }

  lemma {:induction false} InsertKeepsLast(st: Store, x: Resource, a: seq<Resource>)
    requires a != [] && Larger(At(st, x), At(st, a[|a| - 1]))
    ensures Insert(st, x, a) != []
    ensures Insert(st, x, a)[|Insert(st, x, a)| - 1] == a[|a| - 1]
  {
    if !Larger(At(st, x), At(st, a[0])) {
      InsertKeepsLast(st, x, a[1..]);
    }
  }

  ghost predicate NoneBelow(st: Store, a: seq<Resource>, last: Resource) {
    forall r :: r in a ==> !Larger(At(st, last), At(st, r))
  }

  ghost predicate NoneAbove(st: Store, b: seq<Resource>, last: Resource) {
    forall r :: r in b ==> !Larger(At(st, r), At(st, last))
  }

  ghost predicate AllBelow(st: Store, b: seq<Resource>, last: Resource) {
    forall r :: r in b ==> Larger(At(st, last), At(st, r))
  }

  /**
   While the sweep runs, the sorted prefix splits at `last`: in front what is not
   smaller than it, behind exactly the eligible records.
   */
  ghost predicate Split(st: Store, s: seq<Resource>, last: Resource, a: seq<Resource>, b: seq<Resource>) {
    && Order(st, s) == a + b
    && b == Order(st, Eligible(st, s, Some(last)))
    && NoneBelow(st, a, last)
    && NoneAbove(st, b, last)
    && (last !in s ==> AllBelow(st, b, last))
    && (last in s ==> a != [] && a[|a| - 1] == last)
  }

  lemma {:induction false} SplitAtLast(st: Store, s: seq<Resource>, last: Resource)
    returns (a: seq<Resource>, b: seq<Resource>)
    requires NoDup(s)
    ensures Split(st, s, last, a, b)
  {
    if s == [] {
      a, b := [], [];
    } else {
      var x := s[|s| - 1];
      var rest := s[..|s| - 1];
      a, b := SplitAtLast(st, rest, last);
      assert s == rest + [x];
      OrderSnoc(st, rest, x);
      EligibleSnoc(st, rest, x, Some(last));
      if x == last {
        a, b := SplitMeets(st, rest, last, a, b);
      } else if Skipped(st, x, Some(last), last in rest) {
        a, b := SplitSkips(st, rest, x, last, a, b);
      } else {
        a, b := SplitTakes(st, rest, x, last, a, b);
      }
    }
  }

  lemma InsertEmpty(st: Store, x: Resource)
    ensures Insert(st, x, []) == [x]
  {
  }

  lemma {:induction false} SplitMeets(st: Store, rest: seq<Resource>, last: Resource, a0: seq<Resource>,
                                      b0: seq<Resource>)
    returns (a: seq<Resource>, b: seq<Resource>)
    requires Split(st, rest, last, a0, b0) && last !in rest
    ensures Split(st, rest + [last], last, a, b)
  {
    InsertEmpty(st, last);
    hide Insert, Order;
    OrderSnoc(st, rest, last);
    EligibleSnoc(st, rest, last, Some(last));
    InsertAfter(st, last, a0, b0);
    InsertBefore(st, last, [], b0);
    assert [] + b0 == b0;
    a, b := a0 + [last], b0;
    assert a + b == a0 + ([last] + b0);
  }

  lemma {:induction false} SplitSkips(st: Store, rest: seq<Resource>, x: Resource, last: Resource, a0: seq<Resource>,
                                      b0: seq<Resource>)
    returns (a: seq<Resource>, b: seq<Resource>)
    requires Split(st, rest, last, a0, b0)
    requires x != last && Skipped(st, x, Some(last), last in rest)
    ensures Split(st, rest + [x], last, a, b)
  {
    OrderSnoc(st, rest, x);
    EligibleSnoc(st, rest, x, Some(last));
    InsertBefore(st, x, a0, b0);
    InsertMembers(st, x, a0);
    a, b := Insert(st, x, a0), b0;
    InsertNoneBelow(st, x, a0, last);
    if last in rest {
      InsertKeepsLast(st, x, a0);
    }
  }

  lemma {:induction false} SplitTakes(st: Store, rest: seq<Resource>, x: Resource, last: Resource, a0: seq<Resource>,
                                      b0: seq<Resource>)
    returns (a: seq<Resource>, b: seq<Resource>)
    requires Split(st, rest, last, a0, b0)
    requires x != last && !Skipped(st, x, Some(last), last in rest)
    ensures Split(st, rest + [x], last, a, b)
  {
    OrderSnoc(st, rest, x);
    EligibleSnoc(st, rest, x, Some(last));
    OrderSnoc(st, Eligible(st, rest, Some(last)), x);
    InsertAfter(st, x, a0, b0);
    InsertMembers(st, x, b0);
    a, b := a0, Insert(st, x, b0);
  }

  lemma {:induction false} InsertNoneBelow(st: Store, x: Resource, o: seq<Resource>, last: Resource)
    requires NoneBelow(st, [x] + o, last)
    ensures NoneBelow(st, Insert(st, x, o), last)
  {
    assert x in [x] + o;
    if o != [] && !Larger(At(st, x), At(st, o[0])) {
      assert o[0] in [x] + o;
      InsertNoneBelow(st, x, o[1..], last);
    }
  }

  lemma {:induction false} InsertMembers(st: Store, x: Resource, o: seq<Resource>)
    ensures forall r :: r in Insert(st, x, o) ==> r == x || r in o
    ensures x in Insert(st, x, o) && forall r :: r in o ==> r in Insert(st, x, o)
  {
    if o != [] && !Larger(At(st, x), At(st, o[0])) {
      InsertMembers(st, x, o[1..]);
      assert o == [o[0]] + o[1..];
    }
  }

  /**
   Sweeps started from nothing give the sorted records one by one and then nothing:
   every record exactly once, both passes in the same order.
   */
  lemma {:induction false} SweepsEnumerate(st: Store, s: seq<Resource>)
    requires NoDup(s)
    ensures Next(st, s, None) == First(Order(st, s))
    ensures forall i :: 0 <= i < |Order(st, s)| ==>
              Next(st, s, Some(Order(st, s)[i])) == First(Order(st, s)[i + 1..])
  {
    EligibleFromStart(st, s);
    var o := Order(st, s);
    forall i | 0 <= i < |o|
      ensures Next(st, s, Some(o[i])) == First(o[i + 1..])
    {
      SweepAfter(st, s, i);
    }
  }

  lemma {:induction false} SweepAfter(st: Store, s: seq<Resource>, i: nat)
    requires NoDup(s) && i < |Order(st, s)|
    ensures Next(st, s, Some(Order(st, s)[i])) == First(Order(st, s)[i + 1..])
  {
    var o := Order(st, s);
    OrderMembers(st, s);
    OrderNoDup(st, s);
    assert o[i] in o;
    var a, b := SplitAtLast(st, s, o[i]);
    assert o[|a| - 1] == o[i];
    assert o[i + 1..] == b;
  }

  lemma {:induction false} EligibleFromStart(st: Store, s: seq<Resource>)
    ensures Eligible(st, s, None) == s
  {
    hide *;
    if s == [] {
      EligibleEmpty(st);
    } else {
      var rest, x := s[..|s| - 1], s[|s| - 1];
      assert s == rest + [x];
      EligibleFromStart(st, rest);
      EligibleGrows(st, rest, x);
    }
  }

  lemma EligibleEmpty(st: Store)
    ensures Eligible(st, [], None) == []
  {
  }

  lemma EligibleGrows(st: Store, s: seq<Resource>, x: Resource)
    ensures Eligible(st, s + [x], None) == Eligible(st, s, None) + [x]
  {
    hide Eligible, Larger;
    EligibleSnoc(st, s, x, None);
  }

  /** Position of a member in a sequence. */
  ghost predicate MetBefore(s: seq<Resource>, x: Resource, y: Resource) {
    exists i, j :: 0 <= i < j < |s| && s[i] == x && s[j] == y
  }

  lemma NoSmallerIs(a: Rec, b: Rec)
    ensures NoSmaller(a, b) <==> !Larger(b, a)
  {
  }

  /** Ties keep their traversal order. */
  lemma {:induction false} OrderStable(st: Store, s: seq<Resource>, x: Resource, y: Resource)
    requires NoDup(s) && MetBefore(s, x, y) && NoSmaller(At(st, x), At(st, y))
    ensures MetBefore(Order(st, s), x, y)
  {
    hide Insert, Larger;
    var rest := s[..|s| - 1];
    var z := s[|s| - 1];
    var i, j :| 0 <= i < j < |s| && s[i] == x && s[j] == y;
    assert rest[i] == x;
    OrderSorted(st, rest);
    NoSmallerIs(At(st, x), At(st, y));
    if j == |s| - 1 {
      OrderMembers(st, rest);
      InsertBehind(st, y, Order(st, rest), x);
    } else {
      assert rest[j] == y;
      OrderStable(st, rest, x, y);
      InsertKeepsOrder(st, z, Order(st, rest), x, y);
    }
  }

  lemma {:induction false} InsertBehind(st: Store, y: Resource, o: seq<Resource>, x: Resource)
    requires Descending(st, o) && x in o && !Larger(At(st, y), At(st, x))
    ensures MetBefore(Insert(st, y, o), x, y)
  {
    var k :| 0 <= k < |o| && o[k] == x;
    var p := Insert(st, y, o);
    assert !Larger(At(st, y), At(st, o[0])) by {
      assert k > 0 ==> !Larger(At(st, x), At(st, o[0]));
    }
    if k == 0 {
      InsertMembers(st, y, o[1..]);
      assert p[1..] == Insert(st, y, o[1..]);
      assert y in Insert(st, y, o[1..]);
      var j :| 0 <= j < |p[1..]| && p[1..][j] == y;
      assert p[0] == x && p[j + 1] == y;
    } else {
      assert o[1..][k - 1] == x;
      InsertBehind(st, y, o[1..], x);
      MetBeforeCons(o[0], p[1..], x, y);
    }
  }

  lemma {:induction false} MetBeforeCons(z: Resource, s: seq<Resource>, x: Resource, y: Resource)
    requires MetBefore(s, x, y)
    ensures MetBefore([z] + s, x, y)
  {
    var i, j :| 0 <= i < j < |s| && s[i] == x && s[j] == y;
    assert ([z] + s)[i + 1] == x && ([z] + s)[j + 1] == y;
  }

  lemma {:induction false} InsertKeepsOrder(st: Store, z: Resource, o: seq<Resource>, x: Resource, y: Resource)
    requires MetBefore(o, x, y)
    ensures MetBefore(Insert(st, z, o), x, y)
  {
    var i, j :| 0 <= i < j < |o| && o[i] == x && o[j] == y;
    var p := Insert(st, z, o);
    if Larger(At(st, z), At(st, o[0])) {
      MetBeforeCons(z, o, x, y);
    } else {
      assert p == [o[0]] + p[1..];
      assert o[1..][j - 1] == y;
      if i > 0 {
        assert o[1..][i - 1] == x;
        InsertKeepsOrder(st, z, o[1..], x, y);
        MetBeforeCons(o[0], p[1..], x, y);
      } else {
        InsertMembers(st, z, o[1..]);
        assert p[1..] == Insert(st, z, o[1..]);
        assert y in o[1..];
        var k :| 0 <= k < |p[1..]| && p[1..][k] == y;
        assert p[0] == x && p[k + 1] == y;
      }
    }
  }
}

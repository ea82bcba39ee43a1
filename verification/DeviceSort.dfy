/**
 The in-place quicksort of the PCI device list. Its second recursive call keeps the pivot, so
 it need not work on fewer devices than the call that made it.
 */
module DeviceSort {
  import opened Options

  datatype PciDevice = PciDevice(device: int, id: int)

  // ----- The partition -----

  function Keys(s: seq<PciDevice>): (k: seq<int>)
    ensures |k| == |s| && forall i :: 0 <= i < |s| ==> k[i] == s[i].device
  {
    seq(|s|, i requires 0 <= i < |s| => s[i].device)
  }

  /** The same devices, whatever their order. */
  ghost predicate SameDevices(s: seq<PciDevice>, t: seq<PciDevice>) {
    multiset(t) == multiset(s) && multiset(Keys(t)) == multiset(Keys(s))
  }

  function Swapped(s: seq<PciDevice>, i: nat, j: nat): (t: seq<PciDevice>)
    requires i < |s| && j < |s|
    ensures |t| == |s|
    ensures forall x :: 0 <= x < |s| ==> t[x] == if x == i then s[j] else if x == j then s[i] else s[x]
  {
    s[i := s[j]][j := s[i]]
  }

  lemma SwappedSame(s: seq<PciDevice>, i: nat, j: nat)
    requires i < |s| && j < |s|
    ensures SameDevices(s, Swapped(s, i, j))
  {
    var k := Keys(s);
    assert Keys(Swapped(s, i, j)) == k[i := k[j]][j := k[i]];
  }

  /** The list and the index after the first n devices have been looked at. */
  function Sweep(s: seq<PciDevice>, val: int, n: nat): (r: (seq<PciDevice>, nat))
    requires n <= |s|
    ensures |r.0| == |s| && r.1 <= n
  {
    if n == 0 then (s, 0) else
      var (t, k) := Sweep(s, val, n - 1);
      if t[n - 1].device < val then (Swapped(t, n - 1, k), k + 1) else (t, k)
  }

  /** What `partition` makes of a list, and the index that it returns. */
  function Partition(s: seq<PciDevice>): (r: (seq<PciDevice>, nat))
    requires |s| >= 2
    ensures |r.0| == |s| && r.1 < |s|
  {
    var n := |s| - 1;
    var (t, k) := Sweep(Swapped(s, |s| / 2, n), s[|s| / 2].device, n);
    (Swapped(t, k, n), k)
  }

  lemma NoSweep(s: seq<PciDevice>, val: int)
    ensures Sweep(s, val, 0) == (s, 0)
  {
  }

  lemma SweepMore(s: seq<PciDevice>, val: int, i: nat)
    requires i < |s|
    ensures var (t, k) := Sweep(s, val, i);
            Sweep(s, val, i + 1) == if t[i].device < val then (Swapped(t, i, k), k + 1) else (t, k)
  {
  }

  /** What is known of a list t and an index k when n of the devices of s have been looked at. */
  ghost predicate Sorting(s: seq<PciDevice>, val: int, n: nat, t: seq<PciDevice>, k: nat)
    requires n <= |s|
  {
    && |t| == |s| && k <= n && SameDevices(s, t) && (forall i :: n <= i < |s| ==> t[i] == s[i])
    && (forall i :: 0 <= i < k ==> t[i].device < val) && (forall i :: k <= i < n ==> t[i].device >= val)
  }

  lemma SortingNone(s: seq<PciDevice>, val: int)
    ensures Sorting(s, val, 0, s, 0)
  {
  }

  lemma SortingMore(s: seq<PciDevice>, val: int, n: nat, t: seq<PciDevice>, k: nat)
    requires n < |s| && Sorting(s, val, n, t, k)
    ensures if t[n].device < val then Sorting(s, val, n + 1, Swapped(t, n, k), k + 1) else Sorting(s, val, n + 1, t, k)
  {
    hide Keys, Swapped;
    SwappedSame(t, n, k);
  }

  lemma {:induction false} SweepSplits(s: seq<PciDevice>, val: int, n: nat)
    requires n <= |s|
    ensures Sorting(s, val, n, Sweep(s, val, n).0, Sweep(s, val, n).1)
  {
    hide *;
    if n == 0 {
      NoSweep(s, val);
      SortingNone(s, val);
    } else {
      SweepMore(s, val, n - 1);
      SweepSplits(s, val, n - 1);
      SortingMore(s, val, n - 1, Sweep(s, val, n - 1).0, Sweep(s, val, n - 1).1);
    }
  }

  /** The devices below the pivot come first, then the pivot, then the others. */
  ghost predicate Splits(s: seq<PciDevice>, t: seq<PciDevice>, k: nat)
    requires |s| >= 2
  {
    && SameDevices(s, t) && k < |t| == |s| && t[k] == s[|s| / 2]
    && (forall i :: 0 <= i < k ==> t[i].device < t[k].device)
    && (forall i :: k <= i < |t| ==> t[i].device >= t[k].device)
  }

  lemma PartitionSplits(s: seq<PciDevice>)
    requires |s| >= 2
    ensures Splits(s, Partition(s).0, Partition(s).1)
  {
    hide Keys, Swapped, Sweep, Sorting;
    var n, m := |s| - 1, |s| / 2;
    var u := Swapped(s, m, n);
    SwappedSame(s, m, n);
    SweepSplits(u, s[m].device, n);
    PivotLast(s, u, Sweep(u, s[m].device, n).0, Sweep(u, s[m].device, n).1);
  }

  lemma PivotLast(s: seq<PciDevice>, u: seq<PciDevice>, t: seq<PciDevice>, k: nat)
    requires |s| >= 2 && |u| == |s| && SameDevices(s, u) && u[|s| - 1] == s[|s| / 2]
    requires Sorting(u, s[|s| / 2].device, |s| - 1, t, k)
    ensures Splits(s, Swapped(t, k, |s| - 1), k)
  {
    hide Keys, Swapped;
    SwappedSame(t, k, |s| - 1);
  }

  // ----- The sort -----

  predicate Ascending(s: seq<PciDevice>) {
    forall i, j :: 0 <= i < j < |s| ==> s[i].device <= s[j].device
  }

  predicate Distinct(s: seq<PciDevice>) {
    forall i, j :: 0 <= i < j < |s| ==> s[i].device != s[j].device
  }

  /** What a call sorts first: the devices in front of the pivot. */
  function Front(s: seq<PciDevice>): seq<PciDevice>
    requires |s| >= 2
  {
    Partition(s).0[..Partition(s).1]
  }

  /** What it sorts then: the pivot and all behind it. */
  function Back(s: seq<PciDevice>): (r: seq<PciDevice>)
    requires |s| >= 2
    ensures r != []
  {
    Partition(s).0[Partition(s).1..]
  }

  function Both(a: Option<seq<PciDevice>>, b: Option<seq<PciDevice>>): (r: Option<seq<PciDevice>>)
    ensures r.Some? <==> a.Some? && b.Some?
    ensures r.Some? ==> r.value == a.value + b.value
  {
    if a.None? || b.None? then None else Some(a.value + b.value)
  }

  /** What `quicksort` leaves behind when the stack has room for `depth` nested calls that do not return at once. */
  function Sort(s: seq<PciDevice>, depth: nat): (r: Option<seq<PciDevice>>)
    ensures r.Some? ==> |r.value| == |s|
    decreases depth
  {
    if |s| <= 1 then Some(s)
    else if depth == 0 then None
    else Both(Sort(Front(s), depth - 1), Sort(Back(s), depth - 1))
  }

  lemma SortStep(s: seq<PciDevice>, depth: nat)
    ensures |s| <= 1 ==> Sort(s, depth) == Some(s)
    ensures |s| > 1 && depth == 0 ==> Sort(s, depth).None?
    ensures |s| > 1 && depth > 0 ==> Sort(s, depth) == Both(Sort(Front(s), depth - 1), Sort(Back(s), depth - 1))
  {
    hide Front, Back, Both;
  }

  lemma PartsAre(s: seq<PciDevice>)
    requires |s| > 1
    ensures Front(s) == Partition(s).0[..Partition(s).1] && Back(s) == Partition(s).0[Partition(s).1..]
  {
    hide Partition;
  }

  lemma SplitsAre(s: seq<PciDevice>)
    requires |s| > 1
    ensures Splits(s, Front(s) + Back(s), |Front(s)|)
  {
    hide Partition, Splits;
    PartitionSplits(s);
    var (t, k) := Partition(s);
    assert t == t[..k] + t[k..];
  }

  /** If it ends, the list is sorted and has kept its devices. */
  lemma {:induction false} SortIsRight(s: seq<PciDevice>, depth: nat)
    requires Sort(s, depth).Some?
    ensures multiset(Sort(s, depth).value) == multiset(s) && Ascending(Sort(s, depth).value)
    decreases depth
  {
    hide *;
    SortStep(s, depth);
    if |s| <= 1 {
      OneIsAscending(s);
    } else {
      SortIsRight(Front(s), depth - 1);
      SortIsRight(Back(s), depth - 1);
      SplitsAre(s);
      Joined(s, Front(s), Back(s), Sort(Front(s), depth - 1).value, Sort(Back(s), depth - 1).value);
    }
  }

  lemma OneIsAscending(s: seq<PciDevice>)
    requires |s| <= 1
    ensures Ascending(s)
  {
  }

  lemma Joined(s: seq<PciDevice>, f: seq<PciDevice>, b: seq<PciDevice>, x: seq<PciDevice>, y: seq<PciDevice>)
    requires |s| >= 2 && Splits(s, f + b, |f|) && b != []
    requires multiset(x) == multiset(f) && multiset(y) == multiset(b) && Ascending(x) && Ascending(y)
    ensures Ascending(x + y) && multiset(x + y) == multiset(s)
  {
    hide Keys;
    var pivot := b[0].device;
    forall d | d in x ensures d.device < pivot {
      assert d in multiset(f);
      var i :| 0 <= i < |f| && f[i] == d;
      assert (f + b)[i] == d;
    }
    forall d | d in y ensures d.device >= pivot {
      assert d in multiset(b);
      var i :| 0 <= i < |b| && b[i] == d;
      assert (f + b)[|f| + i] == d;
    }
    Between(x, y, pivot);
  }

  lemma Between(x: seq<PciDevice>, y: seq<PciDevice>, pivot: int)
    requires Ascending(x) && Ascending(y)
    requires (forall d :: d in x ==> d.device < pivot) && (forall d :: d in y ==> d.device >= pivot)
    ensures Ascending(x + y)
  {
    forall i, j | 0 <= i < j < |x + y| ensures (x + y)[i].device <= (x + y)[j].device {
      if i < |x| <= j {
        assert x[i] in x && y[j - |x|] in y;
      }
    }
  }

  // ----- When it ends -----

  predicate FirstIsLeast(s: seq<PciDevice>) {
    forall i :: 0 <= i < |s| ==> s[0].device <= s[i].device
  }

  /** The number of nested calls that distinct devices may need. */
  function Rank(s: seq<PciDevice>): nat {
    if s == [] then 0 else 2 * |s| - (if FirstIsLeast(s) then 1 else 0)
  }

  /** No key occurs twice. */
  ghost predicate Once(s: seq<PciDevice>) {
    forall key :: multiset(Keys(s))[key] <= 1
  }

  lemma KeysConcat(a: seq<PciDevice>, b: seq<PciDevice>)
    ensures multiset(Keys(a + b)) == multiset(Keys(a)) + multiset(Keys(b))
  {
    assert Keys(a + b) == Keys(a) + Keys(b);
  }

  lemma {:induction false} DistinctIsOnce(s: seq<PciDevice>)
    requires Distinct(s)
    ensures Once(s)
  {
    hide Keys;
    if s != [] {
      var n := |s| - 1;
      assert Distinct(s[..n]);
      DistinctIsOnce(s[..n]);
      OneMore(s, n);
    }
  }

  lemma OneMore(s: seq<PciDevice>, n: nat)
    requires Distinct(s) && |s| == n + 1 && Once(s[..n])
    ensures Once(s)
  {
    hide Keys;
    KeysConcat(s[..n], [s[n]]);
    assert s == s[..n] + [s[n]] && Keys([s[n]]) == [s[n].device];
    assert s[n].device !in Keys(s[..n]);
    forall key ensures multiset(Keys(s))[key] <= 1 {
      assert multiset(Keys(s[..n]))[key] <= 1;
    }
  }

  /** With distinct keys the calls get smaller, if only after one that moves the least device to the front. */
  lemma {:induction false} OnceEnds(s: seq<PciDevice>, depth: nat)
    requires Once(s) && depth >= Rank(s)
    ensures Sort(s, depth).Some?
    decreases depth
  {
    hide *;
    SortStep(s, depth);
    if |s| > 1 {
      PartsAreLess(s);
      OnceEnds(Front(s), depth - 1);
      OnceEnds(Back(s), depth - 1);
    }
  }

  lemma PartsAreLess(s: seq<PciDevice>)
    requires |s| >= 2 && Once(s)
    ensures Once(Front(s)) && Once(Back(s)) && Rank(Front(s)) < Rank(s) && Rank(Back(s)) < Rank(s)
  {
    hide Front, Back, Once, Rank, Keys;
    SplitsAre(s);
    PartsAreOnce(s, Front(s), Back(s));
    PartsAreShort(s, Front(s), Back(s));
  }

  lemma PartsAreOnce(s: seq<PciDevice>, f: seq<PciDevice>, b: seq<PciDevice>)
    requires |s| >= 2 && SameDevices(s, f + b) && Once(s)
    ensures Once(f) && Once(b)
  {
    KeysConcat(f, b);
    forall key ensures multiset(Keys(f))[key] <= 1 && multiset(Keys(b))[key] <= 1 {
      assert multiset(Keys(s))[key] <= 1;
    }
  }

  lemma PartsAreShort(s: seq<PciDevice>, f: seq<PciDevice>, b: seq<PciDevice>)
    requires |s| >= 2 && Splits(s, f + b, |f|) && Once(s)
    ensures Rank(f) < Rank(s) && Rank(b) < Rank(s)
  {
    hide Keys;
    assert forall i :: 0 <= i < |b| ==> b[i] == (f + b)[|f| + i];
    assert FirstIsLeast(b);
    if f == [] && FirstIsLeast(s) {
      var m := |s| / 2;
      assert f + b == b && s[0] in multiset(b);
      Twice(Keys(s), 0, m);
    }
  }

  lemma Twice(k: seq<int>, i: nat, j: nat)
    requires i < j < |k| && k[i] == k[j]
    ensures multiset(k)[k[i]] >= 2
  {
    assert k == k[..j] + k[j..];
    assert k[i] in k[..j] && k[i] in k[j..];
  }

  lemma TwiceIsLong(k: seq<int>, key: int)
    requires multiset(k)[key] >= 2
    ensures |k| >= 2
  {
    assert multiset(k)[key] <= |multiset(k)| == |k|;
  }

  lemma StayTogether(s: seq<PciDevice>, f: seq<PciDevice>, b: seq<PciDevice>, key: int)
    requires |s| >= 2 && Splits(s, f + b, |f|) && b != []
    ensures multiset(Keys(s))[key] == multiset(Keys(if key < b[0].device then f else b))[key]
  {
    KeysConcat(f, b);
    assert (f + b)[|f|] == b[0];
    if key < b[0].device {
      forall i | 0 <= i < |b| ensures Keys(b)[i] != key {
        assert (f + b)[|f| + i] == b[i];
      }
    } else {
      forall i | 0 <= i < |f| ensures Keys(f)[i] != key {
        assert (f + b)[i] == f[i];
      }
    }
  }

  lemma TogetherStill(s: seq<PciDevice>, key: int)
    requires |s| >= 2 && multiset(Keys(s))[key] >= 2
    ensures multiset(Keys(Front(s)))[key] >= 2 || multiset(Keys(Back(s)))[key] >= 2
  {
    hide Front, Back, Keys, Splits;
    SplitsAre(s);
    StayTogether(s, Front(s), Back(s), key);
  }

  /** Devices with one key are never separated. */
  lemma {:induction false} TwiceNeverEnds(s: seq<PciDevice>, key: int, depth: nat)
    requires multiset(Keys(s))[key] >= 2
    ensures Sort(s, depth).None?
    decreases depth
  {
    hide *;
    TwiceIsLong(Keys(s), key);
    SortStep(s, depth);
    if depth > 0 {
      TogetherStill(s, key);
      if multiset(Keys(Front(s)))[key] >= 2 {
        TwiceNeverEnds(Front(s), key, depth - 1);
      } else {
        TwiceNeverEnds(Back(s), key, depth - 1);
      }
    }
  }

  /** On distinct keys twice as many nested calls as devices are enough; otherwise no number of calls is. */
  lemma SortEndsIff(s: seq<PciDevice>)
    ensures Distinct(s) ==> forall depth: nat :: depth >= 2 * |s| ==> Sort(s, depth).Some?
    ensures !Distinct(s) ==> forall depth: nat :: Sort(s, depth).None?
  {
    hide Sort, Once, Keys;
    if Distinct(s) {
      DistinctIsOnce(s);
      forall depth: nat | depth >= 2 * |s| ensures Sort(s, depth).Some? {
        OnceEnds(s, depth);
      }
    } else {
      var i, j :| 0 <= i < j < |s| && s[i].device == s[j].device;
      Twice(Keys(s), i, j);
      forall depth: nat ensures Sort(s, depth).None? {
        TwiceNeverEnds(s, s[i].device, depth);
      }
    }
  }

  // ----- In place -----

  method Swap(list: array<PciDevice>, i: nat, j: nat)
    requires i < list.Length && j < list.Length
    modifies list
    ensures list[..] == Swapped(old(list[..]), i, j)
  {
    var tmp := list[i];
    list[i] := list[j];
    list[j] := tmp;
  }

  /** The stretch of a list that a call works on. */
  ghost predicate OnlyStretch(a: seq<PciDevice>, b: seq<PciDevice>, lo: nat, len: nat) {
    |a| == |b| && lo + len <= |a| && a[..lo] == b[..lo] && a[lo + len..] == b[lo + len..]
  }

  lemma SwappedStretch(a: seq<PciDevice>, lo: nat, len: nat, i: nat, j: nat)
    requires i < len && j < len && lo + len <= |a|
    ensures var b := Swapped(a, lo + i, lo + j);
            OnlyStretch(a, b, lo, len) && b[lo..lo + len] == Swapped(a[lo..lo + len], i, j)
  {
  }

  method SwapIn(list: array<PciDevice>, lo: nat, len: nat, i: nat, j: nat)
    requires i < len && j < len && lo + len <= list.Length
    modifies list
    ensures OnlyStretch(old(list[..]), list[..], lo, len)
    ensures list[..][lo..lo + len] == Swapped(old(list[..][lo..lo + len]), i, j)
  {
    SwappedStretch(list[..], lo, len, i, j);
    Swap(list, lo + i, lo + j);
  }

  /** `partition` */
  method PartitionInPlace(list: array<PciDevice>, lo: nat, len: nat) returns (index: nat)
    requires len >= 2 && lo + len <= list.Length
    modifies list
    ensures OnlyStretch(old(list[..]), list[..], lo, len)
    ensures (list[..][lo..lo + len], index) == Partition(old(list[..][lo..lo + len]))
  {
    hide Swapped, Sweep, OnlyStretch;
    ghost var first := list[..];
    var val := list[lo + len / 2].device;
    index := 0;
    SwapIn(list, lo, len, len / 2, len - 1);
    ghost var u := list[..][lo..lo + len];
    NoSweep(u, val);
    for i := 0 to len - 1
      invariant index <= i && OnlyStretch(first, list[..], lo, len)
      invariant (list[..][lo..lo + len], index) == Sweep(u, val, i)
    {
      hide Partition;
      SweepMore(u, val, i);
      ghost var before := list[..];
      if list[lo + i].device < val {
        SwapIn(list, lo, len, i, index);
        StretchChain(first, before, list[..], lo, len);
        index := index + 1;
      }
    }
    ghost var swept := list[..];
    SwapIn(list, lo, len, index, len - 1);
    StretchChain(first, swept, list[..], lo, len);
  }

  /** `quicksort`, with a stack that has room for `depth` nested calls; `done` says whether that was enough. */
  method Quicksort(list: array<PciDevice>, lo: nat, len: nat, depth: nat) returns (done: bool)
    requires lo + len <= list.Length
    modifies list
    ensures OnlyStretch(old(list[..]), list[..], lo, len)
    ensures done <==> Sort(old(list[..][lo..lo + len]), depth).Some?
    ensures done ==> list[..][lo..lo + len] == Sort(old(list[..][lo..lo + len]), depth).value
    decreases depth
  {
    hide *;
    ghost var s := list[..][lo..lo + len];
    SortStep(s, depth);
    if len <= 1 {
      Unchanged(list[..], lo, len);
      return true;
    }
    if depth == 0 {
      Unchanged(list[..], lo, len);
      return false;
    }
    ghost var first := list[..];
    var index := PartitionInPlace(list, lo, len);
    ghost var whole := list[..];
    Parts(whole, lo, len, index);
    PartsAre(s);
    done := Quicksort(list, lo, index, depth - 1);
    ghost var half := list[..];
    LeftDone(whole, half, lo, len, index);
    StretchChain(first, whole, half, lo, len);
    if done {
      done := Quicksort(list, lo + index, len - index, depth - 1);
      RightDone(half, list[..], lo, len, index);
      StretchChain(first, half, list[..], lo, len);
    }
  }

  lemma Unchanged(a: seq<PciDevice>, lo: nat, len: nat)
    requires lo + len <= |a|
    ensures OnlyStretch(a, a, lo, len)
  {
  }

  lemma StretchChain(a: seq<PciDevice>, b: seq<PciDevice>, c: seq<PciDevice>, lo: nat, len: nat)
    requires OnlyStretch(a, b, lo, len) && OnlyStretch(b, c, lo, len)
    ensures OnlyStretch(a, c, lo, len)
  {
  }

  lemma Parts(a: seq<PciDevice>, lo: nat, len: nat, index: nat)
    requires lo + len <= |a| && index <= len
    ensures a[lo..lo + index] == a[lo..lo + len][..index]
    ensures a[lo + index..lo + index + (len - index)] == a[lo..lo + len][index..]
  {
  }

  lemma LeftDone(a: seq<PciDevice>, b: seq<PciDevice>, lo: nat, len: nat, index: nat)
    requires lo + len <= |a| && index <= len && OnlyStretch(a, b, lo, index)
    ensures OnlyStretch(a, b, lo, len)
    ensures b[lo + index..lo + index + (len - index)] == a[lo..lo + len][index..]
  {
    assert a[lo..lo + len][index..] == a[lo + index..][..len - index];
    assert b[lo + index..lo + index + (len - index)] == b[lo + index..][..len - index];
    assert a[lo + len..] == a[lo + index..][len - index..] && b[lo + len..] == b[lo + index..][len - index..];
  }

  lemma RightDone(a: seq<PciDevice>, b: seq<PciDevice>, lo: nat, len: nat, index: nat)
    requires lo + len <= |a| && index <= len && OnlyStretch(a, b, lo + index, len - index)
    ensures OnlyStretch(a, b, lo, len)
    ensures b[lo..lo + len] == a[lo..lo + index] + b[lo + index..lo + index + (len - index)]
  {
    assert a[..lo] == a[..lo + index][..lo] && b[..lo] == b[..lo + index][..lo];
    assert a[lo..lo + index] == a[..lo + index][lo..] && b[lo..lo + index] == b[..lo + index][lo..];
    assert b[lo..lo + len] == b[lo..lo + index] + b[lo + index..lo + len];
  }

  /** The call for the whole list, with a stack that has room for twice as many nested calls as devices. */
  method SortDevices(list: array<PciDevice>) returns (done: bool)
    modifies list
    ensures done <==> Distinct(old(list[..]))
    ensures done ==> Ascending(list[..]) && multiset(list[..]) == multiset(old(list[..]))
  {
    ghost var s := list[..];
    assert s[0..0 + |s|] == s;
    done := Quicksort(list, 0, list.Length, 2 * list.Length);
    assert list[..][0..0 + |s|] == list[..];
    SortEndsIff(s);
    if done {
      SortIsRight(s, 2 * |s|);
    }
  }
}

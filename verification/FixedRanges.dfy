/**
 Keeping the domain windows clear of resources at fixed addresses. Addresses are 64-bit
 words here: sums, differences and the signed comparison wrap as in the source.
 */
module FixedRanges {
  import opened Alignment
  import opened Resources
  import opened Passes

  /** A word read as a two's complement number. */
  function Signed(x: nat): int
    requires IsWord(x)
  {
    if x < WORDS / 2 then x else x - WORDS
  }

  /** The window still left for movable resources of one kind. */
  datatype Limit = Limit(base: nat, limit: nat)

  predicate WordRec(f: Rec) {
    f.size > 0 && f.base + f.size <= WORDS
  }

  predicate WordLimit(l: Limit) {
    IsWord(l.base) && IsWord(l.limit)
  }

  /** The fixed range does not reach into the window. */
  predicate Outside(l: Limit, f: Rec) {
    Wrap(f.base + f.size - 1) < l.base || f.base > l.limit
  }

  /** There is more room above the fixed range than below it, as the signed test sees it. */
  predicate MoreRoomAbove(l: Limit, f: Rec) {
    Signed(Wrap(l.limit - Wrap(f.base + f.size - 1))) > Signed(Wrap(f.base - l.base))
  }

  /** One fixed range met by `constrain_resources`. */
  function Avoid(l: Limit, f: Rec): Limit {
    if Outside(l, f) then l
    else if MoreRoomAbove(l, f) then l.(base := Wrap(f.base + f.size))
    else l.(limit := Wrap(f.base - 1))
  }

  /** No address of the window belongs to the fixed range. */
  ghost predicate Excludes(l: Limit, f: Rec) {
    forall a: nat :: Covered(l, a) ==> !Taken(f, a)
  }

  predicate Covered(l: Limit, a: nat) {
    l.base <= a <= l.limit
  }

  predicate Taken(f: Rec, a: nat) {
    f.base <= a < f.base + f.size
  }

  lemma ExcludesByBounds(l: Limit, f: Rec)
    requires f.size > 0
    ensures Excludes(l, f) <==> l.base > l.limit || f.base > l.limit || f.base + f.size <= l.base
  {
    var a := if l.base <= f.base then f.base else l.base;
    assert Covered(l, a) ==> (Taken(f, a) <==> a < f.base + f.size);
  }

  predicate Within(inner: Limit, outer: Limit) {
    outer.base <= inner.base && inner.limit <= outer.limit
  }

  /** The step runs off the end of the address space. */
  predicate RunsOff(l: Limit, f: Rec) {
    !Outside(l, f) && (if MoreRoomAbove(l, f) then f.base + f.size == WORDS else f.base == 0)
  }

  /** A step excludes the fixed range it looks at exactly when it does not run off. */
  lemma AvoidExcludesIff(l: Limit, f: Rec)
    requires WordLimit(l) && WordRec(f)
    ensures WordLimit(Avoid(l, f))
    ensures Excludes(Avoid(l, f), f) <==> !RunsOff(l, f)
    ensures !RunsOff(l, f) ==> Within(Avoid(l, f), l)
  {
    AvoidByBounds(l, f);
    ExcludesByBounds(Avoid(l, f), f);
    hide Wrap, MoreRoomAbove, Excludes;
  }

  lemma AvoidByBounds(l: Limit, f: Rec)
    requires WordLimit(l) && WordRec(f)
    ensures Outside(l, f) <==> f.base + f.size <= l.base || f.base > l.limit
    ensures !Outside(l, f) && MoreRoomAbove(l, f) ==>
              Avoid(l, f) == l.(base := if f.base + f.size == WORDS then 0 else f.base + f.size)
    ensures !Outside(l, f) && !MoreRoomAbove(l, f) ==>
              Avoid(l, f) == l.(limit := if f.base == 0 then WORDS - 1 else f.base - 1)
  {
    hide MoreRoomAbove, Wrap;
    WrapAtEdge(f.base + f.size - 1);
    WrapAtEdge(f.base + f.size);
    WrapAtEdge(f.base - 1);
  }

  lemma WrapAtEdge(x: int)
    requires -1 <= x <= WORDS
    ensures Wrap(x) == if x == WORDS then 0 else if x < 0 then WORDS - 1 else x
  {
    if x == WORDS {
      DivModUnique(x, WORDS, 1, 0);
    } else if x < 0 {
      DivModUnique(x, WORDS, -1, WORDS - 1);
    } else {
      DivModUnique(x, WORDS, 0, x);
    }
  }

  /**
   A fixed range that fills the window from address 0: there is no room on either side, the
   limit wraps to the top of the address space and the window grows instead of shrinking.
   */
  lemma AvoidCanGrowTheWindow()
    ensures var l, f := Limit(0, 0xffff), NoRec.(size := 0x1_0000);
            Avoid(l, f) == Limit(0, WORDS - 1) && !Excludes(Avoid(l, f), f)
  {
    var l, f := Limit(0, 0xffff), NoRec.(size := 0x1_0000);
    assert Wrap(-1) == WORDS - 1;
    assert RunsOff(l, f);
    AvoidExcludesIff(l, f);
  }

  /** The same at the other end, although the range below is free. */
  lemma AvoidCanKeepTheRange()
    ensures var l, f := Limit(0, 0x1000), NoRec.(base := 0x800, size := WORDS - 0x800);
            Avoid(l, f) == l && !Excludes(Avoid(l, f), f)
  {
    var l, f := Limit(0, 0x1000), NoRec.(base := 0x800, size := WORDS - 0x800);
    assert Wrap(0x1000 - Wrap(WORDS - 1)) == 0x1001 && Wrap(WORDS) == 0 && Wrap(0x800) == 0x800;
    assert RunsOff(l, f);
    AvoidExcludesIff(l, f);
  }

  // ----- Which side of a fixed range is kept -----

  /** How much of the window lies above the fixed range, and how much below it. */
  function Above(l: Limit, f: Rec): int {
    l.limit - (f.base + f.size - 1)
  }

  function Below(l: Limit, f: Rec): int {
    f.base - l.base
  }

  /** Whether a difference leaves the numbers that a signed word holds, and at which end. */
  function Overflow(x: int): int {
    if x >= 0x8000_0000_0000_0000 then 1 else if x < -0x8000_0000_0000_0000 then -1 else 0
  }

  lemma SignedDifference(x: int)
    requires -WORDS < x < WORDS
    ensures Signed(Wrap(x)) == x - Overflow(x) * WORDS
  {
    if x < 0 {
      DivModUnique(x, WORDS, -1, x + WORDS);
    } else {
      DivModUnique(x, WORDS, 0, x);
    }
  }

  /**
   The larger of the two parts is kept, exactly if both differences overflow alike: in a window of
   2^63 addresses or more the smaller part may be kept instead.
   */
  lemma LargerPartKeptIff(l: Limit, f: Rec)
    requires WordLimit(l) && WordRec(f) && !Outside(l, f)
    ensures (MoreRoomAbove(l, f) <==> Above(l, f) > Below(l, f)) <==>
            Overflow(Above(l, f)) == Overflow(Below(l, f))
    ensures var r := Avoid(l, f);
            !RunsOff(l, f) ==> r.limit + 1 - r.base == if MoreRoomAbove(l, f) then Above(l, f) else Below(l, f)
  {
    AvoidByBounds(l, f);
    WrapAtEdge(f.base + f.size - 1);
    SignedDifference(Above(l, f));
    SignedDifference(Below(l, f));
    hide Signed, Wrap, Overflow, Avoid;
    RoomAboveIs(l, f);
    OverflowsDecide(Above(l, f), Below(l, f));
  }

  lemma RoomAboveIs(l: Limit, f: Rec)
    requires WordLimit(l) && WordRec(f) && Wrap(f.base + f.size - 1) == f.base + f.size - 1
    ensures MoreRoomAbove(l, f) <==> Signed(Wrap(Above(l, f))) > Signed(Wrap(Below(l, f)))
  {
    hide Signed, Wrap;
  }

  lemma OverflowsDecide(a: int, b: int)
    requires -WORDS < a < WORDS && -WORDS < b < WORDS && -WORDS < a - b < WORDS
    ensures (a - Overflow(a) * WORDS > b - Overflow(b) * WORDS <==> a > b) <==> Overflow(a) == Overflow(b)
  {
  }

  /** All of the address space but one page is on one side of the range, and the other side is kept. */
  lemma SmallerPartIsKept()
    ensures var l, f := Limit(0, WORDS - 1), NoRec.(base := 0x1000, size := 0x1000);
            && Above(l, f) == WORDS - 0x2000 && Below(l, f) == 0x1000
            && Avoid(l, f) == Limit(0, 0xFFF)
  {
    var l, f := Limit(0, WORDS - 1), NoRec.(base := 0x1000, size := 0x1000);
    WrapAtEdge(f.base + f.size - 1);
    WrapAtEdge(f.base - 1);
    SignedDifference(Above(l, f));
    SignedDifference(Below(l, f));
    RoomAboveIs(l, f);
  }

  lemma ExcludesWithin(inner: Limit, outer: Limit, f: Rec)
    requires Within(inner, outer) && Excludes(outer, f)
    ensures Excludes(inner, f)
  {
    assert forall a: nat :: Covered(inner, a) ==> Covered(outer, a);
  }

  // ----- The descent -----

  datatype Limits = Limits(io: Limit, mem: Limit)

  /** The window for memory or for I/O. */
  function Share(l: Limits, kind: Kind): Limit {
    if kind.Mem? then l.mem else l.io
  }

  function AvoidOne(l: Limits, st: Store, f: Resource): Limits {
    if At(st, f).size == 0 then l else
      match f.kind
      case Mem => l.(mem := Avoid(l.mem, At(st, f)))
      case Io => l.(io := Avoid(l.io, At(st, f)))
      case _ => l
  }

  function AvoidAll(l: Limits, st: Store, fs: seq<Resource>): Limits {
    if fs == [] then l else AvoidOne(AvoidAll(l, st, fs[..|fs| - 1]), st, fs[|fs| - 1])
  }

  lemma {:induction false} AvoidAllConcat(l: Limits, st: Store, a: seq<Resource>, b: seq<Resource>)
    ensures AvoidAll(l, st, a + b) == AvoidAll(AvoidAll(l, st, a), st, b)
  {
    if b == [] {
      assert a + b == a;
    } else {
      assert (a + b)[..|a + b| - 1] == a + b[..|b| - 1];
      AvoidAllConcat(l, st, a, b[..|b| - 1]);
    }
  }

  function FixedOn(rs: seq<Resource>): seq<Resource> {
    if rs == [] then [] else
      FixedOn(rs[..|rs| - 1]) + (if rs[|rs| - 1].fixed then [rs[|rs| - 1]] else [])
  }

  /** The fixed resources of a device and of all enabled devices below it, in traversal order. */
  function FixedIn(dev: Device): seq<Resource>
    decreases dev, 1, 0
  {
    FixedOn(dev.resources) + FixedLinks(dev, |dev.links|)
  }

  function FixedLinks(dev: Device, n: nat): seq<Resource>
    requires n <= |dev.links|
    decreases dev, 0, n
  {
    if n == 0 then [] else FixedLinks(dev, n - 1) + FixedBelow(dev.links[n - 1], |dev.links[n - 1].children|)
  }

  function FixedBelow(bus: Bus, n: nat): seq<Resource>
    requires n <= |bus.children|
    decreases bus, 0, n
  {
    if n == 0 then [] else
      FixedBelow(bus, n - 1) + (if bus.children[n - 1].enabled then FixedIn(bus.children[n - 1]) else [])
  }

  predicate WordLimits(l: Limits) {
    WordLimit(l.io) && WordLimit(l.mem)
  }

  /** No step of the descent that concerns ranges of this kind runs off the end of the address space. */
  ghost predicate StaysOn(l: Limits, st: Store, fs: seq<Resource>, kind: Kind) {
    fs != [] ==>
      var rest, x := fs[..|fs| - 1], fs[|fs| - 1];
      && StaysOn(l, st, rest, kind)
      && (x.kind == kind && At(st, x).size > 0 ==>
            WordRec(At(st, x)) && !RunsOff(Share(AvoidAll(l, st, rest), kind), At(st, x)))
  }

  /** After the descent the window contains no address of any sized fixed resource of its kind. */
  lemma {:induction false} AvoidAllClears(l: Limits, st: Store, fs: seq<Resource>, kind: Kind)
    requires (kind.Mem? || kind.Io?) && WordLimit(Share(l, kind)) && StaysOn(l, st, fs, kind)
    ensures WordLimit(Share(AvoidAll(l, st, fs), kind)) && Within(Share(AvoidAll(l, st, fs), kind), Share(l, kind))
    ensures forall f :: f in fs && f.kind == kind && At(st, f).size > 0 ==>
              Excludes(Share(AvoidAll(l, st, fs), kind), At(st, f))
  {
    hide Avoid, RunsOff, Excludes;
    if fs != [] {
      var rest, x := fs[..|fs| - 1], fs[|fs| - 1];
      AvoidAllClears(l, st, rest, kind);
      var mid, end := Share(AvoidAll(l, st, rest), kind), Share(AvoidAll(l, st, fs), kind);
      AvoidOneStep(AvoidAll(l, st, rest), st, x, kind);
      if x.kind == kind && At(st, x).size > 0 {
        AvoidExcludesIff(mid, At(st, x));
      }
      forall f | f in fs && f.kind == kind && At(st, f).size > 0
        ensures Excludes(end, At(st, f))
      {
        if f in rest {
          ExcludesWithin(end, mid, At(st, f));
        } else {
          assert f == x;
        }
      }
    }
  }

  lemma AvoidOneStep(l: Limits, st: Store, x: Resource, kind: Kind)
    requires kind.Mem? || kind.Io?
    ensures Share(AvoidOne(l, st, x), kind) ==
            if x.kind == kind && At(st, x).size > 0 then Avoid(Share(l, kind), At(st, x)) else Share(l, kind)
  {
  }

  /**
   Ranges that start at 0 lie within the first `gap` addresses, all others start behind them,
   and none reaches the top of the address space.
   */
  predicate AwayFromEnds(f: Rec, gap: nat) {
    f.size > 0 && f.base + f.size < WORDS && (if f.base == 0 then f.size <= gap else f.base > gap)
  }

  /** Under these conditions on the ranges themselves, and a window that ends behind the gap, nothing runs off. */
  lemma {:induction false} RangesStayOn(l: Limits, st: Store, fs: seq<Resource>, kind: Kind, gap: nat)
    requires (kind.Mem? || kind.Io?) && WordLimit(Share(l, kind)) && gap <= Share(l, kind).limit < WORDS / 2
    requires forall f :: f in fs && f.kind == kind && At(st, f).size > 0 ==> AwayFromEnds(At(st, f), gap)
    ensures StaysOn(l, st, fs, kind)
    ensures WordLimit(Share(AvoidAll(l, st, fs), kind)) && gap <= Share(AvoidAll(l, st, fs), kind).limit < WORDS / 2
  {
    hide Avoid, RunsOff;
    if fs != [] {
      var rest, x := fs[..|fs| - 1], fs[|fs| - 1];
      RangesStayOn(l, st, rest, kind, gap);
      AvoidOneStep(AvoidAll(l, st, rest), st, x, kind);
      assert x in fs;
      if x.kind == kind && At(st, x).size > 0 {
        RangeStaysOn(Share(AvoidAll(l, st, rest), kind), At(st, x), gap);
      }
    }
  }

  lemma RangeStaysOn(l: Limit, f: Rec, gap: nat)
    requires WordLimit(l) && gap <= l.limit < WORDS / 2 && AwayFromEnds(f, gap)
    ensures !RunsOff(l, f) && WordLimit(Avoid(l, f)) && gap <= Avoid(l, f).limit < WORDS / 2
  {
    AvoidByBounds(l, f);
    if f.base == 0 && !Outside(l, f) {
      assert Wrap(f.base + f.size - 1) == f.size - 1;
      assert Wrap(l.limit - (f.size - 1)) == l.limit - (f.size - 1) >= 1;
      var below: int := f.base - l.base;
      assert below < 0 ==> Wrap(below) == WORDS + below;
    }
  }

  /** The windows being narrowed, as `constrain_resources` shares them. */
  class Constraints {
    var io: Limit
    var mem: Limit

    constructor ()
      ensures io == Limit(0, WORDS - 1) && mem == Limit(0, WORDS - 1)
    {
      io, mem := Limit(0, WORDS - 1), Limit(0, WORDS - 1);
    }

    function Get(): Limits
      reads this
    {
      Limits(io, mem)
    }

    method AvoidResource(res: Resource, ghost st: Store)
      requires res in st && st[res] == res.Get()
      modifies this
      ensures Get() == AvoidOne(old(Get()), st, res)
    {
      if res.size == 0 {
        return;
      }
      if res.kind != Mem && res.kind != Io {
        return;
      }
      var lim := if res.kind == Mem then mem else io;
      var end := Wrap(res.base + res.size - 1);
      if end < lim.base || res.base > lim.limit {
        return;
      }
      if Signed(Wrap(lim.limit - end)) > Signed(Wrap(res.base - lim.base)) {
        lim := lim.(base := Wrap(res.base + res.size));
      } else {
        lim := lim.(limit := Wrap(res.base - 1));
      }
      if res.kind == Mem {
        mem := lim;
      } else {
        io := lim;
      }
    }
  }

  /** All records of a device and of everything below it. */
  function RecordsIn(dev: Device): set<Resource> {
    (set r | r in dev.resources) + (set bus, d, r | bus in dev.links && d in bus.children && r in RecordsIn(d) :: r)
  }

  lemma AvoidAllSnoc(l: Limits, st: Store, fs: seq<Resource>, x: Resource)
    ensures AvoidAll(l, st, fs + [x]) == AvoidOne(AvoidAll(l, st, fs), st, x)
  {
    assert (fs + [x])[..|fs|] == fs;
  }

  /** The fixed resources of the device itself. */
  method ConstrainOwn(dev: Device, limits: Constraints, ghost st: Store)
    requires forall r :: r in dev.resources ==> r in st && st[r] == r.Get()
    modifies limits
    ensures limits.Get() == AvoidAll(old(limits.Get()), st, FixedOn(dev.resources))
  {
    ghost var l0 := limits.Get();
    for i := 0 to |dev.resources|
      invariant limits.Get() == AvoidAll(l0, st, FixedOn(dev.resources[..i]))
    {
      var res := dev.resources[i];
      assert dev.resources[..i + 1][..i] == dev.resources[..i];
      if res.fixed {
        AvoidAllSnoc(l0, st, FixedOn(dev.resources[..i]), res);
        limits.AvoidResource(res, st);
      } else {
        assert FixedOn(dev.resources[..i]) + [] == FixedOn(dev.resources[..i]);
      }
    }
    assert dev.resources[..|dev.resources|] == dev.resources;
  }

  /** The enabled devices on one link. */
  method ConstrainLink(dev: Device, i: nat, limits: Constraints, ghost st: Store)
    requires i < |dev.links| && forall r :: r in RecordsIn(dev) ==> r in st && st[r] == r.Get()
    modifies limits
    ensures limits.Get() == AvoidAll(old(limits.Get()), st, FixedBelow(dev.links[i], |dev.links[i].children|))
    decreases dev, 0
  {
    var link := dev.links[i];
    ghost var l0 := limits.Get();
    for j := 0 to |link.children|
      invariant limits.Get() == AvoidAll(l0, st, FixedBelow(link, j))
    {
      var child := link.children[j];
      if child.enabled {
        forall r | r in RecordsIn(child) ensures r in RecordsIn(dev) {
          assert link in dev.links && child in link.children;
        }
        AvoidAllConcat(l0, st, FixedBelow(link, j), FixedIn(child));
        ConstrainResources(child, limits, st);
      } else {
        assert FixedBelow(link, j) + [] == FixedBelow(link, j);
      }
    }
  }

  method ConstrainResources(dev: Device, limits: Constraints, ghost st: Store)
    requires forall r :: r in RecordsIn(dev) ==> r in st && st[r] == r.Get()
    modifies limits
    ensures limits.Get() == AvoidAll(old(limits.Get()), st, FixedIn(dev))
    decreases dev, 1
  {
    ghost var l0 := limits.Get();
    ConstrainOwn(dev, limits, st);
    ghost var l1 := limits.Get();
    for i := 0 to |dev.links|
      invariant limits.Get() == AvoidAll(l1, st, FixedLinks(dev, i))
    {
      AvoidAllConcat(l1, st, FixedLinks(dev, i), FixedBelow(dev.links[i], |dev.links[i].children|));
      ConstrainLink(dev, i, limits, st);
    }
    AvoidAllConcat(l0, st, FixedOn(dev.resources), FixedLinks(dev, |dev.links|));
  }
}

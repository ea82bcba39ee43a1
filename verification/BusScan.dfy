/**
 The recursive scan that numbers the buses: a bridge is opened to all higher numbers while the
 bus behind it is scanned, and closed down to what was found there afterwards.
 */
module BusScan {
  import opened BusNumbers

  ghost predicate NoDup(s: seq<Bus>) {
    forall i, j :: 0 <= i < j < |s| ==> s[i] != s[j]
  }

  ghost predicate SameOutside(a: Store, b: Store, touched: seq<Bus>) {
    b.Keys == a.Keys && forall x :: x in a && x !in touched ==> At(b, x) == At(a, x)
  }

  ghost predicate CommandsKept(a: Store, b: Store, s: seq<Bus>) {
    forall x :: x in s ==> At(b, x).command == At(a, x).command
  }

  ghost predicate Covers(st: Store, s: seq<Bus>) {
    forall x :: x in s ==> x in st
  }

  /** The registers at the moment when the devices of a bus are looked for, by that bus's number. */
  datatype Probe = Probe(bus: Bus, number: nat, st: Store)

  /**
   The probe is for bus number j of the tree, by its number; and if there is such a bus number,
   the configuration cycles arrive on that bus and on no other.
   */
  ghost predicate Hits(p: Probe, t: Tree, first: nat, j: nat)
    requires j < Count(t)
  {
    && p.bus == Preorder(t)[j] && p.number == Word16(first + j) && Bytes(p.st)
    && (first + j <= MAX_BUS ==> Deliver(p.st, first, t, first + j) == {Preorder(t)[j]})
  }

  /** The bus and i of the buses behind it have been scanned. */
  ghost predicate InScan(s0: Store, s: Store, t: Tree, first: nat, i: nat, log: seq<Probe>)
    requires i <= |t.behind|
  {
    var done := t.behind[..i];
    && At(s, t.bus) == At(s0, t.bus).(subordinate := Word16(first + CountAll(done)))
    && NumberedAll(s, done, first + 1)
    && SameOutside(s0, s, [t.bus] + PreorderAll(done)) && CommandsKept(s0, s, PreorderAll(done))
    && |log| == 1 + CountAll(done) && Logged(s0, t, first, log)
  }

  /** The first buses of the tree have been probed, each by its number. */
  ghost predicate Logged(s0: Store, t: Tree, first: nat, log: seq<Probe>) {
    && |log| <= Count(t)
    && forall j :: 0 <= j < |log| ==> Hits(log[j], t, first, j) && Around(s0, log[j].st, t)
  }

  /** Outside the tree nothing has changed, and its own window has not either. */
  ghost predicate Around(s0: Store, st: Store, t: Tree) {
    SameOutside(s0, st, Preorder(t)) && SameWindow(At(s0, t.bus), At(st, t.bus))
  }

  predicate SameWindow(a: Regs, b: Regs) {
    a.secondaryReg == b.secondaryReg && a.subordinateReg == b.subordinateReg
  }

  /** A bridge found behind `parent`, which is bus number `up`, has been scanned and numbered from k on. */
  ghost predicate BridgeScanned(s1: Store, s2: Store, parent: Bus, up: nat, c: Tree, k: nat, log: seq<Probe>) {
    && At(s2, parent) == At(s1, parent).(subordinate := Word16(k + Count(c) - 1))
    && Numbered(s2, c, k, up) && SameOutside(s1, s2, [parent] + Preorder(c)) && CommandsKept(s1, s2, Preorder(c))
    && LoggedBehind(s1, parent, c, k, log)
  }

  ghost predicate LoggedBehind(s1: Store, parent: Bus, c: Tree, k: nat, log: seq<Probe>) {
    && |log| == Count(c)
    && forall j :: 0 <= j < |log| ==> Hits(log[j], c, k, j) && OpenDuring(s1, log[j].st, parent, c, k)
  }

  /** While c is being scanned it is open to every number from its own on, and nothing else has changed. */
  ghost predicate OpenDuring(s1: Store, st: Store, parent: Bus, c: Tree, k: nat) {
    && At(st, c.bus).secondaryReg == Byte(k) && At(st, c.bus).subordinateReg == MAX_BUS
    && SameOutside(s1, st, [parent] + Preorder(c)) && SameWindow(At(s1, parent), At(st, parent))
  }

  // ----- Trees without repetition -----

  lemma {:induction false} PreorderParts(ts: seq<Tree>, i: nat)
    requires i < |ts|
    ensures CountAll(ts[..i + 1]) == CountAll(ts[..i]) + Count(ts[i]) <= CountAll(ts)
    ensures PreorderAll(ts[..i + 1]) == PreorderAll(ts[..i]) + Preorder(ts[i])
    ensures PreorderAll(ts[..i + 1]) <= PreorderAll(ts)
    ensures forall j :: 0 <= j < Count(ts[i]) ==> PreorderAll(ts)[CountAll(ts[..i]) + j] == Preorder(ts[i])[j]
  {
    assert ts[..i + 1][..i] == ts[..i];
    PreorderPrefix(ts, i + 1);
    var a, b := PreorderAll(ts[..i]), Preorder(ts[i]);
    forall j | 0 <= j < Count(ts[i]) ensures PreorderAll(ts)[CountAll(ts[..i]) + j] == b[j] {
      assert PreorderAll(ts[..i + 1])[|a| + j] == b[j];
    }
  }

  lemma {:induction false} PreorderPrefix(ts: seq<Tree>, i: nat)
    requires i <= |ts|
    ensures PreorderAll(ts[..i]) <= PreorderAll(ts) && CountAll(ts[..i]) <= CountAll(ts)
  {
    if i < |ts| {
      PreorderPrefix(ts[..|ts| - 1], i);
      assert ts[..|ts| - 1][..i] == ts[..i];
    } else {
      assert ts[..i] == ts;
    }
  }

  /** Where a bus of one tree stands among the buses of the list. */
  lemma {:induction false} Place(ts: seq<Tree>, i: nat, x: Bus) returns (p: nat)
    requires i < |ts| && x in Preorder(ts[i])
    ensures CountAll(ts[..i]) <= p < CountAll(ts[..i]) + Count(ts[i]) <= CountAll(ts) && PreorderAll(ts)[p] == x
  {
    hide Preorder, PreorderAll, CountAll, Count;
    PreorderParts(ts, i);
    var a :| 0 <= a < Count(ts[i]) && Preorder(ts[i])[a] == x;
    p := CountAll(ts[..i]) + a;
  }

  /** The trees of a list without repetition have no buses in common. */
  lemma {:induction false} TreesApart(ts: seq<Tree>, i: nat, j: nat, x: Bus)
    requires NoDup(PreorderAll(ts)) && i < |ts| && j < |ts| && i != j && x in Preorder(ts[i])
    ensures x !in Preorder(ts[j]) && x in PreorderAll(ts)
  {
    hide Preorder, PreorderAll, CountAll, Count;
    var p := Place(ts, i, x);
    if x in Preorder(ts[j]) {
      var q := Place(ts, j, x);
      Ordered(ts, i, j);
      Ordered(ts, j, i);
    }
  }

  lemma Ordered(ts: seq<Tree>, i: nat, j: nat)
    requires i < |ts| && j < |ts|
    ensures i < j ==> CountAll(ts[..i]) + Count(ts[i]) <= CountAll(ts[..j])
  {
    if i < j {
      PreorderParts(ts, i);
      PreorderPrefix(ts[..j], i + 1);
      assert ts[..j][..i + 1] == ts[..i + 1];
    }
  }

  lemma NoDupBehind(t: Tree)
    requires NoDup(Preorder(t))
    ensures NoDup(PreorderAll(t.behind)) && t.bus !in PreorderAll(t.behind)
  {
    var s := Preorder(t);
    assert s[0] == t.bus && s[1..] == PreorderAll(t.behind);
    forall i, j | 0 <= i < j < |s| - 1 ensures PreorderAll(t.behind)[i] != PreorderAll(t.behind)[j] {
      assert s[i + 1] == PreorderAll(t.behind)[i] && s[j + 1] == PreorderAll(t.behind)[j];
    }
    forall i | 0 <= i < |s| - 1 ensures PreorderAll(t.behind)[i] != t.bus {
      assert s[i + 1] == PreorderAll(t.behind)[i];
    }
  }

  lemma NoDupOne(ts: seq<Tree>, i: nat)
    requires NoDup(PreorderAll(ts)) && i < |ts|
    ensures NoDup(Preorder(ts[i]))
  {
    hide NoDup, Preorder, PreorderAll, CountAll, Count;
    PreorderParts(ts, i);
    SliceNoDup(PreorderAll(ts), Preorder(ts[i]), CountAll(ts[..i]));
  }

  lemma SliceNoDup(all: seq<Bus>, s: seq<Bus>, off: nat)
    requires NoDup(all) && off + |s| <= |all| && forall j :: 0 <= j < |s| ==> all[off + j] == s[j]
    ensures NoDup(s)
  {
    forall a, b | 0 <= a < b < |s| ensures s[a] != s[b] {
      assert all[off + a] == s[a] && all[off + b] == s[b];
    }
  }

  // ----- The windows while a bus is being scanned -----

  /** Of a list of bridges, the ones before i are numbered, the ones behind it are shut, and i has the cycle. */
  lemma {:induction false} OpenDelivers(st: Store, ts: seq<Tree>, first: nat, i: nat, n: nat, b: Bus)
    requires i < |ts| && 1 <= n <= MAX_BUS && NumberedAll(st, ts[..i], first)
    requires forall j :: i < j < |ts| ==> Shut(st, ts[j])
    requires Forwards(At(st, ts[i].bus), n) && first + CountAll(ts[..i]) <= n
    requires Deliver(st, At(st, ts[i].bus).secondaryReg, ts[i], n) == {b}
    ensures DeliverAll(st, ts, n) == {b}
    decreases |ts|
  {
    var m := |ts| - 1;
    if i < m {
      assert ts[..m][..i] == ts[..i];
      OpenDelivers(st, ts[..m], first, i, n, b);
    } else {
      NumberedAllDelivers(st, ts[..m], first, n);
    }
  }

  lemma {:induction false} ShutEach(st: Store, ts: seq<Tree>, j: nat)
    requires ShutAll(st, ts) && j < |ts|
    ensures Shut(st, ts[j])
  {
    if j < |ts| - 1 {
      ShutEach(st, ts[..|ts| - 1], j);
    }
  }

  /** A probe behind one bridge of the bus hits in the whole tree. */
  lemma {:induction false} HitsAbove(s0: Store, s1: Store, t: Tree, first: nat, i: nat, p: Probe, j: nat)
    requires NoDup(Preorder(t)) && i < |t.behind| && j < Count(t.behind[i]) && ShutAll(s0, t.behind)
    requires Covers(s0, Preorder(t))
    requires NumberedAll(s1, t.behind[..i], first + 1) && SameOutside(s0, s1, [t.bus] + PreorderAll(t.behind[..i]))
    requires var c, k := t.behind[i], first + 1 + CountAll(t.behind[..i]);
             Hits(p, c, k, j) && OpenDuring(s1, p.st, t.bus, c, k)
    ensures 1 + CountAll(t.behind[..i]) + j < Count(t) && Hits(p, t, first, 1 + CountAll(t.behind[..i]) + j)
  {
    hide NumberedAll, ShutAll, Shut, DeliverAll, Deliver, NoDup, Preorder, PreorderAll, CountAll, Count, SameOutside;
    hide Covers;
    var ts := t.behind;
    var c, k := ts[i], first + 1 + CountAll(ts[..i]);
    NoDupBehind(t);
    PositionOf(t, i, j);
    forall m | i < m < |ts| ensures Shut(p.st, ts[m]) {
      ShutEach(s0, ts, m);
      LaterSame(s0, s1, p.st, t, i, m);
      ShutFrame(s0, p.st, ts[m]);
    }
    if k + j <= MAX_BUS {
      EarlierStays(s0, s1, p.st, t, i, first + 1);
      OpenDelivers(p.st, ts, first + 1, i, k + j, Preorder(c)[j]);
      DeliverBelow(p.st, first, t, k + j);
    }
  }

  lemma PositionOf(t: Tree, i: nat, j: nat)
    requires i < |t.behind| && j < Count(t.behind[i])
    ensures 1 + CountAll(t.behind[..i]) + j < Count(t)
    ensures Preorder(t)[1 + CountAll(t.behind[..i]) + j] == Preorder(t.behind[i])[j]
  {
    hide *;
    PreorderParts(t.behind, i);
    BusFirst(t, CountAll(t.behind[..i]) + j);
  }

  lemma BusFirst(t: Tree, n: nat)
    requires n < CountAll(t.behind)
    ensures 1 + n < Count(t) && Preorder(t)[1 + n] == PreorderAll(t.behind)[n]
  {
    hide PreorderAll, CountAll;
  }

  lemma DeliverBelow(st: Store, number: nat, t: Tree, n: nat)
    requires n != number
    ensures Deliver(st, number, t, n) == DeliverAll(st, t.behind, n)
  {
  }

  lemma {:induction false} EarlierStays(s0: Store, s1: Store, st: Store, t: Tree, i: nat, first: nat)
    requires NoDup(PreorderAll(t.behind)) && t.bus !in PreorderAll(t.behind) && i < |t.behind|
    requires SameOutside(s1, st, [t.bus] + Preorder(t.behind[i])) &&
             SameOutside(s0, s1, [t.bus] + PreorderAll(t.behind[..i]))
    requires Covers(s0, Preorder(t)) && NumberedAll(s1, t.behind[..i], first)
    ensures NumberedAll(st, t.behind[..i], first)
  {
    hide NumberedAll, Preorder, PreorderAll;
    assert Covers(s1, Preorder(t));
    EarlierSame(s1, st, t, i);
    NumberedAllFrame(s1, st, t.behind[..i], first);
  }

  lemma {:induction false} LaterSame(s0: Store, s1: Store, st: Store, t: Tree, i: nat, m: nat)
    requires NoDup(PreorderAll(t.behind)) && t.bus !in PreorderAll(t.behind) && i < m < |t.behind|
    requires SameOutside(s0, s1, [t.bus] + PreorderAll(t.behind[..i])) &&
             SameOutside(s1, st, [t.bus] + Preorder(t.behind[i]))
    requires Covers(s0, Preorder(t))
    ensures SameOn(s0, st, Preorder(t.behind[m]))
  {
    var ts := t.behind;
    forall x | x in Preorder(ts[m]) ensures At(st, x) == At(s0, x) {
      TreesApart(ts, m, i, x);
      assert x in Preorder(t);
      if x in PreorderAll(ts[..i]) {
        NotInPrefix(ts, i, m, x);
      }
    }
  }

  lemma {:induction false} NotInPrefix(ts: seq<Tree>, i: nat, m: nat, x: Bus)
    requires NoDup(PreorderAll(ts)) && i <= m < |ts| && x in Preorder(ts[m])
    ensures x !in PreorderAll(ts[..i])
  {
    if i > 0 {
      NotInPrefix(ts, i - 1, m, x);
      PreorderParts(ts, i - 1);
      TreesApart(ts, m, i - 1, x);
    }
  }

  lemma {:induction false} EarlierSame(s1: Store, st: Store, t: Tree, i: nat)
    requires NoDup(PreorderAll(t.behind)) && t.bus !in PreorderAll(t.behind) && i < |t.behind|
    requires SameOutside(s1, st, [t.bus] + Preorder(t.behind[i])) && Covers(s1, Preorder(t))
    ensures SameOn(s1, st, PreorderAll(t.behind[..i]))
  {
    var ts := t.behind;
    PreorderPrefix(ts, i);
    forall x | x in PreorderAll(ts[..i]) ensures At(st, x) == At(s1, x) {
      assert x in PreorderAll(ts) && x in Preorder(t);
      if x in Preorder(ts[i]) {
        NotInPrefix(ts, i, i, x);
      }
    }
  }

  // ----- One more bridge -----

  lemma OutsideChain(s0: Store, s1: Store, s2: Store, a: seq<Bus>, b: seq<Bus>, c: seq<Bus>)
    requires SameOutside(s0, s1, a) && SameOutside(s1, s2, b)
    requires forall x :: x in a || x in b ==> x in c
    ensures SameOutside(s0, s2, c)
  {
  }

  lemma InTree(t: Tree, i: nat)
    requires i < |t.behind|
    ensures forall x :: x in PreorderAll(t.behind[..i]) ==> x in PreorderAll(t.behind[..i + 1]) && x in Preorder(t)
    ensures forall x :: x in Preorder(t.behind[i]) ==> x in PreorderAll(t.behind[..i + 1]) && x in Preorder(t)
    ensures forall x :: x in PreorderAll(t.behind[..i + 1]) ==>
              x in PreorderAll(t.behind[..i]) || x in Preorder(t.behind[i])
  {
    PreorderParts(t.behind, i);
    PreorderPrefix(t.behind, i);
    assert forall x :: x in PreorderAll(t.behind) ==> x in Preorder(t);
  }

  lemma {:induction false} CommandsStay(s0: Store, s1: Store, s2: Store, t: Tree, i: nat)
    requires NoDup(PreorderAll(t.behind)) && t.bus !in PreorderAll(t.behind) && i < |t.behind| &&
             Covers(s0, Preorder(t))
    requires SameOutside(s0, s1, [t.bus] + PreorderAll(t.behind[..i])) &&
             CommandsKept(s0, s1, PreorderAll(t.behind[..i]))
    requires SameOutside(s1, s2, [t.bus] + Preorder(t.behind[i])) && CommandsKept(s1, s2, Preorder(t.behind[i]))
    ensures CommandsKept(s0, s2, PreorderAll(t.behind[..i + 1]))
  {
    InTree(t, i);
    EarlierSame(s1, s2, t, i);
    PreorderParts(t.behind, i);
    hide Preorder, PreorderAll;
    forall x | x in PreorderAll(t.behind[..i + 1])
      ensures At(s2, x).command == At(s0, x).command
    {
      if x !in PreorderAll(t.behind[..i]) {
        assert x in PreorderAll(t.behind) && At(s1, x) == At(s0, x);
      }
    }
  }

  lemma NumberedMore(st: Store, ts: seq<Tree>, first: nat, i: nat)
    requires i < |ts| && NumberedAll(st, ts[..i], first) && Numbered(st, ts[i], first + CountAll(ts[..i]), Above(first))
    ensures NumberedAll(st, ts[..i + 1], first)
  {
    assert ts[..i + 1][..i] == ts[..i];
  }

  lemma ProbeOutside(s0: Store, s1: Store, t: Tree, i: nat, p: Probe, k: nat)
    requires i < |t.behind| && SameOutside(s0, s1, [t.bus] + PreorderAll(t.behind[..i]))
    requires OpenDuring(s1, p.st, t.bus, t.behind[i], k) && SameWindow(At(s0, t.bus), At(s1, t.bus))
    ensures Around(s0, p.st, t)
  {
    InTree(t, i);
    assert t.bus in Preorder(t);
    hide Preorder, PreorderAll, SameOutside;
    OutsideChain(s0, s1, p.st, [t.bus] + PreorderAll(t.behind[..i]), [t.bus] + Preorder(t.behind[i]), Preorder(t));
  }

  lemma {:induction false} LoggedMore(s0: Store, s1: Store, t: Tree, first: nat, i: nat, log: seq<Probe>,
                                      log2: seq<Probe>)
    requires NoDup(Preorder(t)) && ShutAll(s0, t.behind) && Covers(s0, Preorder(t))
    requires i < |t.behind| && Logged(s0, t, first, log) && |log| == 1 + CountAll(t.behind[..i])
    requires NumberedAll(s1, t.behind[..i], first + 1) && SameOutside(s0, s1, [t.bus] + PreorderAll(t.behind[..i]))
    requires SameWindow(At(s0, t.bus), At(s1, t.bus))
    requires LoggedBehind(s1, t.bus, t.behind[i], first + 1 + CountAll(t.behind[..i]), log2)
    ensures Logged(s0, t, first, log + log2)
  {
    hide Preorder, PreorderAll, CountAll, Count, Hits, NumberedAll, ShutAll, NoDup, SameOutside, Covers, OpenDuring;
    hide Around;
    PositionOf(t, i, Count(t.behind[i]) - 1);
    forall j | 0 <= j < |log + log2|
      ensures j < Count(t) && Hits((log + log2)[j], t, first, j) && Around(s0, (log + log2)[j].st, t)
    {
      if j >= |log| {
        var p := log2[j - |log|];
        HitsAbove(s0, s1, t, first, i, p, j - |log|);
        ProbeOutside(s0, s1, t, i, p, first + 1 + CountAll(t.behind[..i]));
      }
    }
  }

  lemma {:induction false} Extend(s0: Store, s1: Store, s2: Store, t: Tree, first: nat, i: nat, log: seq<Probe>,
                                  log2: seq<Probe>)
    requires NoDup(Preorder(t)) && ShutAll(s0, t.behind) && Covers(s0, Preorder(t))
    requires i < |t.behind| && InScan(s0, s1, t, first, i, log)
    requires BridgeScanned(s1, s2, t.bus, first, t.behind[i], first + 1 + CountAll(t.behind[..i]), log2)
    ensures InScan(s0, s2, t, first, i + 1, log + log2)
  {
    hide Preorder, PreorderAll, CountAll, Count, NumberedAll, ShutAll, Numbered, NoDup, Logged, SameOutside;
    hide CommandsKept, Covers;
    var ts := t.behind;
    NoDupBehind(t);
    PreorderParts(ts, i);
    InTree(t, i);
    LoggedMore(s0, s1, t, first, i, log, log2);
    EarlierStays(s0, s1, s2, t, i, first + 1);
    NumberedMore(s2, ts, first + 1, i);
    CommandsStay(s0, s1, s2, t, i);
    OutsideChain(s0, s1, s2, [t.bus] + PreorderAll(ts[..i]), [t.bus] + Preorder(ts[i]),
      [t.bus] + PreorderAll(ts[..i + 1]));
  }

  // ----- The scan -----

  /** `pci_bridge_route` before the scan. */
  method RouteScan(parent: Bus, link: Bus, ghost pool: set<Bus>)
    requires parent != link && link in pool && parent in pool
    modifies link
    ensures var k := Word16(parent.subordinate + 1);
            View(pool) == old(View(pool))[link := Regs(k, k, Byte(parent.secondary), Byte(k), 255, 0,
              old(link.command))]
  {
    link.secondary := Word16(parent.subordinate + 1);
    link.subordinate := link.secondary;
    link.bridgeCmd := link.command;
    link.command := 0;
    link.primaryReg := Byte(parent.secondary);
    link.secondaryReg := Byte(link.secondary);
    link.subordinateReg := 255;
  }

  /** `pci_bridge_route` after the scan. */
  method RouteFinal(parent: Bus, link: Bus, ghost pool: set<Bus>)
    requires parent != link && link in pool && parent in pool
    modifies link, parent`subordinate
    ensures View(pool) == old(View(pool))
              [link := old(link.Get()).(primaryReg := Byte(parent.secondary), secondaryReg := Byte(old(link.secondary)),
                                        subordinateReg := Byte(old(link.subordinate)), command := old(link.bridgeCmd))]
              [parent := old(parent.Get()).(subordinate := old(link.subordinate))]
  {
    link.primaryReg := Byte(parent.secondary);
    link.secondaryReg := Byte(link.secondary);
    link.subordinateReg := Byte(link.subordinate);
    link.command := link.bridgeCmd;
    parent.subordinate := link.subordinate;
  }

  lemma FirstProbe(st: Store, t: Tree, first: nat)
    requires At(st, t.bus).subordinate == Word16(first) && Bytes(st)
    ensures InScan(st, st, t, first, 0, [Probe(t.bus, Word16(first), st)])
  {
    assert Preorder(t)[0] == t.bus && CountAll(t.behind[..0]) == 0;
    assert t.behind[..0] == [];
  }

  lemma InCovers(st: Store, s: seq<Bus>, x: Bus)
    requires Covers(st, s) && x in s
    ensures x in st
  {
  }

  /** A bridge that was opened, scanned behind and closed down again. */
  lemma {:induction false} BridgeDone(s1: Store, open: Store, scanned: Store, s2: Store, parent: Bus, up: nat, c: Tree,
                                      k: nat, log: seq<Probe>)
    requires At(s1, parent).secondary == Word16(up)
    requires NoDup(Preorder(c)) && parent !in Preorder(c) && parent in s1 && Covers(s1, Preorder(c))
    requires open == s1[c.bus := Regs(Word16(k), Word16(k), Byte(At(s1, parent).secondary), Byte(k), 255, 0,
                                      At(s1, c.bus).command)]
    requires InScan(open, scanned, c, k, |c.behind|, log)
    requires var r := At(scanned, c.bus);
             s2 == scanned[c.bus := r.(primaryReg := Byte(At(scanned, parent).secondary),
                                       secondaryReg := Byte(r.secondary),
                                       subordinateReg := Byte(r.subordinate), command := r.bridgeCmd)]
                          [parent := At(scanned, parent).(subordinate := r.subordinate)]
    ensures BridgeScanned(s1, s2, parent, up, c, k, log)
  {
    hide Hits, NoDup, Logged, LoggedBehind, PreorderAll, CountAll, NumberedAll, Covers, Byte, Word16;
    assert c.behind[..|c.behind|] == c.behind;
    NoDupBehind(c);
    assert Count(c) == 1 + CountAll(c.behind) && Preorder(c) == [c.bus] + PreorderAll(c.behind) && c.bus in Preorder(c);
    hide Preorder, Count;
    assert c.bus in s1 by {
      InCovers(s1, Preorder(c), c.bus);
    }
    OpenLogged(s1, open, parent, c, k, log);
    BridgeOutside(s1, open, scanned, s2, parent, c);
    hide SameOutside, CommandsKept;
    NumberedAllFrame(scanned, s2, c.behind, k + 1);
  }

  lemma OpenLogged(s1: Store, open: Store, parent: Bus, c: Tree, k: nat, log: seq<Probe>)
    requires parent !in Preorder(c) && parent in s1 && c.bus in Preorder(c) && c.bus in s1
    requires c.bus in open && open == s1[c.bus := open[c.bus]]
    requires open[c.bus].secondaryReg == Byte(k) && open[c.bus].subordinateReg == MAX_BUS
    requires Logged(open, c, k, log) && |log| == Count(c)
    ensures LoggedBehind(s1, parent, c, k, log)
  {
    hide Preorder, Count, Hits;
    forall j | 0 <= j < |log|
      ensures Hits(log[j], c, k, j) && OpenDuring(s1, log[j].st, parent, c, k)
    {
      assert Around(open, log[j].st, c);
      assert At(log[j].st, parent) == At(open, parent);
    }
  }

  lemma BridgeOutside(s1: Store, open: Store, scanned: Store, s2: Store, parent: Bus, c: Tree)
    requires c.bus in Preorder(c) && c.bus in s1 && parent in s1 && parent !in Preorder(c)
    requires open.Keys == s1.Keys && (forall x :: x in s1 && x != c.bus ==> At(open, x) == At(s1, x))
    requires SameOutside(open, scanned, [c.bus] + PreorderAll(c.behind)) &&
             Preorder(c) == [c.bus] + PreorderAll(c.behind)
    requires CommandsKept(open, scanned, PreorderAll(c.behind)) && c.bus !in PreorderAll(c.behind) &&
             Covers(s1, Preorder(c))
    requires s2.Keys == scanned.Keys && (forall x :: x in s2 && x != c.bus && x != parent ==>
               At(s2, x) == At(scanned, x))
    requires At(s2, c.bus).command == At(s1, c.bus).command
    ensures SameOutside(s1, s2, [parent] + Preorder(c)) && CommandsKept(s1, s2, Preorder(c))
    ensures At(scanned, parent) == At(s1, parent)
    ensures SameOn(scanned, s2, PreorderAll(c.behind))
  {
    hide Preorder, PreorderAll;
    forall x | x in Preorder(c)
      ensures At(s2, x).command == At(s1, x).command
    {
      assert x == c.bus || x in PreorderAll(c.behind);
    }
    forall x | x in PreorderAll(c.behind)
      ensures At(s2, x) == At(scanned, x)
    {
      assert x in Preorder(c);
    }
  }

  /** The scan of one bus: look for devices, then scan behind every bridge that was found. */
  method ScanBus(t: Tree, ghost first: nat, ghost pool: set<Bus>) returns (ghost log: seq<Probe>)
    requires NoDup(Preorder(t)) && Covers(View(pool), Preorder(t)) && ShutAll(View(pool), t.behind)
    requires t.bus in pool && t.bus.subordinate == t.bus.secondary == Word16(first) && Bytes(View(pool))
    modifies pool
    ensures Bytes(View(pool))
    ensures InScan(old(View(pool)), View(pool), t, first, |t.behind|, log)
    decreases t, 1
  {
    hide View, Preorder, PreorderAll, NumberedAll, ShutAll, NoDup, Covers, InScan, BridgeScanned, Count, CountAll;
    hide Bytes, Word16;
    ghost var st0 := View(pool);
    ViewAt(t.bus, pool);
    log := [Probe(t.bus, t.bus.secondary, st0)];
    FirstProbe(st0, t, first);
    for i := 0 to |t.behind|
      invariant InScan(st0, View(pool), t, first, i, log) && Bytes(View(pool))
    {
      ghost var st1 := View(pool);
      ReadyFor(st0, st1, t, first, i, log);
      ViewAt(t.bus, pool);
      ghost var more := ScanBridge(t.bus, t.behind[i], first, first + 1 + CountAll(t.behind[..i]), pool);
      Extend(st0, st1, View(pool), t, first, i, log, more);
      log := log + more;
    }
  }

  lemma ViewAt(b: Bus, pool: set<Bus>)
    requires b in pool
    ensures At(View(pool), b) == b.Get()
  {
  }

  lemma {:induction false} ReadyFor(s0: Store, s1: Store, t: Tree, first: nat, i: nat, log: seq<Probe>)
    requires NoDup(Preorder(t)) && Covers(s0, Preorder(t)) && ShutAll(s0, t.behind)
    requires i < |t.behind| && InScan(s0, s1, t, first, i, log)
    ensures var c := t.behind[i];
            && At(s1, t.bus).subordinate == Word16(first + CountAll(t.behind[..i]))
            && At(s1, t.bus).secondary == At(s0, t.bus).secondary
            && NoDup(Preorder(c)) && t.bus !in Preorder(c) && Covers(s1, Preorder(c)) && Shut(s1, c)
            && s1.Keys == s0.Keys
  {
    NoDupBehind(t);
    NoDupOne(t.behind, i);
    ShutEach(s0, t.behind, i);
    PreorderParts(t.behind, i);
    InTree(t, i);
    hide Preorder, PreorderAll, CountAll, Count, NumberedAll, ShutAll, Shut, NoDup, Logged;
    assert SameOn(s0, s1, Preorder(t.behind[i])) by {
      forall x | x in Preorder(t.behind[i]) ensures At(s1, x) == At(s0, x) {
        NotInPrefix(t.behind, i, i, x);
        TreeWithin(t.behind, i, x);
      }
    }
    ShutFrame(s0, s1, t.behind[i]);
    forall x | x in Preorder(t.behind[i]) ensures x != t.bus && x in s1 {
      TreeWithin(t.behind, i, x);
    }
  }

  lemma TreeWithin(ts: seq<Tree>, i: nat, x: Bus)
    requires i < |ts| && x in Preorder(ts[i])
    ensures x in PreorderAll(ts)
  {
    var p := Place(ts, i, x);
  }

  /** `do_pci_scan_bridge` */
  method ScanBridge(parent: Bus, c: Tree, ghost up: nat, ghost k: nat, ghost pool: set<Bus>)
    returns (ghost log: seq<Probe>)
    requires NoDup(Preorder(c)) && parent !in Preorder(c) && parent in pool && Covers(View(pool), Preorder(c)) &&
             Shut(View(pool), c)
    requires Bytes(View(pool)) && k > 0 && parent.subordinate == Word16(k - 1) && parent.secondary == Word16(up)
    modifies pool
    ensures Bytes(View(pool))
    ensures BridgeScanned(old(View(pool)), View(pool), parent, up, c, k, log)
    decreases c, 2
  {
    hide View, PreorderAll, NumberedAll, ShutAll, NoDup, InScan, BridgeScanned, Count, CountAll, Word16;
    ghost var s1 := View(pool);
    Word16Next(k - 1);
    assert c.bus in Preorder(c);
    ViewAt(parent, pool);
    ViewAt(c.bus, pool);
    RouteScan(parent, c.bus, pool);
    ghost var open := View(pool);
    ViewAt(c.bus, pool);
    ShutBehind(s1, open, c);
    log := ScanBus(c, k, pool);
    ghost var scanned := View(pool);
    ViewAt(parent, pool);
    ViewAt(c.bus, pool);
    RouteFinal(parent, c.bus, pool);
    BridgeDone(s1, open, scanned, View(pool), parent, up, c, k, log);
  }

  lemma ShutBehind(s1: Store, open: Store, c: Tree)
    requires NoDup(Preorder(c)) && Shut(s1, c) && open.Keys == s1.Keys
    requires forall x :: x in s1 && x != c.bus ==> At(open, x) == At(s1, x)
    requires Covers(s1, Preorder(c))
    ensures ShutAll(open, c.behind) && Covers(open, Preorder(c))
  {
    NoDupBehind(c);
    assert forall x :: x in PreorderAll(c.behind) ==> x in Preorder(c);
    ShutAllFrame(s1, open, c.behind);
  }

  // ----- What the scan leaves behind -----

  /**
   Every number from the bus's own to its subordinate number names one bus of its tree, in
   depth-first order, and later numbers none.
   */
  lemma {:induction false} EveryNumberNamesOneBus(s0: Store, s: Store, t: Tree, first: nat, log: seq<Probe>, n: nat)
    requires InScan(s0, s, t, first, |t.behind|, log) && n >= first && first + Count(t) - 1 <= MAX_BUS
    ensures At(s, t.bus).subordinate == first + Count(t) - 1
    ensures Deliver(s, first, t, n) == if n <= At(s, t.bus).subordinate then {Preorder(t)[n - first]} else {}
  {
    assert t.behind[..|t.behind|] == t.behind;
    if n > first {
      NumberedAllDelivers(s, t.behind, first + 1, n);
      assert n <= first + CountAll(t.behind) ==> Preorder(t)[n - first] == PreorderAll(t.behind)[n - (first + 1)];
    }
  }

  /**
   While it was being looked for, a bus was reached by its number, alone, if its number is a byte;
   otherwise no bus was reached, unless there are so many that the number itself is not what it should be.
   */
  lemma ProbeHitsIff(s0: Store, s: Store, t: Tree, first: nat, log: seq<Probe>, j: nat)
    requires InScan(s0, s, t, first, |t.behind|, log) && j < Count(t) && first <= MAX_BUS
    ensures |log| == Count(t) && log[j].bus == Preorder(t)[j] && log[j].number == Word16(first + j)
    ensures first + j < 0x1_0000 ==>
              Deliver(log[j].st, first, t, log[j].number) == if first + j <= MAX_BUS then {Preorder(t)[j]} else {}
  {
    assert t.behind[..|t.behind|] == t.behind;
    assert Hits(log[j], t, first, j);
    if first + j > MAX_BUS {
      BeyondBytes(log[j].st, t.behind, first + j);
    }
  }

  /** All buses are reached exactly if there are numbers for all of them. */
  lemma ScanReachesAllIff(s0: Store, s: Store, t: Tree, first: nat, log: seq<Probe>)
    requires InScan(s0, s, t, first, |t.behind|, log) && first <= MAX_BUS
    ensures |log| == Count(t)
    ensures (forall j :: 0 <= j < Count(t) ==> Deliver(log[j].st, first, t, log[j].number) == {Preorder(t)[j]}) <==>
            first + Count(t) - 1 <= MAX_BUS
  {
    ProbeHitsIff(s0, s, t, first, log, 0);
    if first + Count(t) - 1 <= MAX_BUS {
      forall j | 0 <= j < Count(t)
        ensures Deliver(log[j].st, first, t, log[j].number) == {Preorder(t)[j]}
      {
        ProbeHitsIff(s0, s, t, first, log, j);
      }
    } else {
      ProbeHitsIff(s0, s, t, first, log, MAX_BUS + 1 - first);
    }
  }

  /**
   The windows of neighbouring bridges are apart, inside their parent's, and leave its own number out, which is the
   primary number of them all.
   */
  lemma {:induction false} WindowsNested(s: Store, t: Tree, first: nat, i: nat, j: nat)
    requires NumberedAll(s, t.behind, first + 1) && i < j < |t.behind| && first + Count(t) - 1 <= MAX_BUS
    ensures var a, b := At(s, t.behind[i].bus), At(s, t.behind[j].bus);
            && first < a.secondaryReg <= a.subordinateReg < b.secondaryReg <= b.subordinateReg <= first + Count(t) - 1
            && a.primaryReg == first && b.primaryReg == first
  {
    hide NumberedAll, CountAll, Byte, Preorder, PreorderAll;
    NumberedAt(s, t.behind, first + 1, i);
    NumberedAt(s, t.behind, first + 1, j);
    Ordered(t.behind, i, j);
    assert Count(t) == 1 + CountAll(t.behind);
  }
}

/**
 PCI bus numbers: the tree of buses behind bridges, the bridge registers that forward
 configuration cycles, and where a cycle for a given number is delivered.
 */
module BusNumbers {

  /** The last bus number there is. */
  const MAX_BUS := 255

  /** What an 8-bit register keeps of a number. */
  function Byte(n: nat): (r: nat)
    ensures r <= MAX_BUS && (n <= MAX_BUS ==> r == n)
  {
    n % 256
  }

  /** What a 16-bit field keeps of a number, which still says what a register keeps of it. */
  function Word16(n: nat): (r: nat)
    ensures r < 0x1_0000 && (n < 0x1_0000 ==> r == n) && Byte(r) == Byte(n)
  {
    assert n % 0x1_0000 == n - n / 0x1_0000 * 256 * 256;
    n % 0x1_0000
  }

  lemma Word16Next(n: nat)
    ensures Word16(Word16(n) + 1) == Word16(n + 1)
  {
    var q, r := n / 0x1_0000, Word16(n);
    if r + 1 == 0x1_0000 {
      Remainder(q + 1, 0);
    } else {
      Remainder(q, r + 1);
    }
  }

  lemma Remainder(q: nat, r: nat)
    requires r < 0x1_0000
    ensures Word16(q * 0x1_0000 + r) == r
  {
  }

  /** A bus and the registers of the bridge in front of it. */
  class Bus {
    var secondary: nat
    var subordinate: nat
    var primaryReg: nat
    var secondaryReg: nat
    var subordinateReg: nat
    var command: nat
    var bridgeCmd: nat

    function Get(): Regs
      reads this
    {
      Regs(secondary, subordinate, primaryReg, secondaryReg, subordinateReg, command, bridgeCmd)
    }
  }

  datatype Regs = Regs(secondary: nat, subordinate: nat, primaryReg: nat, secondaryReg: nat, subordinateReg: nat,
                       command: nat, bridgeCmd: nat)

  const NoRegs := Regs(0, 0, 0, 0, 0, 0, 0)

  type Store = map<Bus, Regs>

  ghost function View(pool: set<Bus>): (st: Store)
    reads pool
    ensures st.Keys == pool
  {
    map b | b in pool :: b.Get()
  }

  function At(st: Store, b: Bus): Regs {
    if b in st then st[b] else NoRegs
  }

  /** A bus, and the buses behind its bridges in the order in which they are scanned. */
  datatype Tree = Tree(bus: Bus, behind: seq<Tree>)

  function Count(t: Tree): (n: nat)
    ensures n >= 1
    decreases t, 1
  {
    1 + CountAll(t.behind)
  }

  function CountAll(ts: seq<Tree>): nat
    decreases ts, 0
  {
    if ts == [] then 0 else CountAll(ts[..|ts| - 1]) + Count(ts[|ts| - 1])
  }

  function Preorder(t: Tree): (s: seq<Bus>)
    ensures |s| == Count(t)
    decreases t, 1
  {
    [t.bus] + PreorderAll(t.behind)
  }

  function PreorderAll(ts: seq<Tree>): (s: seq<Bus>)
    ensures |s| == CountAll(ts)
    decreases ts, 0
  {
    if ts == [] then [] else PreorderAll(ts[..|ts| - 1]) + Preorder(ts[|ts| - 1])
  }

  // ----- Routing -----

  predicate Forwards(r: Regs, n: nat) {
    r.secondaryReg <= n <= r.subordinateReg
  }

  /** The buses on which a configuration cycle for number n is delivered, when t.bus has `number`. */
  ghost function Deliver(st: Store, number: nat, t: Tree, n: nat): set<Bus>
    decreases t, 1
  {
    if n == number then {t.bus} else DeliverAll(st, t.behind, n)
  }

  ghost function DeliverAll(st: Store, ts: seq<Tree>, n: nat): set<Bus>
    decreases ts, 0
  {
    if ts == [] then {} else
      var c := ts[|ts| - 1];
      DeliverAll(st, ts[..|ts| - 1], n) +
      (if Forwards(At(st, c.bus), n) then Deliver(st, At(st, c.bus).secondaryReg, c, n) else {})
  }

  /** No number is forwarded: the state of a bridge that has not been scanned. */
  predicate Closed(r: Regs) {
    r.subordinateReg < r.secondaryReg || r.subordinateReg == 0
  }

  ghost predicate Shut(st: Store, t: Tree)
    decreases t, 1
  {
    Closed(At(st, t.bus)) && ShutAll(st, t.behind)
  }

  ghost predicate ShutAll(st: Store, ts: seq<Tree>)
    decreases ts, 0
  {
    ts != [] ==> ShutAll(st, ts[..|ts| - 1]) && Shut(st, ts[|ts| - 1])
  }

  /** The number of the bus in front of the one with this number. */
  function Above(first: nat): nat {
    if first == 0 then 0 else first - 1
  }

  /**
   t is numbered depth first from `first` on, behind a bridge on bus number `up`: its fields and
   registers hold what they keep of that.
   */
  ghost predicate Numbered(st: Store, t: Tree, first: nat, up: nat)
    decreases t, 1
  {
    var r, last := At(st, t.bus), first + Count(t) - 1;
    && r.secondary == Word16(first) && r.subordinate == Word16(last)
    && r.primaryReg == Byte(up) && r.secondaryReg == Byte(first) && r.subordinateReg == Byte(last)
    && NumberedAll(st, t.behind, first + 1)
  }

  /** Trees behind the bus with the number before `first`. */
  ghost predicate NumberedAll(st: Store, ts: seq<Tree>, first: nat)
    decreases ts, 0
  {
    ts != [] ==>
      var rest := ts[..|ts| - 1];
      NumberedAll(st, rest, first) && Numbered(st, ts[|ts| - 1], first + CountAll(rest), Above(first))
  }

  // ----- Only the registers of the buses of a tree matter to it -----

  ghost predicate SameOn(a: Store, b: Store, s: seq<Bus>) {
    forall x :: x in s ==> At(b, x) == At(a, x)
  }

  lemma {:induction false} DeliverFrame(a: Store, b: Store, number: nat, t: Tree, n: nat)
    requires SameOn(a, b, PreorderAll(t.behind))
    ensures Deliver(a, number, t, n) == Deliver(b, number, t, n)
    decreases t, 1
  {
    DeliverAllFrame(a, b, t.behind, n);
  }

  lemma {:induction false} DeliverAllFrame(a: Store, b: Store, ts: seq<Tree>, n: nat)
    requires SameOn(a, b, PreorderAll(ts))
    ensures DeliverAll(a, ts, n) == DeliverAll(b, ts, n)
    decreases ts, 0
  {
    if ts != [] {
      var c := ts[|ts| - 1];
      assert c.bus in Preorder(c);
      assert forall x :: x in PreorderAll(c.behind) ==> x in Preorder(c);
      DeliverAllFrame(a, b, ts[..|ts| - 1], n);
      DeliverFrame(a, b, At(a, c.bus).secondaryReg, c, n);
    }
  }

  lemma {:induction false} NumberedFrame(a: Store, b: Store, t: Tree, first: nat, up: nat)
    requires SameOn(a, b, Preorder(t)) && Numbered(a, t, first, up)
    ensures Numbered(b, t, first, up)
    decreases t, 1
  {
    assert t.bus in Preorder(t);
    NumberedAllFrame(a, b, t.behind, first + 1);
  }

  lemma {:induction false} NumberedAllFrame(a: Store, b: Store, ts: seq<Tree>, first: nat)
    requires SameOn(a, b, PreorderAll(ts)) && NumberedAll(a, ts, first)
    ensures NumberedAll(b, ts, first)
    decreases ts, 0
  {
    if ts != [] {
      NumberedAllFrame(a, b, ts[..|ts| - 1], first);
      NumberedFrame(a, b, ts[|ts| - 1], first + CountAll(ts[..|ts| - 1]), Above(first));
    }
  }

  lemma {:induction false} ShutFrame(a: Store, b: Store, t: Tree)
    requires SameOn(a, b, Preorder(t)) && Shut(a, t)
    ensures Shut(b, t)
    decreases t, 1
  {
    assert t.bus in Preorder(t);
    ShutAllFrame(a, b, t.behind);
  }

  lemma {:induction false} ShutAllFrame(a: Store, b: Store, ts: seq<Tree>)
    requires SameOn(a, b, PreorderAll(ts)) && ShutAll(a, ts)
    ensures ShutAll(b, ts)
    decreases ts, 0
  {
    if ts != [] {
      ShutAllFrame(a, b, ts[..|ts| - 1]);
      ShutFrame(a, b, ts[|ts| - 1]);
    }
  }

  // ----- Where cycles go -----

  /** Once numbered, every number of the range names one bus of the tree, in depth-first order. */
  lemma {:induction false} NumberedDelivers(st: Store, t: Tree, first: nat, up: nat, n: nat)
    requires Numbered(st, t, first, up) && first <= n < first + Count(t) <= MAX_BUS + 1
    ensures Deliver(st, first, t, n) == {Preorder(t)[n - first]}
    decreases t, 1
  {
    if n > first {
      NumberedAllDelivers(st, t.behind, first + 1, n);
      assert Preorder(t)[n - first] == PreorderAll(t.behind)[n - (first + 1)];
    }
  }

  lemma {:induction false} NumberedAllDelivers(st: Store, ts: seq<Tree>, first: nat, n: nat)
    requires NumberedAll(st, ts, first) && first + CountAll(ts) <= MAX_BUS + 1
    ensures DeliverAll(st, ts, n) == if first <= n < first + CountAll(ts) then {PreorderAll(ts)[n - first]} else {}
    decreases ts, 0
  {
    if ts != [] {
      var rest, c := ts[..|ts| - 1], ts[|ts| - 1];
      var k := first + CountAll(rest);
      NumberedAllDelivers(st, rest, first, n);
      if k <= n < k + Count(c) {
        NumberedDelivers(st, c, k, Above(first), n);
        assert PreorderAll(ts)[n - first] == Preorder(c)[n - k];
      } else if first <= n < k {
        assert PreorderAll(ts)[n - first] == PreorderAll(rest)[n - first];
      }
    }
  }

  /** Registers are bytes. */
  ghost predicate Bytes(st: Store) {
    forall x :: x in st ==> At(st, x).subordinateReg <= MAX_BUS
  }

  /** So no bridge forwards a number beyond the last one. */
  lemma {:induction false} BeyondBytes(st: Store, ts: seq<Tree>, n: nat)
    requires Bytes(st) && n > MAX_BUS
    ensures DeliverAll(st, ts, n) == {}
  {
    if ts != [] {
      BeyondBytes(st, ts[..|ts| - 1], n);
    }
  }

  /** The windows of a numbered tree are those of its parent's numbers that its parent does not use itself. */
  lemma {:induction false} NumberedAt(st: Store, ts: seq<Tree>, first: nat, i: nat)
    requires NumberedAll(st, ts, first) && i < |ts|
    ensures Numbered(st, ts[i], first + CountAll(ts[..i]), Above(first))
    ensures CountAll(ts[..i]) + Count(ts[i]) <= CountAll(ts)
  {
    var n := |ts| - 1;
    if i < n {
      NumberedAt(st, ts[..n], first, i);
      assert ts[..n][..i] == ts[..i];
    }
  }
}

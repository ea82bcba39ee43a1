/**
 The bit-banged master, on lines that a slave may pull low as it pleases, as long as it moves
 only while SCL is low: it may stretch the clock, and it changes SDA only then.
 */
module I2cMaster {
  import opened Bytes
  import opened I2cWire

  datatype Code = Fine | Nack | Timeout | Arbitration | Wedge

  /** One move of the slave: which lines it pulls low from now on. */
  predicate SlaveMay(sclOut: bool, sclHeld: bool, sdaHeld: bool, sclHeld': bool, sdaHeld': bool) {
    if sclOut && !sclHeld then sclHeld' == sclHeld && sdaHeld' == sdaHeld
    else if sclOut && !sclHeld' then sdaHeld' == sdaHeld
    else true
  }

  /** What the listener may hear while the master leaves its lines alone. */
  ghost predicate Drifts(a: Listener, b: Listener, sclOut: bool) {
    && b.events == a.events
    && (a.wire.scl ==> b == a)
    && (b.wire.scl && !a.wire.scl ==> b.pulse && sclOut)
  }

  lemma SlaveHeard(l: Listener, sclOut: bool, sdaOut: bool, sclHeld: bool, sdaHeld: bool, sclHeld': bool,
                   sdaHeld': bool)
    requires SlaveMay(sclOut, sclHeld, sdaHeld, sclHeld', sdaHeld')
    requires l.wire == Wire(sclOut && !sclHeld, sdaOut && !sdaHeld)
    ensures Drifts(l, Hear(l, Wire(sclOut && !sclHeld', sdaOut && !sdaHeld')), sclOut)
    ensures l.wire.scl ==> sclHeld' == sclHeld && sdaHeld' == sdaHeld
  {
  }

  /** Nothing was unheard, and no stop condition was heard. */
  ghost predicate Quiet(a: seq<Event>, b: seq<Event>) {
    a <= b && Stop !in b[|a|..]
  }

  lemma QuietMore(a: seq<Event>, b: seq<Event>, more: seq<Event>)
    requires Quiet(a, b) && Stop !in more
    ensures Quiet(a, b + more)
  {
    assert (b + more)[|a|..] == b[|a|..] + more;
  }

  lemma {:induction false} OnlyBits(v: nat, n: nat)
    ensures Stop !in Bits(v, n)
  {
    if n > 0 {
      OnlyBits(v / 2, n - 1);
    }
  }

  lemma BitsAreQuiet(a: seq<Event>, v: nat, n: nat)
    ensures Quiet(a, a + Bits(v, n))
  {
    OnlyBits(v, n);
    assert (a + Bits(v, n))[|a|..] == Bits(v, n);
  }

  lemma NoBits()
    ensures forall v: nat :: Bits(v, 0) == []
  {
  }

  lemma NextBit(v: nat, i: nat)
    requires i < 8
    ensures Bits(ShiftRight(v, 7 - i), i + 1) == Bits(ShiftRight(v, 8 - i), i) + [Bit(ShiftRight(v, 7 - i) % 2 == 1)]
  {
    ShiftOnce(v, 7 - i);
  }

  lemma MoreBits(v: nat, bit: bool, n: nat)
    ensures Bits(2 * v + (if bit then 1 else 0), n + 1) == Bits(v, n) + [Bit(bit)]
  {
  }

  function TwoTo(n: nat): nat {
    if n == 0 then 1 else 2 * TwoTo(n - 1)
  }

  lemma Longer(a: seq<Event>)
    ensures a != a + [Start]
  {
  }

  lemma Append(a: seq<Event>, b: seq<Event>, x: seq<Event>, y: seq<Event>)
    requires b == a + x
    ensures b + y == a + (x + y)
  {
  }

  // ----- What a transfer should sound like (UM10204, sections 3.1.5 and 3.1.6) -----

  /** The length of a segment is that of its buffer. */
  datatype Segment = Segment(slave: nat, read: bool, buf: array<byte>)

  /** Data bytes with their acknowledge bits, the first ones of `total`. */
  function DataEvents(read: bool, data: seq<byte>, total: nat): seq<Event> {
    if data == [] then [] else
      var n := |data| - 1;
      DataEvents(read, data[..n], total) + (Bits(data[n], 8) + [Bit(read && n == total - 1)])
  }

  /** The address byte of a segment. */
  function Address(slave: nat, read: bool): byte {
    (slave * 2 + (if read then 1 else 0)) % 256
  }

  function SegmentEvents(slave: nat, read: bool, data: seq<byte>): seq<Event> {
    [Start] + (Bits(Address(slave, read), 8) + [Bit(false)]) + DataEvents(read, data, |data|)
  }

  function AllEvents(segments: seq<Segment>, data: seq<seq<byte>>): seq<Event>
    requires |segments| == |data|
  {
    if segments == [] then [] else
      var n := |segments| - 1;
      AllEvents(segments[..n], data[..n]) + SegmentEvents(segments[n].slave, segments[n].read, data[n])
  }

  /** No later segment reads into the buffer of segment k. */
  ghost predicate Alone(segments: seq<Segment>, k: nat)
    requires k < |segments|
  {
    forall j :: k < j < |segments| && segments[j].read ==> segments[j].buf != segments[k].buf
  }

  /** Unless a segment's buffer is read into again, it still holds what was moved. */
  ghost predicate Kept(segments: seq<Segment>, moved: seq<seq<byte>>)
    requires |moved| <= |segments|
    reads set s | s in segments :: s.buf
  {
    forall k :: 0 <= k < |moved| && Alone(segments[..|moved|], k) ==> moved[k] == segments[k].buf[..]
  }

  lemma DataMore(read: bool, data: seq<byte>, b: byte, total: nat)
    ensures DataEvents(read, data + [b], total) == DataEvents(read, data, total) +
            (Bits(b, 8) + [Bit(read && |data| == total - 1)])
  {
    hide Bits;
    assert (data + [b])[..|data|] == data;
  }

  lemma AllMore(segments: seq<Segment>, i: nat, data: seq<seq<byte>>, more: seq<byte>)
    requires i < |segments| && |data| == i
    ensures AllEvents(segments[..i + 1], data + [more]) ==
            AllEvents(segments[..i], data) + SegmentEvents(segments[i].slave, segments[i].read, more)
  {
    hide SegmentEvents;
    assert segments[..i + 1][..i] == segments[..i] && (data + [more])[..i] == data;
  }

  lemma QuietChain(a: seq<Event>, b: seq<Event>, c: seq<Event>)
    requires Quiet(a, b) && Quiet(b, c)
    ensures Quiet(a, c)
  {
    assert c[|a|..] == b[|a|..] + c[|b|..];
  }

  lemma {:induction false} DataIsQuiet(a: seq<Event>, read: bool, data: seq<byte>, total: nat)
    ensures Quiet(a, a + DataEvents(read, data, total))
  {
    hide Bits;
    if data == [] {
      assert a + [] == a;
    } else {
      var n := |data| - 1;
      var before := DataEvents(read, data[..n], total);
      DataIsQuiet(a, read, data[..n], total);
      OnlyBits(data[n], 8);
      QuietMore(a, a + before, Bits(data[n], 8) + [Bit(read && n == total - 1)]);
      Append(a, a + before, before, Bits(data[n], 8) + [Bit(read && n == total - 1)]);
    }
  }

  lemma HeadIsQuiet(a: seq<Event>, address: nat)
    ensures Quiet(a, a + ([Start] + (Bits(address, 8) + [Bit(false)])))
  {
    hide Bits;
    OnlyBits(address, 8);
    assert a + [] == a;
    QuietMore(a, a, [Start] + (Bits(address, 8) + [Bit(false)]));
  }

  lemma SegmentIsQuiet(a: seq<Event>, slave: nat, read: bool, data: seq<byte>)
    ensures Quiet(a, a + SegmentEvents(slave, read, data))
  {
    hide Bits, DataEvents;
    var head := [Start] + (Bits(Address(slave, read), 8) + [Bit(false)]);
    HeadIsQuiet(a, Address(slave, read));
    DataIsQuiet(a + head, read, data, |data|);
    QuietChain(a, a + head, a + head + DataEvents(read, data, |data|));
    Append(a, a + head, head, DataEvents(read, data, |data|));
  }

  lemma {:induction false} AllIsQuiet(a: seq<Event>, segments: seq<Segment>, data: seq<seq<byte>>)
    requires |segments| == |data|
    ensures Quiet(a, a + AllEvents(segments, data))
  {
    hide SegmentEvents;
    if segments == [] {
      assert a + [] == a;
    } else {
      var n := |segments| - 1;
      var before, more := AllEvents(segments[..n], data[..n]),
        SegmentEvents(segments[n].slave, segments[n].read, data[n]);
      AllIsQuiet(a, segments[..n], data[..n]);
      SegmentIsQuiet(a + before, segments[n].slave, segments[n].read, data[n]);
      QuietChain(a, a + before, a + before + more);
      Append(a, a + before, before, more);
    }
  }

  // ----- A listener can tell segments apart -----

  lemma ByteHeard(v: byte, w: byte)
    requires Bits(v, 8) == Bits(w, 8)
    ensures v == w
  {
    ShiftedOut(v);
    ShiftedOut(w);
    BitsDetermine(v, w, 8);
  }

  lemma {:induction false} DataHeard(read: bool, read': bool, a: seq<byte>, b: seq<byte>, total: nat, total': nat)
    requires |a| == |b| && DataEvents(read, a, total) == DataEvents(read', b, total')
    ensures a == b
  {
    if a != [] {
      var n := |a| - 1;
      var x, y := Bits(a[n], 8) + [Bit(read && n == total - 1)], Bits(b[n], 8) + [Bit(read' && n == total' - 1)];
      var s, t := DataEvents(read, a[..n], total), DataEvents(read', b[..n], total');
      hide DataEvents, Bits;
      DataSize(read, a[..n], total);
      DataSize(read', b[..n], total');
      SplitEqual(s, x, t, y);
      SplitEqual(Bits(a[n], 8), [Bit(read && n == total - 1)], Bits(b[n], 8), [Bit(read' && n == total' - 1)]);
      DataHeard(read, read', a[..n], b[..n], total, total');
      ByteHeard(a[n], b[n]);
      assert a == a[..n] + [a[n]] && b == b[..n] + [b[n]];
    }
  }

  lemma {:induction false} DataSize(read: bool, data: seq<byte>, total: nat)
    ensures |DataEvents(read, data, total)| == 9 * |data|
  {
    hide Bits;
    if data != [] {
      DataSize(read, data[..|data| - 1], total);
    }
  }

  lemma SplitEqual<T>(a: seq<T>, b: seq<T>, c: seq<T>, d: seq<T>)
    requires a + b == c + d && |a| == |c|
    ensures a == c && b == d
  {
    assert a == (a + b)[..|a|] && c == (c + d)[..|c|];
    assert b == (a + b)[|a|..] && d == (c + d)[|c|..];
  }

  lemma HeadHeard(a: byte, b: byte)
    requires [Start] + (Bits(a, 8) + [Bit(false)]) == [Start] + (Bits(b, 8) + [Bit(false)])
    ensures a == b
  {
    hide Bits;
    SplitEqual([Start], Bits(a, 8) + [Bit(false)], [Start], Bits(b, 8) + [Bit(false)]);
    SplitEqual(Bits(a, 8), [Bit(false)], Bits(b, 8), [Bit(false)]);
    ByteHeard(a, b);
  }

  lemma AddressTells(slave: nat, read: bool, slave': nat, read': bool)
    requires slave < 128 && slave' < 128 && Address(slave, read) == Address(slave', read')
    ensures slave == slave' && read == read'
  {
  }

  /** What is heard of a segment tells the address, the direction and every byte. */
  lemma SegmentHeard(slave: nat, read: bool, data: seq<byte>, slave': nat, read': bool, data': seq<byte>)
    requires slave < 128 && slave' < 128
    requires SegmentEvents(slave, read, data) == SegmentEvents(slave', read', data')
    ensures slave == slave' && read == read' && data == data'
  {
    var a, a' := Address(slave, read), Address(slave', read');
    var h, h' := [Start] + (Bits(a, 8) + [Bit(false)]), [Start] + (Bits(a', 8) + [Bit(false)]);
    hide Bits, DataEvents, Address;
    DataSize(read, data, |data|);
    DataSize(read', data', |data'|);
    assert |h| == 10 == |h'|;
    SplitEqual(h, DataEvents(read, data, |data|), h', DataEvents(read', data', |data'|));
    HeadHeard(a, a');
    AddressTells(slave, read, slave', read');
    DataHeard(read, read', data, data', |data|, |data'|);
  }

  // ----- A stop condition that is never heard -----

  /** What each side does to the lines, and what has been heard up to then. */
  datatype Lines = Lines(sclOut: bool, sdaOut: bool, sclHeld: bool, sdaHeld: bool, heard: Listener) {
    function Wires(): Wire { Wire(sclOut && !sclHeld, sdaOut && !sdaHeld) }

    function Noted(): Lines { this.(heard := Hear(heard, Wires())) }
  }

  predicate SlaveStep(a: Lines, b: Lines) {
    && SlaveMay(a.sclOut, a.sclHeld, a.sdaHeld, b.sclHeld, b.sdaHeld)
    && b == a.(sclHeld := b.sclHeld, sdaHeld := b.sdaHeld).Noted()
  }

  /**
   A run of `StopCondition` from a to e that returns success, and in which the slave moves only
   once, at the beginning, to b: SDA goes low, SCL is released and found high, SDA is released.
   */
  predicate StopRun(a: Lines, b: Lines, e: Lines) {
    var c := b.(sdaOut := false).Noted();
    var d := c.(sclOut := true).Noted();
    SlaveStep(a, b) && !b.Wires().scl && d.Wires().scl && e == d.(sdaOut := true).Noted()
  }

  /**
   Between two bits a slave may take SDA low; if it holds it through the last clock, the stop
   condition returns success and has not been heard. If it lets SDA go in time it is heard.
   */
  lemma StopCanBeMissed(a: Lines, hold: bool) returns (b: Lines, e: Lines)
    requires !a.sclOut && a.heard.wire == a.Wires()
    ensures StopRun(a, b, e) && b.sdaHeld == hold
    ensures e.Wires() == Wire(true, !hold)
    ensures e.heard.events == a.heard.events + (if hold then [] else [Stop])
  {
    b := a.(sclHeld := false, sdaHeld := hold).Noted();
    e := b.(sdaOut := false).Noted().(sclOut := true).Noted().(sdaOut := true).Noted();
  }

  class Bus {
    var sclOut: bool
    var sdaOut: bool
    var sclHeld: bool
    var sdaHeld: bool
    ghost var trace: seq<Wire>

    predicate Scl() reads this { sclOut && !sclHeld }

    predicate Sda() reads this { sdaOut && !sdaHeld }

    ghost predicate Valid()
      reads this
    {
      trace != [] && trace[|trace| - 1] == Wire(Scl(), Sda())
    }

    /** What has been heard on the wires so far. */
    ghost function Heard(): (l: Listener)
      reads this
      requires Valid()
      ensures l.wire == Wire(Scl(), Sda())
    {
      Listen(trace)
    }

    ghost function Events(): seq<Event>
      reads this
      requires Valid()
    {
      Heard().events
    }

    /** An idle bus: both lines released. */
    constructor ()
      ensures Valid() && Scl() && Sda() && Events() == []
    {
      sclOut, sdaOut, sclHeld, sdaHeld := true, true, false, false;
      trace := [Wire(true, true)];
    }

    // ----- The lines -----

    /** Whatever the lines are now is heard. */
    ghost method Record()
      requires trace != []
      modifies `trace
      ensures Valid() && Heard() == Hear(Listen(old(trace)), Wire(Scl(), Sda()))
    {
      ListenMore(trace, Wire(Scl(), Sda()));
      trace := trace + [Wire(Scl(), Sda())];
    }

    /** One move of the slave. */
    method SlaveMoves()
      requires Valid()
      modifies `sclHeld, `sdaHeld, `trace
      ensures Valid() && Drifts(old(Heard()), Heard(), sclOut)
      ensures old(Scl()) ==> sclHeld == old(sclHeld) && sdaHeld == old(sdaHeld)
    {
      var scl: bool, sda: bool :| SlaveMay(sclOut, sclHeld, sdaHeld, scl, sda);
      assert SlaveMay(sclOut, sclHeld, sdaHeld, scl, sda);
      SlaveHeard(Heard(), sclOut, sdaOut, sclHeld, sdaHeld, scl, sda);
      hide Listen, SlaveMay, Drifts, Hear;
      sclHeld, sdaHeld := scl, sda;
      Record();
    }

    /** The slave moves any number of times. */
    method Drift()
      requires Valid()
      modifies `sclHeld, `sdaHeld, `trace
      ensures Valid() && Drifts(old(Heard()), Heard(), sclOut)
      ensures old(Scl()) ==> sclHeld == old(sclHeld) && sdaHeld == old(sdaHeld)
    {
      hide Listen;
      var moves :| moves >= 0;
      for i := 0 to moves
        invariant Valid() && Drifts(old(Heard()), Heard(), sclOut)
        invariant old(Scl()) ==> sclHeld == old(sclHeld) && sdaHeld == old(sdaHeld)
      {
        SlaveMoves();
      }
    }

    method GetSda() returns (sda: bool)
      requires Valid()
      modifies `sclHeld, `sdaHeld, `trace
      ensures Valid() && Drifts(old(Heard()), Heard(), sclOut) && sda == Sda()
    {
      Drift();
      sda := Sda();
    }

    method GetScl() returns (scl: bool)
      requires Valid()
      modifies `sclHeld, `sdaHeld, `trace
      ensures Valid() && Drifts(old(Heard()), Heard(), sclOut) && scl == Scl()
    {
      Drift();
      scl := Scl();
    }

    method SetSda(value: bool)
      requires Valid()
      modifies `sclHeld, `sdaHeld, `sdaOut, `trace
      ensures Valid() && sdaOut == value
      ensures !old(sclOut) ==> Events() == old(Events())
      ensures old(Scl()) ==> Heard() == Hear(old(Heard()), Wire(true, value && !old(sdaHeld))) && Scl()
      ensures old(sclOut) && value == old(sdaOut) ==> Drifts(old(Heard()), Heard(), sclOut)
      ensures !value ==> Events() == old(Events()) || Events() == old(Events()) + [Start]
    {
      Drift();
      hide Listen;
      sdaOut := value;
      Record();
    }

    method SetScl(value: bool)
      requires Valid()
      modifies `sclHeld, `sdaHeld, `sclOut, `trace
      ensures Valid() && sclOut == value
      ensures value && !old(Scl()) ==> Events() == old(Events()) && (Scl() ==> Heard().pulse)
      ensures value && old(Scl()) ==> Heard() == old(Heard())
      ensures !value && old(Scl()) ==> Heard() == Hear(old(Heard()), Wire(false, old(Sda())))
    {
      Drift();
      hide Listen;
      sclOut := value;
      Record();
    }

    /** `__wait`: polls the lines until the stopwatch has expired or, if that is wanted, SCL is high. */
    method Wait(polls: nat, forScl: bool) returns (scl: bool)
      requires Valid()
      modifies `sclHeld, `sdaHeld, `trace
      ensures Valid() && Drifts(old(Heard()), Heard(), sclOut) && scl == Scl()
    {
      var sda := GetSda();
      scl := GetScl();
      var left := polls;
      while true
        invariant Valid() && Drifts(old(Heard()), Heard(), sclOut) && scl == Scl()
        decreases left
      {
        sda := GetSda();
        scl := GetScl();
        if left == 0 || (forScl && scl) {
          return;
        }
        left := left - 1;
      }
    }

    /** `wait` */
    method Delay()
      requires Valid()
      modifies `sclHeld, `sdaHeld, `trace
      ensures Valid() && Drifts(old(Heard()), Heard(), sclOut)
    {
      var polls :| polls >= 0;
      var scl := Wait(polls, false);
    }

    method WaitForScl() returns (ret: Code)
      requires Valid()
      modifies `sclHeld, `sdaHeld, `trace
      ensures Valid() && Drifts(old(Heard()), Heard(), sclOut)
      ensures ret == (if Scl() then Fine else Timeout)
    {
      var polls :| polls >= 0;
      var scl := Wait(polls, true);
      return if scl then Fine else Timeout;
    }

    // ----- Conditions and bits -----

    /** The master holds SCL low between bits. */
    ghost predicate Held()
      reads this
    {
      Valid() && !sclOut
    }

    method StartCondition() returns (ret: Code)
      requires Valid() && (sclOut ==> sdaOut)
      modifies this
      ensures Valid() && Events() == old(Events()) + (if ret == Fine then [Start] else [])
      ensures ret in {Fine, Timeout, Arbitration} && (ret == Fine ==> Held())
    {
      hide Listen;
      SetSda(true);
      Delay();
      SetScl(true);
      ret := WaitForScl();
      if ret != Fine {
        return;
      }
      Delay();
      var sda := GetSda();
      if !sda {
        return Arbitration;
      }
      SetSda(false);
      Delay();
      var scl := GetScl();
      assert scl;
      SetScl(false);
    }

    /**
     The stop condition is heard unless the slave keeps SDA low, about which the source only
     warns. From an idle bus a start condition comes before it: the source's assertion that SCL
     is low then fails, which it only reports.
     */
    method StopCondition() returns (ret: Code, ghost before: seq<Event>)
      requires Valid()
      modifies this
      ensures Valid() && ret in {Fine, Timeout} && (ret == Fine ==> Scl() && sdaOut)
      ensures before == [] || before == [Start]
      ensures !old(sclOut) ==> before == []
      ensures old(Scl() && Sda()) ==> before == [Start]
      ensures Events() == old(Events()) + (before + (if ret == Fine && Sda() then [Stop] else []))
    {
      hide Listen;
      ghost var start := Events();
      before := DropSda();
      ghost var dropped := Events();
      var scl := GetScl();
      SetScl(true);
      ret := WaitForScl();
      if ret == Fine {
        Delay();
        SetSda(true);
        Delay();
        var sda := GetSda();
      }
      Append(start, dropped, before, if ret == Fine && Sda() then [Stop] else []);
    }

    /** SDA is pulled low, which is a start condition if both lines were high. */
    method DropSda() returns (ghost before: seq<Event>)
      requires Valid()
      modifies this
      ensures Valid() && !sdaOut && sclOut == old(sclOut)
      ensures before == [] || before == [Start]
      ensures !old(sclOut) ==> before == []
      ensures old(Scl() && Sda()) ==> before == [Start]
      ensures Events() == old(Events()) + before
    {
      hide Listen;
      SetSda(false);
      before := if Events() == old(Events()) then [] else [Start];
      Longer(old(Events()));
      Delay();
    }

    method OutBit(bit: bool) returns (ret: Code)
      requires Held()
      modifies this
      ensures Valid() && ret in {Fine, Timeout, Wedge} && (ret == Fine ==> Held())
      ensures Events() == old(Events()) + (if ret == Fine then [Bit(bit)] else [])
    {
      hide Listen;
      SetSda(bit);
      Delay();
      var sda := GetSda();
      if bit && !sda {
        return Wedge;
      }
      var scl := GetScl();
      assert !scl;
      SetScl(true);
      ret := WaitForScl();
      if ret != Fine {
        return;
      }
      Delay();
      sda := GetSda();
      if bit && !sda {
        return Wedge;
      }
      scl := GetScl();
      assert scl;
      SetScl(false);
    }

    method InBit() returns (ret: Code, bit: bool)
      requires Held()
      modifies this
      ensures Valid() && ret in {Fine, Timeout} && (ret == Fine ==> Held())
      ensures Events() == old(Events()) + (if ret == Fine then [Bit(bit)] else [])
    {
      hide Listen;
      bit := false;
      SetSda(true);
      Delay();
      var scl := GetScl();
      assert !scl;
      SetScl(true);
      ret := WaitForScl();
      if ret != Fine {
        return;
      }
      bit := GetSda();
      Delay();
      scl := GetScl();
      assert scl;
      SetScl(false);
    }

    // ----- Bytes -----

    /** The byte, then the slave's acknowledge bit. */
    method OutByte(b: byte) returns (ret: Code)
      requires Held()
      modifies this
      ensures Valid() && ret != Arbitration && (ret == Fine || ret == Nack ==> Held())
      ensures ret == Fine || ret == Nack ==> Events() == old(Events()) + (Bits(b, 8) + [Bit(ret == Nack)])
      ensures ret != Fine ==> Quiet(old(Events()), Events())
    {
      hide Listen, Bits;
      ShiftedOut(b);
      NoBits();
      for i := 0 to 8
        invariant Held() && Events() == old(Events()) + Bits(ShiftRight(b, 8 - i), i)
      {
        ghost var before := Events();
        ret := OutBit(ShiftRight(b, 7 - i) % 2 == 1);
        NextBit(b, i);
        if ret != Fine {
          BitsAreQuiet(old(Events()), ShiftRight(b, 8 - i), i);
          return;
        }
        Append(old(Events()), before, Bits(ShiftRight(b, 8 - i), i), [Bit(ShiftRight(b, 7 - i) % 2 == 1)]);
      }
      BitsAreQuiet(old(Events()), b, 8);
      var nack: bool;
      ghost var before := Events();
      ret, nack := InBit();
      if ret != Fine {
        return;
      }
      Append(old(Events()), before, Bits(b, 8), [Bit(nack)]);
      QuietMore(old(Events()), before, [Bit(nack)]);
      return if nack then Nack else Fine;
    }

    /** A byte from the slave, acknowledged by the master or not. */
    method InByte(ack: bool) returns (ret: Code, b: byte)
      requires Held()
      modifies this
      ensures Valid() && ret in {Fine, Timeout, Wedge} && (ret == Fine ==> Held())
      ensures ret == Fine ==> Events() == old(Events()) + (Bits(b, 8) + [Bit(!ack)])
      ensures ret != Fine ==> Quiet(old(Events()), Events())
    {
      hide Listen, Bits;
      b := 0;
      var value: nat, size: nat := 0, 1;
      NoBits();
      for i := 0 to 8
        invariant Held() && Events() == old(Events()) + Bits(value, i)
        invariant value < size == TwoTo(i)
      {
        ghost var before, seen := Events(), value;
        var bit: bool;
        ret, bit := InBit();
        if ret != Fine {
          BitsAreQuiet(old(Events()), value, i);
          return;
        }
        value, size := 2 * value + (if bit then 1 else 0), 2 * size;
        MoreBits(seen, bit, i);
        Append(old(Events()), before, Bits(seen, i), [Bit(bit)]);
      }
      BitsAreQuiet(old(Events()), value, 8);
      b := value;
      ghost var before := Events();
      ret := OutBit(!ack);
      if ret == Fine {
        Append(old(Events()), before, Bits(b, 8), [Bit(!ack)]);
      }
    }

    // ----- Transfers -----

    /** The data bytes of a segment; a read segment ends with a byte that is not acknowledged. */
    method Payload(seg: Segment) returns (ret: Code)
      requires Held()
      modifies this, if seg.read then {seg.buf} else {}
      ensures Valid() && (ret == Fine ==> Held())
      ensures ret == Fine ==> Events() == old(Events()) + DataEvents(seg.read, seg.buf[..], seg.buf.Length)
      ensures ret != Fine ==> Quiet(old(Events()), Events())
    {
      hide Listen, Bits;
      ghost var start := Events();
      ret := Fine;
      assert seg.buf[..0] == [];
      for i := 0 to seg.buf.Length
        invariant ret == Fine && Held() && start == old(Events())
        invariant Events() == start + DataEvents(seg.read, seg.buf[..i], seg.buf.Length)
      {
        ghost var before, sofar := Events(), seg.buf[..i];
        DataIsQuiet(start, seg.read, sofar, seg.buf.Length);
        if seg.read {
          var b: byte;
          ret, b := InByte(i < seg.buf.Length - 1);
          seg.buf[i] := b;
        } else {
          ret := OutByte(seg.buf[i]);
        }
        if ret != Fine {
          QuietChain(start, before, Events());
          return;
        }
        assert seg.buf[..i + 1] == sofar + [seg.buf[i]];
        DataMore(seg.read, sofar, seg.buf[i], seg.buf.Length);
        Append(start, before, DataEvents(seg.read, sofar, seg.buf.Length),
          Bits(seg.buf[i], 8) + [Bit(seg.read && i == seg.buf.Length - 1)]);
      }
      assert seg.buf[..seg.buf.Length] == seg.buf[..];
    }

    /** One segment: start condition, address and direction, data. */
    method SendSegment(seg: Segment) returns (ret: Code)
      requires Valid() && (sclOut ==> sdaOut)
      modifies this, if seg.read then {seg.buf} else {}
      ensures Valid() && (ret == Fine ==> Held())
      ensures ret == Fine ==> Events() == old(Events()) + SegmentEvents(seg.slave, seg.read, seg.buf[..])
      ensures ret != Fine ==> Quiet(old(Events()), Events())
    {
      hide Listen, Bits;
      ghost var start := Events();
      ret := StartCondition();
      if ret != Fine {
        return;
      }
      ghost var started := Events();
      var address := Address(seg.slave, seg.read);
      ret := OutByte(address);
      if ret != Fine {
        QuietChain(start, started, Events());
        return;
      }
      Append(start, started, [Start], Bits(address, 8) + [Bit(false)]);
      HeadIsQuiet(start, address);
      ghost var addressed := Events();
      ret := Payload(seg);
      if ret == Fine {
        Append(start, addressed, [Start] + (Bits(address, 8) + [Bit(false)]),
          DataEvents(seg.read, seg.buf[..], seg.buf.Length));
      } else {
        QuietChain(start, addressed, Events());
      }
    }

    method SendNext(segments: seq<Segment>, i: nat, ghost moved: seq<seq<byte>>, ghost start: seq<Event>)
      returns (ret: Code)
      requires i < |segments| && |moved| == i && Kept(segments, moved)
      requires Valid() && (sclOut ==> sdaOut) && Events() == start + AllEvents(segments[..i], moved)
      modifies this, if segments[i].read then {segments[i].buf} else {}
      ensures Valid() && (ret == Fine ==> Held() && Kept(segments, moved + [segments[i].buf[..]]))
      ensures ret == Fine ==> Events() == start + AllEvents(segments[..i + 1], moved + [segments[i].buf[..]])
      ensures ret != Fine ==> Quiet(start, Events())
    {
      hide Listen, SegmentEvents, AllEvents, Quiet;
      ghost var before := Events();
      var seg := segments[i];
      AllIsQuiet(start, segments[..i], moved);
      ret := SendSegment(seg);
      if ret != Fine {
        QuietChain(start, before, Events());
        return;
      }
      AllMore(segments, i, moved, seg.buf[..]);
      Append(start, before, AllEvents(segments[..i], moved), SegmentEvents(seg.slave, seg.read, seg.buf[..]));
    }

    /**
     `software_i2c_transfer`: a transfer that succeeds is heard as exactly its segments, each
     with the bytes that were moved, and a stop condition if the slave let SDA go; one that
     fails has left the bus without a stop condition. A transfer of nothing on an idle bus is
     heard as a start condition and the stop condition.
     */
    method Transfer(segments: seq<Segment>) returns (ret: Code, ghost moved: seq<seq<byte>>, ghost before: seq<Event>)
      requires Valid() && (sclOut ==> sdaOut)
      modifies this, set s | s in segments && s.read :: s.buf
      ensures Valid()
      ensures ret == Fine ==> |moved| == |segments| && Kept(segments, moved)
      ensures segments != [] ==> before == []
      ensures segments == [] && old(Scl() && Sda()) ==> before == [Start]
      ensures ret == Fine ==>
                Events() == old(Events()) + (AllEvents(segments, moved) + (before + (if Sda() then [Stop] else [])))
      ensures ret != Fine ==> Quiet(old(Events()), Events())
    {
      assert AllEvents([], []) == [] && segments[..0] == [];
      hide Listen, SegmentEvents, AllEvents, Quiet;
      ghost var start := Events();
      moved, before, ret := [], [], Fine;
      for i := 0 to |segments|
        invariant ret == Fine && Valid() && |moved| == i && before == []
        invariant if i > 0 then Held() else sclOut ==> sdaOut
        invariant i == 0 ==> Scl() == old(Scl()) && Sda() == old(Sda())
        invariant Events() == start + AllEvents(segments[..i], moved)
        invariant Kept(segments, moved)
      {
        ret := SendNext(segments, i, moved, start);
        if ret != Fine {
          return;
        }
        moved := moved + [segments[i].buf[..]];
      }
      assert segments[..|segments|] == segments;
      ret, before := Finish(segments, moved, start);
    }

    /** The end of a transfer, with the stop condition. */
    method Finish(segments: seq<Segment>, ghost moved: seq<seq<byte>>, ghost start: seq<Event>)
      returns (ret: Code, ghost before: seq<Event>)
      requires Valid() && |moved| == |segments| && Events() == start + AllEvents(segments, moved)
      modifies this
      ensures Valid()
      ensures !old(sclOut) ==> before == []
      ensures old(Scl() && Sda()) ==> before == [Start]
      ensures ret == Fine ==>
                Events() == start + (AllEvents(segments, moved) + (before + (if Sda() then [Stop] else [])))
      ensures ret != Fine ==> Quiet(start, Events())
    {
      hide Listen, SegmentEvents, AllEvents, Quiet;
      AllIsQuiet(start, segments, moved);
      ghost var sent := Events();
      ret, before := StopCondition();
      if ret == Fine {
        Append(start, sent, AllEvents(segments, moved), before + (if Sda() then [Stop] else []));
      } else {
        QuietMore(start, sent, before + []);
      }
    }
  }
}

/**
 The two wires of an I2C bus as a listener hears them (UM10204, sections 3.1.3 and 3.1.4):
 data changes while SCL is low, and a change while SCL is high is a start or stop condition.
 */
module I2cWire {

  datatype Wire = Wire(scl: bool, sda: bool)

  datatype Event = Start | Stop | Bit(high: bool)

  /** `pulse`: SCL rose and no condition has been heard since, so that its fall will end a bit. */
  datatype Listener = Listener(wire: Wire, pulse: bool, events: seq<Event>)

  function Hear(l: Listener, w: Wire): Listener {
    if l.wire.scl && w.scl then
      if l.wire.sda == w.sda then l
      else Listener(w, false, l.events + [if w.sda then Stop else Start])
    else if l.wire.scl then
      Listener(w, false, if l.pulse then l.events + [Bit(l.wire.sda)] else l.events)
    else
      Listener(w, w.scl, l.events)
  }

  /** What is heard of a trace of the wires. */
  function Listen(trace: seq<Wire>): (l: Listener)
    requires trace != []
    ensures l.wire == trace[|trace| - 1]
  {
    if |trace| == 1 then Listener(trace[0], false, [])
    else Hear(Listen(trace[..|trace| - 1]), trace[|trace| - 1])
  }

  lemma ListenMore(trace: seq<Wire>, w: Wire)
    requires trace != []
    ensures Listen(trace + [w]) == Hear(Listen(trace), w)
  {
    assert (trace + [w])[..|trace|] == trace;
  }

  // ----- Bytes on the wire -----

  /** The n low bits of v, highest first. */
  function Bits(v: nat, n: nat): (s: seq<Event>)
    ensures |s| == n
  {
    if n == 0 then [] else Bits(v / 2, n - 1) + [Bit(v % 2 == 1)]
  }

  /** `v >> k` */
  function ShiftRight(v: nat, k: nat): nat {
    if k == 0 then v else ShiftRight(v / 2, k - 1)
  }

  lemma {:induction false} ShiftOnce(v: nat, k: nat)
    ensures ShiftRight(v, k + 1) == ShiftRight(v, k) / 2
  {
    if k > 0 {
      ShiftOnce(v / 2, k - 1);
    }
  }

  lemma ShiftedOut(v: nat)
    requires v < 256
    ensures ShiftRight(v, 8) == 0 && ShiftRight(v, 0) == v
  {
    assert ShiftRight(v, 8) == ShiftRight(v / 2 / 2 / 2 / 2, 4) by {
      assert ShiftRight(v, 8) == ShiftRight(v / 2, 7) == ShiftRight(v / 2 / 2, 6);
      assert ShiftRight(v / 2 / 2, 6) == ShiftRight(v / 2 / 2 / 2, 5);
    }
    var w := v / 2 / 2 / 2 / 2;
    assert w < 16;
    assert ShiftRight(w, 4) == ShiftRight(w / 2, 3) == ShiftRight(w / 2 / 2, 2) == ShiftRight(w / 2 / 2 / 2, 1) ==
           ShiftRight(w / 2 / 2 / 2 / 2, 0);
  }

  lemma {:induction false} BitsDetermine(v: nat, w: nat, n: nat)
    requires Bits(v, n) == Bits(w, n) && ShiftRight(v, n) == 0 && ShiftRight(w, n) == 0
    ensures v == w
  {
    if n > 0 {
      var a, b := Bits(v, n), Bits(w, n);
      assert a[..n - 1] == Bits(v / 2, n - 1) && b[..n - 1] == Bits(w / 2, n - 1);
      assert a[n - 1] == Bit(v % 2 == 1) && b[n - 1] == Bit(w % 2 == 1);
      BitsDetermine(v / 2, w / 2, n - 1);
    }
  }
}

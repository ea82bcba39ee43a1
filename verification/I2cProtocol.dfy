/**
 What stands where in the events of a transfer, as a listener with the bus specification reads
 them (UM10204, sections 3.1.5, 3.1.6 and 3.1.10).
 */
module I2cProtocol {
  import opened Bytes
  import opened I2cWire
  import opened I2cMaster

  /** The number that n bits spell from index i on, highest first. */
  function Spelt(s: seq<Event>, i: nat, n: nat): nat
    requires i + n <= |s|
  {
    if n == 0 then 0 else 2 * Spelt(s, i, n - 1) + (if s[i + n - 1] == Bit(true) then 1 else 0)
  }

  lemma SpeltWithin(s: seq<Event>, t: seq<Event>, i: nat, j: nat, n: nat)
    requires i + n <= |s| && j + n <= |t| && s[i..i + n] == t[j..j + n]
    ensures Spelt(s, i, n) == Spelt(t, j, n)
  {
    if n > 0 {
      assert s[i..i + n][..n - 1] == s[i..i + n - 1] && t[j..j + n][..n - 1] == t[j..j + n - 1];
      assert s[i..i + n][n - 1] == s[i + n - 1] && t[j..j + n][n - 1] == t[j + n - 1];
      SpeltWithin(s, t, i, j, n - 1);
    }
  }

  lemma {:induction false} BitsSpell(v: nat, n: nat)
    requires v < TwoTo(n)
    ensures Spelt(Bits(v, n), 0, n) == v && forall k :: 0 <= k < n ==> Bits(v, n)[k].Bit?
  {
    if n > 0 {
      var s, rest := Bits(v, n), Bits(v / 2, n - 1);
      BitsSpell(v / 2, n - 1);
      assert s == rest + [Bit(v % 2 == 1)];
      assert s[0..n - 1] == rest[0..n - 1];
      SpeltWithin(s, rest, 0, 0, n - 1);
    }
  }

  lemma TwoToSmall()
    ensures TwoTo(7) == 128 && TwoTo(8) == 256
  {
    assert TwoTo(4) == 2 * TwoTo(3) == 4 * TwoTo(2) == 8 * TwoTo(1) == 16 * TwoTo(0);
    assert TwoTo(8) == 2 * TwoTo(7) == 4 * TwoTo(6) == 8 * TwoTo(5) == 16 * TwoTo(4);
  }

  /** Behind the start condition come seven bits of address, the direction and the acknowledge bit. */
  ghost predicate Addresses(s: seq<Event>, slave: nat, read: bool) {
    |s| >= 10 && s[0] == Start && Spelt(s, 1, 7) == slave && s[8] == Bit(read) && s[9] == Bit(false)
  }

  /** From index i on, bytes with an acknowledge bit each, which is high only behind the last byte that is read. */
  ghost predicate Carries(s: seq<Event>, i: nat, read: bool, data: seq<byte>, total: nat) {
    && i + 9 * |data| <= |s|
    && forall k :: 0 <= k < |data| ==>
         Spelt(s, i + 9 * k, 8) == data[k] && s[i + 9 * k + 8] == Bit(read && k == total - 1)
  }

  lemma AddressHead(slave: nat, read: bool)
    requires slave < 128
    ensures Addresses([Start] + (Bits(Address(slave, read), 8) + [Bit(false)]), slave, read)
  {
    hide Bits, Spelt;
    var a := Address(slave, read);
    var s := [Start] + (Bits(a, 8) + [Bit(false)]);
    assert a == slave * 2 + (if read then 1 else 0) && a / 2 == slave;
    LastBit(a);
    TwoToSmall();
    BitsSpell(slave, 7);
    assert s[1..8] == Bits(slave, 7)[0..7];
    SpeltWithin(s, Bits(slave, 7), 1, 0, 7);
  }

  lemma LastBit(v: nat)
    ensures Bits(v, 8) == Bits(v / 2, 7) + [Bit(v % 2 == 1)]
  {
    hide *;
    BitsLast(v, 8);
  }

  lemma BitsLast(v: nat, n: nat)
    requires n > 0
    ensures Bits(v, n) == Bits(v / 2, n - 1) + [Bit(v % 2 == 1)]
  {
  }

  lemma {:induction false} DataCarried(read: bool, data: seq<byte>, total: nat)
    ensures |DataEvents(read, data, total)| == 9 * |data|
    ensures Carries(DataEvents(read, data, total), 0, read, data, total)
  {
    hide Bits, Spelt, TwoTo;
    DataSize(read, data, total);
    if data != [] {
      var n := |data| - 1;
      DataCarried(read, data[..n], total);
      ByteCarried(DataEvents(read, data[..n], total), data[n], Bit(read && n == total - 1));
      assert DataEvents(read, data, total) ==
             DataEvents(read, data[..n], total) + (Bits(data[n], 8) + [Bit(read && n == total - 1)]);
      CarriesMore(DataEvents(read, data, total), DataEvents(read, data[..n], total), read, data, total);
    }
  }

  lemma ByteCarried(before: seq<Event>, b: byte, ack: Event)
    ensures var s := before + (Bits(b, 8) + [ack]);
            |s| == |before| + 9 && Spelt(s, |before|, 8) == b && s[|before| + 8] == ack
  {
    hide Bits, Spelt, TwoTo;
    var s := before + (Bits(b, 8) + [ack]);
    TwoToSmall();
    BitsSpell(b, 8);
    assert s[|before|..|before| + 8] == Bits(b, 8)[0..8];
    SpeltWithin(s, Bits(b, 8), |before|, 0, 8);
  }

  lemma CarriesMore(s: seq<Event>, before: seq<Event>, read: bool, data: seq<byte>, total: nat)
    requires data != [] && before <= s && |before| == 9 * (|data| - 1) && |s| == 9 * |data|
    requires var n := |data| - 1;
             Carries(before, 0, read, data[..n], total) && Spelt(s, 9 * n, 8) == data[n] &&
             s[9 * n + 8] == Bit(read && n == total - 1)
    ensures Carries(s, 0, read, data, total)
  {
    hide Spelt;
    var n := |data| - 1;
    forall k | 0 <= k < |data|
      ensures Spelt(s, 0 + 9 * k, 8) == data[k] && s[0 + 9 * k + 8] == Bit(read && k == total - 1)
    {
      if k < n {
        assert data[..n][k] == data[k];
        assert Spelt(before, 0 + 9 * k, 8) == data[k] && before[0 + 9 * k + 8] == Bit(read && k == total - 1);
        assert s[9 * k..9 * k + 8] == before[9 * k..9 * k + 8];
        SpeltWithin(s, before, 9 * k, 9 * k, 8);
      }
    }
  }

  /**
   In the events of a segment, the address stands behind the start condition with the direction
   bit, which is high exactly if the segment reads; every byte stands highest bit first; and the
   acknowledge bit is high exactly behind the last byte of a segment that reads.
   */
  lemma SegmentByPlace(slave: nat, read: bool, data: seq<byte>)
    requires slave < 128
    ensures var s := SegmentEvents(slave, read, data);
            |s| == 10 + 9 * |data| && Addresses(s, slave, read) && Carries(s, 10, read, data, |data|)
  {
    hide Bits, Spelt, Address, DataEvents;
    var head, tail := [Start] + (Bits(Address(slave, read), 8) + [Bit(false)]), DataEvents(read, data, |data|);
    var s := SegmentEvents(slave, read, data);
    AddressHead(slave, read);
    DataCarried(read, data, |data|);
    assert s == head + tail && |head| == 10;
    assert s[1..8] == head[1..8];
    SpeltWithin(s, head, 1, 1, 7);
    forall k | 0 <= k < |data|
      ensures Spelt(s, 10 + 9 * k, 8) == data[k] && s[10 + 9 * k + 8] == Bit(read && k == |data| - 1)
    {
      assert Spelt(tail, 0 + 9 * k, 8) == data[k] && tail[0 + 9 * k + 8] == Bit(read && k == |data| - 1);
      assert s[10 + 9 * k..10 + 9 * k + 8] == tail[9 * k..9 * k + 8];
      SpeltWithin(s, tail, 10 + 9 * k, 9 * k, 8);
    }
  }

  /** Where segment k starts among the events of all segments. */
  function StartOf(data: seq<seq<byte>>, k: nat): nat
    requires k <= |data|
  {
    if k == 0 then 0 else StartOf(data, k - 1) + 10 + 9 * |data[k - 1]|
  }

  lemma StartOfWithin(data: seq<seq<byte>>, n: nat, k: nat)
    requires k <= n <= |data|
    ensures StartOf(data[..n], k) == StartOf(data, k)
  {
    if k > 0 {
      StartOfWithin(data, n, k - 1);
    }
  }

  /** The segments stand behind each other, in the order in which they were given. */
  lemma {:induction false} SegmentsByPlace(segments: seq<Segment>, data: seq<seq<byte>>, k: nat)
    requires |segments| == |data| && k < |data| && forall s :: s in segments ==> s.slave < 128
    ensures var e := AllEvents(segments, data);
            && |e| == StartOf(data, |data|) && StartOf(data, k) + 10 + 9 * |data[k]| <= |e|
            && var s := e[StartOf(data, k)..StartOf(data, k) + 10 + 9 * |data[k]|];
               Addresses(s, segments[k].slave, segments[k].read) &&
               Carries(s, 10, segments[k].read, data[k], |data[k]|)
  {
    hide SegmentEvents, Addresses, Carries;
    var n := |data| - 1;
    var before, last := AllEvents(segments[..n], data[..n]),
      SegmentEvents(segments[n].slave, segments[n].read, data[n]);
    assert segments[n] in segments;
    SegmentByPlace(segments[n].slave, segments[n].read, data[n]);
    AllEventsSize(segments[..n], data[..n]);
    StartOfWithin(data, n, n);
    assert AllEvents(segments, data) == before + last;
    if k < n {
      assert forall s :: s in segments[..n] ==> s in segments;
      SegmentsByPlace(segments[..n], data[..n], k);
      StartOfWithin(data, n, k);
      var i, j := StartOf(data, k), StartOf(data, k) + 10 + 9 * |data[k]|;
      assert (before + last)[i..j] == before[i..j];
    } else {
      assert (before + last)[|before|..|before| + |last|] == last;
    }
  }

  lemma {:induction false} AllEventsSize(segments: seq<Segment>, data: seq<seq<byte>>)
    requires |segments| == |data|
    ensures |AllEvents(segments, data)| == StartOf(data, |data|)
  {
    if segments != [] {
      var n := |data| - 1;
      AllEventsSize(segments[..n], data[..n]);
      StartOfWithin(data, n, n);
      DataSize(segments[n].read, data[n], |data[n]|);
      hide Bits, DataEvents;
    }
  }
}

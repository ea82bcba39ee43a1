/**
 Adaptive binary range coding, seen from the encoder: a list of decisions narrows an
 interval of numbers, and the decoder has to find the list from one number in it.
 */
module RangeCoder {
  import opened Bytes

  const TOP := 0x100_0000
  const BIT_MODEL_TOTAL := 2048
  const FULL_RANGE := 0xFFFF_FFFF

  type Bit = b: nat | b < 2

  /** A bit decided by the probability at `index`, or with even odds. */
  datatype Decision = Modelled(index: nat, bit: Bit) | Direct(bit: Bit)

  /**
   The numbers [low, low + range) on a scale where `shifts` bytes behind the first four
   count, and the probabilities that the decisions made so far have left behind.
   */
  datatype Interval = Interval(low: nat, range: nat, shifts: nat, probs: seq<nat>)

  function Whole(n: nat): Interval {
    Interval(0, FULL_RANGE, 0, seq(n, _ => BIT_MODEL_TOTAL / 2))
  }

  function Normalize(iv: Interval): Interval {
    if iv.range < TOP then iv.(low := iv.low * 256, range := iv.range * 256, shifts := iv.shifts + 1) else iv
  }

  function Probability(iv: Interval, index: nat): nat {
    if index < |iv.probs| then iv.probs[index] else BIT_MODEL_TOTAL / 2
  }

  /** How much of a normalized interval belongs to a 0. */
  function Bound(iv: Interval, d: Decision): nat {
    match d
    case Modelled(index, _) => iv.range / BIT_MODEL_TOTAL * Probability(iv, index)
    case Direct(_) => iv.range / 2
  }

  /** How much belongs to the bit that was decided. */
  function Share(iv: Interval, d: Decision): int {
    if d.bit == 1 && d.Modelled? then iv.range - Bound(iv, d) else Bound(iv, d)
  }

  function Adapted(p: nat, bit: Bit): int {
    if bit == 0 then p + (BIT_MODEL_TOTAL - p) / 32 else p - p / 32
  }

  predicate Sane(iv: Interval) {
    && 0x1_0000 <= iv.range <= FULL_RANGE
    && forall i :: 0 <= i < |iv.probs| ==> 31 <= iv.probs[i] <= 2017
  }

  lemma AdaptedStays(p: nat, bit: Bit)
    requires 31 <= p <= 2017
    ensures 31 <= Adapted(p, bit) <= 2017
  {
  }

  /** Neither answer is ever given nothing, or everything. */
  lemma BoundIsProper(iv: Interval, d: Decision)
    requires Sane(iv) && TOP <= iv.range
    ensures 0x1_0000 <= Bound(iv, d) < iv.range && 0x1_0000 <= Share(iv, d) < iv.range
    ensures d.bit == 1 ==> Bound(iv, d) + Share(iv, d) <= iv.range
  {
    if d.Modelled? {
      var q, p := iv.range / BIT_MODEL_TOTAL, Probability(iv, d.index);
      assert q >= 8192 && q * BIT_MODEL_TOTAL <= iv.range;
      Scale(31, p, q);
      Scale(p, 2017, q);
    }
  }

  lemma Scale(a: nat, b: nat, q: nat)
    requires a <= b
    ensures q * a <= q * b
  {
  }

  /** One more decision. */
  function Narrow(iv: Interval, d: Decision): Interval
    requires Sane(iv)
    ensures Sane(Narrow(iv, d))
  {
    var n := Normalize(iv);
    BoundIsProper(n, d);
    var probs :=
      if d.Modelled? && d.index < |n.probs| then
        (AdaptedStays(n.probs[d.index], d.bit); n.probs[d.index := Adapted(n.probs[d.index], d.bit)])
      else n.probs;
    Interval(n.low + (if d.bit == 1 then Bound(n, d) else 0), Share(n, d), n.shifts, probs)
  }

  /** The interval of a list of decisions, with n probabilities. */
  function After(n: nat, trace: seq<Decision>): (iv: Interval)
    ensures Sane(iv)
  {
    if trace == [] then Whole(n) else Narrow(After(n, trace[..|trace| - 1]), trace[|trace| - 1])
  }

  lemma AfterMore(n: nat, trace: seq<Decision>, d: Decision)
    ensures After(n, trace + [d]) == Narrow(After(n, trace), d)
  {
    assert (trace + [d])[..|trace|] == trace;
  }

  // ----- The number behind the bytes -----

  function Value(s: seq<byte>): nat {
    if s == [] then 0 else Value(s[..|s| - 1]) * 256 + s[|s| - 1]
  }

  /** The first byte of the input is not part of the number. */
  function Number(input: seq<byte>, shifts: nat): nat
    requires 5 + shifts <= |input|
  {
    Value(input[1..5 + shifts])
  }

  lemma NumberMore(input: seq<byte>, shifts: nat)
    requires 6 + shifts <= |input|
    ensures Number(input, shifts + 1) == Number(input, shifts) * 256 + input[5 + shifts]
  {
    assert input[1..6 + shifts][..4 + shifts] == input[1..5 + shifts];
  }

  /** Where the number is relative to the interval, as far as 32 bits tell. */
  function CodeAt(input: seq<byte>, iv: Interval): (c: nat)
    requires 5 + iv.shifts <= |input|
    ensures c < TWO32
  {
    (Number(input, iv.shifts) - iv.low) % TWO32
  }

  /** The bit that the number asks for. */
  function Verdict(input: seq<byte>, iv: Interval, d: Decision): Bit
    requires 5 + iv.shifts <= |input|
  {
    if CodeAt(input, iv) < Bound(iv, d) then 0 else 1
  }

  /** Every decision is the one the input asks for at that point. */
  ghost predicate Decoded(input: seq<byte>, n: nat, trace: seq<Decision>) {
    trace != [] ==>
      var before, d := trace[..|trace| - 1], trace[|trace| - 1];
      var iv := Normalize(After(n, before));
      Decoded(input, n, before) && 5 + iv.shifts <= |input| && d.bit == Verdict(input, iv, d)
  }

  ghost predicate Inside(input: seq<byte>, iv: Interval) {
    5 + iv.shifts <= |input| && iv.low <= Number(input, iv.shifts) < iv.low + iv.range
  }

  lemma InsideNormalize(input: seq<byte>, iv: Interval)
    requires Sane(iv) && 5 + Normalize(iv).shifts <= |input|
    ensures Inside(input, iv) <==> Inside(input, Normalize(iv))
  {
    if iv.range < TOP {
      NumberMore(input, iv.shifts);
    }
  }

  /** What both answers together get: halving an odd range drops its last number. */
  function Spread(iv: Interval, d: Decision): nat {
    if d.Modelled? then iv.range else iv.range / 2 * 2
  }

  /** The number never falls off the end of the interval: it is not the maximum, and no halving drops it. */
  ghost predicate OnTrack(input: seq<byte>, n: nat, trace: seq<Decision>) {
    if trace == [] then 5 <= |input| && Number(input, 0) < FULL_RANGE
    else
      var before, d := trace[..|trace| - 1], trace[|trace| - 1];
      var iv := Normalize(After(n, before));
      OnTrack(input, n, before) && 5 + iv.shifts <= |input| && CodeAt(input, iv) < Spread(iv, d)
  }

  lemma InsideNarrow(input: seq<byte>, iv: Interval, d: Decision)
    requires Sane(iv) && 5 + Normalize(iv).shifts <= |input|
    ensures Inside(input, Narrow(iv, d)) <==>
            && Inside(input, iv)
            && d.bit == Verdict(input, Normalize(iv), d)
            && CodeAt(input, Normalize(iv)) < Spread(Normalize(iv), d)
  {
    InsideNormalize(input, iv);
    var wide := Normalize(iv);
    BoundIsProper(wide, d);
    ShareOfSpread(wide, d);
    SplitNumber(Number(input, wide.shifts) - wide.low, wide.range, Bound(wide, d), Spread(wide, d), d.bit);
    hide Bound, Spread, Share, Number, Probability;
  }

  lemma ShareOfSpread(iv: Interval, d: Decision)
    requires Sane(iv) && TOP <= iv.range
    ensures Share(iv, d) == (if d.bit == 1 then Spread(iv, d) - Bound(iv, d) else Bound(iv, d))
    ensures Bound(iv, d) <= Spread(iv, d) <= iv.range
  {
    BoundIsProper(iv, d);
  }

  lemma SplitNumber(x: int, range: nat, bound: nat, spread: nat, bit: Bit)
    requires bound <= spread <= range <= FULL_RANGE
    ensures (if bit == 1 then bound <= x < spread else 0 <= x < bound) <==>
            0 <= x < range && bit == (if x % TWO32 < bound then 0 else 1) && x % TWO32 < spread
  {
    if 0 <= x < range {
      SmallModulo(x);
    }
  }

  lemma SmallModulo(x: nat)
    requires x < TWO32
    ensures x % TWO32 == x
  {
  }

  lemma WholeInside(input: seq<byte>, n: nat)
    requires 5 <= |input|
    ensures Inside(input, Whole(n)) <==> Number(input, 0) < FULL_RANGE
  {
  }

  /** The decisions decoded from a number are exactly those whose interval it lies in. */
  lemma {:induction false} DecodedIffInside(input: seq<byte>, n: nat, trace: seq<Decision>)
    requires 5 + After(n, trace).shifts <= |input|
    ensures Inside(input, After(n, trace)) <==> Decoded(input, n, trace) && OnTrack(input, n, trace)
  {
    if trace == [] {
      WholeInside(input, n);
    } else {
      var before, d := trace[..|trace| - 1], trace[|trace| - 1];
      DecodedIffInside(input, n, before);
      InsideNarrow(input, After(n, before), d);
    }
  }

  // ----- One number asks for one list of decisions -----

  predicate SameQuestion(c: Decision, d: Decision) {
    if c.Modelled? then d.Modelled? && c.index == d.index else d.Direct?
  }

  /** Two lists agree up to a place where the same question is answered differently. */
  ghost predicate Diverge(s: seq<Decision>, t: seq<Decision>) {
    exists k :: 0 <= k < |s| && k < |t| && s[..k] == t[..k] && SameQuestion(s[k], t[k]) && s[k].bit != t[k].bit
  }

  lemma {:induction false} DecodedPrefix(input: seq<byte>, n: nat, trace: seq<Decision>, k: nat)
    requires Decoded(input, n, trace) && k <= |trace|
    ensures Decoded(input, n, trace[..k])
  {
    if k < |trace| {
      DecodedPrefix(input, n, trace[..|trace| - 1], k);
      assert trace[..|trace| - 1][..k] == trace[..k];
    } else {
      assert trace[..k] == trace;
    }
  }

  lemma DecodedAgree(input: seq<byte>, n: nat, s: seq<Decision>, t: seq<Decision>)
    requires Decoded(input, n, s) && Decoded(input, n, t)
    ensures !Diverge(s, t)
  {
    forall k | 0 <= k < |s| && k < |t| && s[..k] == t[..k] && SameQuestion(s[k], t[k])
      ensures s[k].bit == t[k].bit
    {
      DecodedPrefix(input, n, s, k + 1);
      DecodedPrefix(input, n, t, k + 1);
      assert s[..k + 1][..k] == s[..k] && t[..k + 1][..k] == t[..k];
      SameVerdict(input, Normalize(After(n, s[..k])), s[k], t[k]);
    }
  }

  lemma SameVerdict(input: seq<byte>, iv: Interval, c: Decision, d: Decision)
    requires 5 + iv.shifts <= |input| && SameQuestion(c, d)
    ensures Verdict(input, iv, c) == Verdict(input, iv, d)
  {
  }
}

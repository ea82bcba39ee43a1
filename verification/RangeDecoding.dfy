/**
 The range decoder: a 32-bit code, a 32-bit range, and a table of probabilities, each kept
 in step with the interval of the decisions made so far.
 */
module RangeDecoding {
  import opened Bytes
  import opened BitCodes
  import opened RangeCoder

  // ----- What one machine step does to the 32-bit code -----

  lemma CodeNormalized(input: seq<byte>, iv: Interval)
    requires Sane(iv) && iv.range < TOP && 6 + iv.shifts <= |input|
    ensures CodeAt(input, Normalize(iv)) == (CodeAt(input, iv) * 256) % TWO32 + input[5 + iv.shifts]
  {
    NumberMore(input, iv.shifts);
    var x: int, b: int := Number(input, iv.shifts) - iv.low, input[5 + iv.shifts];
    var q, c := x / TWO32, x % TWO32;
    ShiftedCode(x * 256 + b, q * 256 + (c * 256) / TWO32, (c * 256) % TWO32 + b);
  }

  lemma ShiftedCode(x: int, q: int, r: int)
    requires x == q * TWO32 + r && 0 <= r < TWO32
    ensures x % TWO32 == r
  {
  }

  lemma CodeNarrowed(input: seq<byte>, iv: Interval, d: Decision)
    requires Sane(iv) && 5 + Normalize(iv).shifts <= |input|
    requires d.bit == Verdict(input, Normalize(iv), d)
    ensures CodeAt(input, Narrow(iv, d)) ==
            CodeAt(input, Normalize(iv)) - (if d.bit == 1 then Bound(Normalize(iv), d) else 0)
  {
    hide Bound, Share, Number;
    var x: int, b: int := Number(input, Normalize(iv).shifts) - Normalize(iv).low, Bound(Normalize(iv), d);
    if d.bit == 1 {
      LessModulo(x, b);
    }
  }

  lemma LessModulo(x: int, b: nat)
    requires b <= x % TWO32
    ensures (x - b) % TWO32 == x % TWO32 - b
  {
    ShiftedCode(x - b, x / TWO32, x % TWO32 - b);
  }

  lemma Decided(input: seq<byte>, n: nat, trace: seq<Decision>, d: Decision)
    requires Decoded(input, n, trace) && 5 + Normalize(After(n, trace)).shifts <= |input|
    requires d.bit == Verdict(input, Normalize(After(n, trace)), d)
    ensures After(n, trace + [d]) == Narrow(After(n, trace), d) && Decoded(input, n, trace + [d])
    ensures CodeAt(input, After(n, trace + [d])) ==
            CodeAt(input, Normalize(After(n, trace))) - (if d.bit == 1 then Bound(Normalize(After(n, trace)), d) else 0)
  {
    CodeNarrowed(input, After(n, trace), d);
    AfterMore(n, trace, d);
    assert (trace + [d])[..|trace|] == trace;
  }

  lemma NarrowFields(iv: Interval, d: Decision)
    requires Sane(iv)
    ensures Narrow(iv, d).range == Share(Normalize(iv), d) && Narrow(iv, d).shifts == Normalize(iv).shifts
    ensures d.Direct? ==> Narrow(iv, d).probs == Normalize(iv).probs == iv.probs
    ensures TOP <= Normalize(iv).range && Sane(Normalize(iv))
  {
  }

  lemma AdaptedOnly(iv: Interval, index: nat, bit: Bit)
    requires Sane(iv) && index < |iv.probs|
    ensures 0 <= Adapted(iv.probs[index], bit)
    ensures Narrow(iv, Modelled(index, bit)).probs == iv.probs[index := Adapted(iv.probs[index], bit)]
    ensures Normalize(iv).probs == iv.probs
  {
    AdaptedStays(iv.probs[index], bit);
  }

  /** Either the whole code was read, or the input ended within it. */
  ghost predicate Spelled(ok: bool, before: seq<Decision>, now: seq<Decision>, code: seq<Decision>) {
    if ok then now == before + code else before <= now && now < before + code
  }

  lemma SpelledThen(ok: bool, before: seq<Decision>, now: seq<Decision>, a: seq<Decision>, b: seq<Decision>)
    requires Spelled(ok, before + a, now, b)
    ensures Spelled(ok, before, now, a + b)
  {
    assert before + (a + b) == before + a + b;
    assert before <= before + a;
  }

  lemma SpelledWithin(before: seq<Decision>, now: seq<Decision>, a: seq<Decision>, b: seq<Decision>)
    requires Spelled(false, before, now, a)
    ensures Spelled(false, before, now, a + b)
  {
    assert before + (a + b) == before + a + b;
    assert before + a <= before + a + b;
  }

  lemma Doubled(a: nat, b: nat)
    ensures 2 * (a * b) == a * (2 * b)
  {
  }

  /** Bits from k on do not matter to the first k, and bit k of v + b * 2^k is b. */
  lemma {:induction false} HighBit(v: nat, k: nat, b: Bit, j: nat)
    requires v < Power(k) && j <= k
    ensures BitOf(v + b * Power(k), j) == (if j == k then b else BitOf(v, j))
    decreases k
  {
    if k > 0 && j > 0 {
      HighBit(v / 2, k - 1, b, j - 1);
      assert (v + b * Power(k)) / 2 == v / 2 + b * Power(k - 1);
    } else if k > 0 {
      assert (v + b * Power(k)) % 2 == v % 2;
    }
  }

  lemma {:induction false} HighBits(v: nat, k: nat, b: Bit, j: nat)
    requires v < Power(k) && j <= k
    ensures SameBits(v, v + b * Power(k), j)
    decreases j
  {
    if j > 0 {
      HighBits(v, k, b, j - 1);
      HighBit(v, k, b, j - 1);
    }
  }

  lemma SetBit(base: nat, v: nat, k: nat, b: Bit)
    requires v < Power(k)
    ensures var w := if b == 1 then v + Power(k) else v;
            && w < Power(k + 1) && Mirror(w, k + 1) == 2 * Mirror(v, k) + b
            && ReversePath(base, w, k + 1) == ReversePath(base, v, k) + [Modelled(base + Mirror(v, k), b)]
  {
    hide *;
    HighBits(v, k, b, k);
    HighBit(v, k, b, k);
    var w := v + b * Power(k);
    SameBitsSamePath(base, v, w, k);
    ReverseStep(base, w, k);
  }

  lemma ReverseStep(base: nat, v: nat, k: nat)
    ensures Power(k + 1) == 2 * Power(k) && Mirror(v, k + 1) == 2 * Mirror(v, k) + BitOf(v, k)
    ensures ReversePath(base, v, k + 1) == ReversePath(base, v, k) + [Modelled(base + Mirror(v, k), BitOf(v, k))]
  {
    hide BitOf;
  }

  lemma ReverseRoot(base: nat, v: nat)
    ensures Power(0) == 1 && Mirror(v, 0) == 1 && ReversePath(base, v, 0) == []
  {
  }

  lemma PathRoot(base: nat)
    ensures Path(base, 1) == [] && Power(0) == 1
  {
  }

  lemma PowerNext(k: nat)
    ensures Power(k + 1) == 2 * Power(k)
  {
  }

  lemma PathMore(start: seq<Decision>, before: seq<Decision>, now: seq<Decision>, base: nat, node: nat, bit: Bit)
    requires node >= 1 && before == start + Path(base, node) && now == before + [Modelled(base + node, bit)]
    ensures now == start + Path(base, 2 * node + bit)
  {
  }

  class RangeDecoder {
    const input: seq<byte>
    const probs: array<nat>
    var pos: nat
    var range: nat
    var code: nat
    ghost var trace: seq<Decision>

    ghost predicate At(iv: Interval)
      reads this, probs
    {
      probs[..] == iv.probs && range == iv.range && pos == 5 + iv.shifts <= |input| && code == CodeAt(input, iv)
    }

    /** The decoder stands behind its trace, and the trace is what the input asked for. */
    ghost predicate Valid()
      reads this, probs
    {
      At(After(probs.Length, trace)) && Decoded(input, probs.Length, trace)
    }

    /** Another byte is needed, and there is none. */
    predicate Starved()
      reads this
    {
      range < TOP && pos == |input|
    }

    /** The probabilities at their start, and five bytes read. */
    constructor (input: seq<byte>, n: nat)
      requires 5 <= |input|
      ensures Valid() && this.input == input && probs.Length == n && fresh(probs) && trace == []
    {
      this.input := input;
      probs := new nat[n](i => BIT_MODEL_TOTAL / 2);
      range := FULL_RANGE;
      trace := [];
      new;
      code, pos := 0, 0;
      while pos < 5
        modifies this`code, this`pos
        invariant 0 <= pos <= 5 && code == Value(input[..pos]) % TWO32
      {
        assert input[..pos + 1][..pos] == input[..pos];
        FeedCode(Value(input[..pos]), input[pos]);
        code := (code * 256) % TWO32 + input[pos];
        pos := pos + 1;
      }
      FirstByteIsLost(input);
      assert probs[..] == Whole(n).probs;
    }

    /** RC_NORMALIZE */
    method NormalizeRange(ghost iv: Interval) returns (ok: bool)
      requires Sane(iv) && At(iv)
      modifies this`pos, this`range, this`code
      ensures ok == !old(Starved())
      ensures if ok then At(Normalize(iv)) else At(iv) && Starved()
    {
      if range < TOP {
        if pos == |input| {
          return false;
        }
        CodeNormalized(input, iv);
        range := range * 256;
        code := (code * 256) % TWO32 + input[pos];
        pos := pos + 1;
      }
      return true;
    }

    /** Moves the probability towards the bit that was seen. */
    method Adapt(index: nat, bit: Bit)
      requires index < probs.Length && 31 <= probs[index] <= 2017
      modifies probs
      ensures 31 <= Adapted(old(probs[index]), bit) <= 2017
      ensures probs[..] == old(probs[..])[index := Adapted(old(probs[index]), bit)]
    {
      AdaptedStays(probs[index], bit);
      if bit == 0 {
        probs[index] := probs[index] + (BIT_MODEL_TOTAL - probs[index]) / 32;
      } else {
        probs[index] := probs[index] - probs[index] / 32;
      }
    }

    /** The comparison of IfBit0, and UpdateBit0 or UpdateBit1, on a normalized interval. */
    method SplitRange(index: nat, ghost wide: Interval) returns (bit: Bit)
      requires Sane(wide) && TOP <= wide.range && At(wide) && index < probs.Length
      modifies this`range, this`code, probs
      ensures var d := Modelled(index, bit);
              && bit == Verdict(input, wide, d) && range == Share(wide, d)
              && code == CodeAt(input, wide) - (if bit == 1 then Bound(wide, d) else 0)
      ensures 0 <= Adapted(wide.probs[index], bit) && probs[..] == wide.probs[index := Adapted(wide.probs[index], bit)]
    {
      hide CodeAt;
      BoundIsProper(wide, Modelled(index, 0));
      BoundIsProper(wide, Modelled(index, 1));
      var bound := range / BIT_MODEL_TOTAL * probs[index];
      assert bound == Bound(wide, Modelled(index, 0)) == Bound(wide, Modelled(index, 1));
      assert probs[index] == wide.probs[index];
      bit := 0;
      if code < bound {
        range := bound;
      } else {
        bit := 1;
        range := range - bound;
        code := code - bound;
      }
      Adapt(index, bit);
    }

    /** IfBit0 with both updates: one decision. */
    method DecodeBit(index: nat) returns (ok: bool, bit: Bit)
      requires Valid() && index < probs.Length
      modifies this, probs
      ensures Valid() && ok == !old(Starved()) && (ok || Starved())
      ensures trace == old(trace) + (if ok then [Modelled(index, bit)] else [])
    {
      hide Decoded, CodeAt, Narrow, Bound, Share, Adapted;
      ghost var n, iv := probs.Length, After(probs.Length, trace);
      ok := NormalizeRange(iv);
      bit := 0;
      if !ok {
        return;
      }
      NarrowFields(iv, Modelled(index, 0));
      bit := SplitRange(index, Normalize(iv));
      ghost var d := Modelled(index, bit);
      NarrowFields(iv, d);
      AdaptedOnly(iv, index, bit);
      Decided(input, n, trace, d);
      trace := trace + [d];
      hide After, Decoded, CodeAt, Narrow, Normalize, Bound, Share, Adapted;
    }

    /** One turn of the loop over bits with even odds. */
    method DecodeDirectBit() returns (ok: bool, bit: Bit)
      requires Valid()
      modifies this
      ensures Valid() && ok == !old(Starved()) && (ok || Starved())
      ensures trace == old(trace) + (if ok then [Direct(bit)] else [])
    {
      hide Decoded, CodeAt, Narrow, After, Normalize;
      ghost var n, iv := probs.Length, After(probs.Length, trace);
      ok := NormalizeRange(iv);
      bit := 0;
      if !ok {
        return;
      }
      range := range / 2;
      if code >= range {
        code := code - range;
        bit := 1;
      }
      ghost var d := Direct(bit);
      NarrowFields(iv, d);
      Decided(input, n, trace, d);
      trace := trace + [d];
    }

    /** RC_GET_BIT: one step down a tree. */
    method GetBit(base: nat, node: nat, ghost start: seq<Decision>) returns (ok: bool, next: nat)
      requires Valid() && 1 <= node && base + node < probs.Length && trace == start + Path(base, node)
      modifies this, probs
      ensures Valid() && 2 * node <= next <= 2 * node + 1 && (ok || Starved())
      ensures trace == start + Path(base, if ok then next else node)
    {
      hide Valid;
      var bit: nat;
      ghost var before := trace;
      ok, bit := DecodeBit(base + node);
      next := 2 * node + bit;
      if ok {
        PathMore(start, before, trace, base, node, bit);
      }
    }

    /** RangeDecoderBitTreeDecode: the value, or when the input ends early one it could have become. */
    method DecodeTree(base: nat, levels: nat) returns (ok: bool, value: nat, ghost spelled: nat)
      requires Valid() && base + Power(levels) <= probs.Length
      modifies this, probs
      ensures Valid() && spelled < Power(levels) && (if ok then value == spelled else Starved())
      ensures Spelled(ok, old(trace), trace, Path(base, Power(levels) + spelled))
    {
      hide Valid, Starved, Path, Power;
      PathRoot(base);
      ghost var start := trace;
      var i: nat, node: nat := levels, 1;
      while i != 0
        invariant i <= levels && Power(levels - i) <= node < 2 * Power(levels - i)
        invariant Valid() && trace == start + Path(base, node)
      {
        PowerGrows(levels - i + 1, levels);
        PowerNext(levels - i);
        var next: nat;
        ok, next := GetBit(base, node, start);
        if !ok {
          spelled := PathStart(base, node, levels - i, levels);
          return false, 0, spelled;
        }
        node := next;
        i := i - 1;
      }
      value := node - Power(levels);
      return true, value, value;
    }

    /** One low bit of a distance: `RC_GET_BIT2(prob3, mi, ; , rep0 |= i)`. */
    method GetReverseBit(base: nat, node: nat, value: nat, k: nat, i: nat, ghost start: seq<Decision>)
      returns (ok: bool, next: nat, more: nat)
      requires Valid() && node == Mirror(value, k) && base + node < probs.Length
      requires i == Power(k) && value < i && trace == start + ReversePath(base, value, k)
      modifies this, probs
      ensures Valid() && (ok || Starved()) && next <= 2 * node + 1
      ensures if ok then more < 2 * i && next == Mirror(more, k + 1) && trace == start + ReversePath(base, more, k + 1)
              else trace == old(trace)
    {
      hide Valid;
      var bit: nat;
      ok, bit := DecodeBit(base + node);
      next := 2 * node + bit;
      more := if bit == 1 then value + i else value;
      SetBit(base, value, k, bit);
    }

    /** The loop that reads low distance bits into a reversed tree. */
    method DecodeReverse(base: nat, levels: nat) returns (ok: bool, value: nat, ghost spelled: nat)
      requires Valid() && base + Power(levels) <= probs.Length
      modifies this, probs
      ensures Valid() && spelled < Power(levels) && (if ok then value == spelled else Starved())
      ensures Spelled(ok, old(trace), trace, ReversePath(base, spelled, levels))
    {
      hide Valid, Starved, Power, Mirror, ReversePath, BitOf;
      ReverseRoot(base, 0);
      ghost var start := trace;
      var i: nat, node: nat, left: nat := 1, 1, levels;
      value := 0;
      while left != 0
        invariant left <= levels && i == Power(levels - left) && value < i
        invariant node == Mirror(value, levels - left) < 2 * i
        invariant Valid() && trace == start + ReversePath(base, value, levels - left)
      {
        PowerGrows(levels - left + 1, levels);
        ReverseStep(base, value, levels - left);
        var next: nat, more: nat;
        ok, next, more := GetReverseBit(base, node, value, levels - left, i, start);
        if !ok {
          ReversePathStart(base, value, levels - left, levels);
          PowerGrows(levels - left, levels);
          return false, 0, value;
        }
        node, value := next, more;
        i := 2 * i;
        left := left - 1;
      }
      return true, value, value;
    }

    /** One distance bit with even odds. */
    method GetDirectBit(value: nat, ghost low: nat, ghost k: nat, ghost start: seq<Decision>)
      returns (ok: bool, next: nat, ghost more: nat)
      requires Valid() && trace == start + Directs(low, k)
      modifies this
      ensures Valid() && (ok || Starved()) && next == 2 * value + more - 2 * low && 2 * low <= more <= 2 * low + 1
      ensures if ok then trace == start + Directs(more, k + 1) else trace == old(trace)
    {
      hide Valid;
      var bit: nat;
      ok, bit := DecodeDirectBit();
      next, more := 2 * value + bit, 2 * low + bit;
      assert Directs(more, k + 1) == Directs(low, k) + [Direct(bit)];
    }

    /** The loop over bits with even odds. */
    method DecodeDirect(first: nat, bits: nat) returns (ok: bool, value: nat, ghost spelled: nat)
      requires Valid()
      modifies this
      ensures Valid() && spelled < Power(bits) && (if ok then value == first * Power(bits) + spelled else Starved())
      ensures Spelled(ok, old(trace), trace, Directs(spelled, bits))
    {
      hide Valid;
      ghost var start := trace;
      var left: nat := bits;
      value, spelled := first, 0;
      while left != 0
        invariant left <= bits && spelled < Power(bits - left) && value == first * Power(bits - left) + spelled
        invariant Valid() && trace == start + Directs(spelled, bits - left)
      {
        var next: nat;
        ghost var more: nat;
        ok, next, more := GetDirectBit(value, spelled, bits - left, start);
        if !ok {
          DirectsSize(spelled, bits - left);
          spelled := DirectsStart(spelled, bits - left, bits);
          return false, 0, spelled;
        }
        Doubled(first, Power(bits - left));
        value, spelled := next, more;
        left := left - 1;
      }
      return true, value, spelled;
    }
  }

  lemma FeedCode(v: nat, b: byte)
    ensures (v * 256 + b) % TWO32 == (v % TWO32 * 256) % TWO32 + b
  {
    var q, c := v / TWO32, v % TWO32;
    ShiftedCode(v * 256 + b, q * 256 + (c * 256) / TWO32, (c * 256) % TWO32 + b);
  }

  lemma FirstByteIsLost(input: seq<byte>)
    requires 5 <= |input|
    ensures Value(input[..5]) % TWO32 == Number(input, 0) % TWO32
  {
    ValueDropFirst(input[..5]);
    assert input[..5][1..] == input[1..5];
    ShiftedCode(Value(input[..5]), input[0], Value(input[1..5]));
  }

  lemma ValueDropFirst(s: seq<byte>)
    requires |s| == 5
    ensures Value(s) == s[0] * TWO32 + Value(s[1..]) && Value(s[1..]) < TWO32
  {
    var t := s[1..];
    var a: int, b: int, c: int, d: int, e: int := s[0], s[1], s[2], s[3], s[4];
    assert s[..4][..3] == s[..3] && s[..3][..2] == s[..2] && s[..2][..1] == s[..1] && s[..1][..0] == [];
    assert t[..3][..2] == t[..2] && t[..2][..1] == t[..1] && t[..1][..0] == [];
    assert Value(s[..1]) == a && Value(t[..1]) == b;
    assert Value(s[..2]) == a * 256 + b && Value(t[..2]) == b * 256 + c;
    assert Value(s[..3]) == (a * 256 + b) * 256 + c;
    assert Value(t[..3]) == (b * 256 + c) * 256 + d;
    assert Value(s[..4]) == ((a * 256 + b) * 256 + c) * 256 + d;
  }
}

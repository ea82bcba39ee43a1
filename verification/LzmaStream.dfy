/**
 Whole streams: what the decoder returns is the expansion of the operations its input spells,
 and an input that encodes some list of operations is never read as anything else.
 */
module LzmaStream {
  import opened Bytes
  import opened RangeCoder
  import opened BitCodes
  import opened RangeDecoding
  import opened LzmaSyntax
  import opened LzmaUnique
  import opened LzmaDecoder

  /** Nothing is decoded behind these operations. */
  ghost predicate Stops(ops: seq<Op>, outSize: nat)
    requires Playable(ops)
  {
    |Run(ops).out| >= outSize || (ops != [] && IsEnd(ops[|ops| - 1]))
  }

  /** And none of them stands behind a point where decoding stops. */
  ghost predicate Goes(ops: seq<Op>, outSize: nat)
    requires Playable(ops)
  {
    ops != [] ==> Goes(ops[..|ops| - 1], outSize) && !Stops(ops[..|ops| - 1], outSize)
  }

  ghost predicate Complete(ops: seq<Op>, outSize: nat) {
    Playable(ops) && Goes(ops, outSize) && Stops(ops, outSize)
  }

  // ----- Prefixes -----

  lemma {:induction false} PlayablePrefix(ops: seq<Op>, k: nat)
    requires Playable(ops) && k <= |ops|
    ensures Playable(ops[..k])
    ensures k < |ops| ==> WellFormed(ops[k]) && Legal(ops[k], Run(ops[..k]))
  {
    if k == |ops| {
      assert ops[..k] == ops;
    } else if k < |ops| - 1 {
      PlayablePrefix(ops[..|ops| - 1], k);
      assert ops[..|ops| - 1][..k] == ops[..k];
    }
  }

  lemma {:induction false} GoesPrefix(ops: seq<Op>, outSize: nat, k: nat)
    requires Playable(ops) && Goes(ops, outSize) && k < |ops|
    ensures Playable(ops[..k]) && !Stops(ops[..k], outSize)
  {
    PlayablePrefix(ops, k);
    if k < |ops| - 1 {
      hide Stops;
      GoesPrefix(ops[..|ops| - 1], outSize, k);
      assert ops[..|ops| - 1][..k] == ops[..k];
    }
  }

  lemma {:induction false} CodesPrefix(ops: seq<Op>, p: Properties, k: nat)
    requires Playable(ops) && p.lc <= 8 && k < |ops|
    ensures Playable(ops[..k]) && WellFormed(ops[k])
    ensures Codes(ops[..k], p) + Code(ops[k], Run(ops[..k]), p) <= Codes(ops, p)
  {
    hide Code;
    PlayablePrefix(ops, k);
    if k < |ops| - 1 {
      CodesPrefix(ops[..|ops| - 1], p, k);
      assert ops[..|ops| - 1][..k] == ops[..k];
    }
  }

  lemma FirstDifference(a: seq<Op>, b: seq<Op>) returns (k: nat)
    ensures k <= |a| && k <= |b| && a[..k] == b[..k]
    ensures k == |a| || k == |b| || a[k] != b[k]
  {
    k := 0;
    while k < |a| && k < |b| && a[k] == b[k]
      invariant k <= |a| && k <= |b| && a[..k] == b[..k]
    {
      k := k + 1;
    }
  }

  // ----- One number, one list of operations -----

  lemma {:induction false} CodesDiverge(a: seq<Op>, b: seq<Op>, p: Properties, k: nat)
    requires Playable(a) && Playable(b) && p.lc <= 8
    requires k < |a| && k < |b| && a[..k] == b[..k] && a[k] != b[k]
    ensures Diverge(Codes(a, p), Codes(b, p))
  {
    CodesPrefix(a, p, k);
    CodesPrefix(b, p, k);
    hide Codes, Code, Diverge;
    var m := Run(a[..k]);
    OperationsDiverge(a[k], b[k], m, p);
    DivergeBehind(Codes(a[..k], p), Code(a[k], m, p), Code(b[k], m, p));
    DivergeLast(Codes(a[..k], p) + Code(a[k], m, p), Codes(b[..k], p) + Code(b[k], m, p), Codes(a, p), Codes(b, p));
  }

  /** Two lists of operations that the same input spells agree as far as both go. */
  lemma OneReading(input: seq<byte>, n: nat, a: seq<Op>, b: seq<Op>, p: Properties) returns (k: nat)
    requires Playable(a) && Playable(b) && p.lc <= 8
    requires Decoded(input, n, Codes(a, p)) && Decoded(input, n, Codes(b, p))
    ensures k <= |a| && k <= |b| && a[..k] == b[..k] && (k == |a| || k == |b|)
  {
    k := FirstDifference(a, b);
    if k < |a| && k < |b| {
      CodesDiverge(a, b, p, k);
      DecodedAgree(input, n, Codes(a, p), Codes(b, p));
    }
  }

  /** No complete list is the start of another. */
  lemma PrefixIsWhole(a: seq<Op>, b: seq<Op>, outSize: nat)
    requires Complete(a, outSize) && Complete(b, outSize) && b <= a
    ensures a == b
  {
    hide Stops, Goes, Playable;
    var n: nat := |b|;
    assert a[..n] == b;
    if n < |a| {
      GoesPrefix(a, outSize, n);
    } else {
      assert a[..n] == a;
    }
  }

  /** So there is only one complete one. */
  lemma OneCompleteReading(input: seq<byte>, n: nat, a: seq<Op>, b: seq<Op>, p: Properties, outSize: nat)
    requires Complete(a, outSize) && Complete(b, outSize) && p.lc <= 8
    requires Decoded(input, n, Codes(a, p)) && Decoded(input, n, Codes(b, p))
    ensures a == b
  {
    hide Stops, Goes, Decoded, Codes;
    var k := OneReading(input, n, a, b, p);
    assert a[..|a|] == a && b[..|b|] == b;
    if k == |b| {
      PrefixIsWhole(a, b, outSize);
    } else {
      PrefixIsWhole(b, a, outSize);
    }
  }

  // ----- Reading what was encoded -----

  /** The input is long enough for one more decision behind t. */
  ghost predicate Reaches(input: seq<byte>, n: nat, t: seq<Decision>) {
    5 + Normalize(After(n, t)).shifts <= |input|
  }

  /** The number in the input lies in the interval of these operations, and no byte of it is missing. */
  ghost predicate Encodes(input: seq<byte>, p: Properties, plan: seq<Op>, outSize: nat) {
    && Complete(plan, outSize) && p.lc <= 8
    && Reaches(input, TableSize(p), Codes(plan, p)) && Inside(input, After(TableSize(p), Codes(plan, p)))
  }

  lemma EncodedIsDecoded(input: seq<byte>, p: Properties, plan: seq<Op>, outSize: nat)
    requires Encodes(input, p, plan, outSize)
    ensures Decoded(input, TableSize(p), Codes(plan, p))
  {
    hide Codes, TableSize;
    DecodedIffInside(input, TableSize(p), Codes(plan, p));
  }

  lemma DecodedGoes(input: seq<byte>, n: nat, t: seq<Decision>, k: nat)
    requires Decoded(input, n, t) && k < |t|
    ensures Reaches(input, n, t[..k])
  {
    DecodedPrefix(input, n, t, k + 1);
    assert t[..k + 1][..k] == t[..k];
  }

  /** A list of decisions behind which the input ends is not the start of one it spells. */
  lemma StarvedIsNotStart(input: seq<byte>, n: nat, t: seq<Decision>, whole: seq<Decision>)
    requires !Reaches(input, n, t) && Decoded(input, n, whole)
    ensures !(t < whole)
  {
    if t < whole {
      assert whole[..|t|] == t;
      DecodedGoes(input, n, whole, |t|);
    }
  }

  /** The start of one code, read from an input that spells another, is the start of both. */
  lemma CutAgrees(input: seq<byte>, n: nat, before: seq<Decision>, t: seq<Decision>, c: seq<Decision>,
                  c': seq<Decision>, whole: seq<Decision>)
    requires Decoded(input, n, t) && Decoded(input, n, whole)
    requires before <= t && t < before + c && before + c' <= whole && (c == c' || Diverge(c, c'))
    ensures t < whole
  {
    if c != c' {
      var k :| 0 <= k < |c| && k < |c'| && c[..k] == c'[..k] && SameQuestion(c[k], c'[k]) && c[k].bit != c'[k].bit;
      if |t| > |before| + k {
        DecodedAgree(input, n, t, whole);
        TurnsOff(before, t, c, c', whole, k);
      } else {
        StaysOn(before, t, c, c', whole, k);
      }
    } else {
      assert before + c == before + c';
    }
  }

  lemma TurnsOff(before: seq<Decision>, t: seq<Decision>, c: seq<Decision>, c': seq<Decision>, whole: seq<Decision>,
                 k: nat)
    requires before <= t && t <= before + c && before + c' <= whole && |before| + k < |t|
    requires k < |c| && k < |c'| && c[..k] == c'[..k] && SameQuestion(c[k], c'[k]) && c[k].bit != c'[k].bit
    ensures Diverge(t, whole)
  {
    var j := |before| + k;
    assert t[j] == (before + c)[j] == c[k];
    assert whole[j] == (before + c')[j] == c'[k];
    assert t[..j] == (before + c)[..j] == before + c[..k];
    assert whole[..j] == (before + c')[..j] == before + c'[..k];
  }

  lemma StaysOn(before: seq<Decision>, t: seq<Decision>, c: seq<Decision>, c': seq<Decision>, whole: seq<Decision>,
                k: nat)
    requires before <= t && t <= before + c && before + c' <= whole && |t| <= |before| + k
    requires k < |c| && k < |c'| && c[..k] == c'[..k]
    ensures t < whole
  {
    var j := |before| + k;
    assert (before + c)[..j] == before + c[..k] == (before + c')[..j];
    assert t == (before + c)[..|t|] == (before + c)[..j][..|t|];
    assert whole[..|t|] == (before + c')[..j][..|t|];
  }

  /** How decoding can fail behind ops: the input ends, or op reaches back too far. */
  ghost predicate Fails(input: seq<byte>, p: Properties, ops: seq<Op>, op: Op, t: seq<Decision>, outSize: nat)
    requires p.lc <= 8
  {
    && Playable(ops) && Goes(ops, outSize) && !Stops(ops, outSize) && WellFormed(op)
    && Decoded(input, TableSize(p), t)
    && var before, c := Codes(ops, p), Code(op, Run(ops), p);
       if Legal(op, Run(ops)) then before <= t && t < before + c && !Reaches(input, TableSize(p), t)
       else before <= t <= before + c && (t == before + c || !Reaches(input, TableSize(p), t))
  }

  lemma FailingStart(input: seq<byte>, p: Properties, ops: seq<Op>, op: Op, t: seq<Decision>, outSize: nat)
    requires p.lc <= 8 && Fails(input, p, ops, op, t, outSize)
    ensures Decoded(input, TableSize(p), Codes(ops, p))
  {
    hide Playable, Goes, Stops, Codes, Decoded, TableSize, Reaches;
    DecodedPrefix(input, TableSize(p), t, |Codes(ops, p)|);
    assert t[..|Codes(ops, p)|] == Codes(ops, p);
  }

  /** The plan goes on where decoding failed. */
  lemma PlanGoesOn(input: seq<byte>, p: Properties, ops: seq<Op>, plan: seq<Op>, outSize: nat)
    requires p.lc <= 8 && Playable(ops) && Goes(ops, outSize) && !Stops(ops, outSize) && Complete(plan, outSize)
    requires Decoded(input, TableSize(p), Codes(ops, p)) && Decoded(input, TableSize(p), Codes(plan, p))
    ensures |ops| < |plan| && plan[..|ops|] == ops
    ensures WellFormed(plan[|ops|]) && Legal(plan[|ops|], Run(ops))
    ensures Codes(ops, p) + Code(plan[|ops|], Run(ops), p) <= Codes(plan, p)
  {
    hide Stops, Goes, Codes, Code, Decoded, TableSize, Playable, Run, Legal;
    var k := OneReading(input, TableSize(p), ops, plan, p);
    assert ops[..|ops|] == ops && plan[..|plan|] == plan;
    if k == |ops| && k < |plan| {
      PlayablePrefix(plan, k);
      CodesPrefix(plan, p, k);
    } else {
      assert ops[..k] == plan;
      StopsAt(ops, outSize, k);
    }
  }

  lemma StopsAt(ops: seq<Op>, outSize: nat, k: nat)
    requires Playable(ops) && Goes(ops, outSize) && !Stops(ops, outSize) && k <= |ops|
    ensures Playable(ops[..k]) && !Stops(ops[..k], outSize)
  {
    hide Stops;
    if k < |ops| {
      GoesPrefix(ops, outSize, k);
    } else {
      assert ops[..k] == ops;
    }
  }

  /** An input at which decoding fails is no encoding of anything. */
  lemma FailsOnNoEncoding(input: seq<byte>, p: Properties, ops: seq<Op>, op: Op, t: seq<Decision>, plan: seq<Op>,
                          outSize: nat)
    requires p.lc <= 8 && Fails(input, p, ops, op, t, outSize)
    ensures !Encodes(input, p, plan, outSize)
  {
    if Encodes(input, p, plan, outSize) {
      EncodedIsDecoded(input, p, plan, outSize);
      FailingStart(input, p, ops, op, t, outSize);
      PlanGoesOn(input, p, ops, plan, outSize);
      hide Playable, Goes, Stops, Codes, Code, Decoded, TableSize, Reaches, Diverge;
      var m, next := Run(ops), plan[|ops|];
      var before, whole := Codes(ops, p), Codes(plan, p);
      if op != next {
        OperationsDiverge(op, next, m, p);
      }
      if t == before + Code(op, m, p) {
        DivergeBehind(before, Code(op, m, p), Code(next, m, p));
        DivergeLast(t, before + Code(next, m, p), t, whole);
        DecodedAgree(input, TableSize(p), t, whole);
      } else {
        CutAgrees(input, TableSize(p), before, t, Code(op, m, p), Code(next, m, p), whole);
        StarvedIsNotStart(input, TableSize(p), t, whole);
      }
    }
  }

  // ----- Everything can be encoded -----

  function Scale(k: nat): (s: nat)
    ensures s >= 1
  {
    if k == 0 then 1 else 256 * Scale(k - 1)
  }

  /** The last k base-256 digits of v. */
  function Digits(v: nat, k: nat): (s: seq<byte>)
    ensures |s| == k
  {
    if k == 0 then [] else Digits(v / 256, k - 1) + [v % 256]
  }

  lemma {:induction false} ValueOfDigits(v: nat, k: nat)
    requires v < Scale(k)
    ensures Value(Digits(v, k)) == v
  {
    if k > 0 {
      ValueOfDigits(v / 256, k - 1);
      assert Digits(v, k)[..k - 1] == Digits(v / 256, k - 1);
    }
  }

  /** Intervals never reach past the numbers that 4 + shifts bytes can hold. */
  lemma {:induction false} IntervalFits(n: nat, t: seq<Decision>)
    ensures After(n, t).low + After(n, t).range <= Scale(After(n, t).shifts + 4)
  {
    hide *;
    if t == [] {
      WholeFits(n);
    } else {
      var before, d := t[..|t| - 1], t[|t| - 1];
      assert t == before + [d];
      IntervalFits(n, before);
      AfterMore(n, before, d);
      NarrowFits(After(n, before), d);
    }
  }

  lemma WholeFits(n: nat)
    ensures After(n, []).low + After(n, []).range <= Scale(After(n, []).shifts + 4)
  {
    assert Scale(4) == 256 * Scale(3) == 65536 * Scale(2) == 0x100_0000 * Scale(1) == TWO32;
  }

  lemma NarrowFits(iv: Interval, d: Decision)
    requires Sane(iv) && iv.low + iv.range <= Scale(iv.shifts + 4)
    ensures Narrow(iv, d).low + Narrow(iv, d).range <= Scale(Narrow(iv, d).shifts + 4)
  {
    hide Scale, Bound, Share;
    var wide := Normalize(iv);
    ScaleUp(iv.shifts + 4);
    ShareOfSpread(wide, d);
  }

  lemma ScaleUp(k: nat)
    ensures Scale(k + 1) == 256 * Scale(k)
  {
  }

  /** Every complete list of operations has an encoding, so all of them can be decoded. */
  lemma Encodable(p: Properties, plan: seq<Op>, outSize: nat) returns (input: seq<byte>)
    requires p.lc <= 8 && Complete(plan, outSize)
    ensures Encodes(input, p, plan, outSize)
  {
    IntervalFits(TableSize(p), Codes(plan, p));
    input := InputFor(After(TableSize(p), Codes(plan, p)));
  }

  lemma InputFor(iv: Interval) returns (input: seq<byte>)
    requires Sane(iv) && iv.low + iv.range <= Scale(iv.shifts + 4)
    ensures 5 + Normalize(iv).shifts <= |input| && Inside(input, iv)
  {
    var wide := Normalize(iv);
    assert wide.low < Scale(wide.shifts + 4);
    hide Scale, Digits, Value;
    var digits := Digits(wide.low, wide.shifts + 4);
    input := [0] + digits;
    assert input[1..5 + wide.shifts] == digits;
    ValueOfDigits(wide.low, wide.shifts + 4);
    InsideNormalize(input, iv);
  }

  // ----- The decoder as a whole -----

  lemma Extend(ops: seq<Op>, op: Op, p: Properties, outSize: nat)
    requires Playable(ops) && Goes(ops, outSize) && !Stops(ops, outSize) && p.lc <= 8
    requires WellFormed(op) && Legal(op, Run(ops))
    ensures Playable(ops + [op]) && Goes(ops + [op], outSize)
    ensures Run(ops + [op]) == Apply(Run(ops), op)
    ensures Codes(ops + [op], p) == Codes(ops, p) + Code(op, Run(ops), p)
    ensures IsEnd(op) ==> Stops(ops + [op], outSize)
    ensures Stops(ops + [op], outSize) <==> IsEnd(op) || |Apply(Run(ops), op).out| >= outSize
  {
    hide Code, Apply;
    var more := ops + [op];
    assert more[..|more| - 1] == ops && more[|more| - 1] == op;
  }

  /** The decoder stands behind ops, and has not met the end marker. */
  ghost predicate Standing(d: Decoder, ops: seq<Op>)
    reads d, d.rd, d.rd.probs, d.out
  {
    && d.Ready() && Playable(ops) && Goes(ops, d.out.Length) && (forall o :: o in ops ==> !IsEnd(o))
    && d.rd.trace == Codes(ops, d.p) && d.Shows(Run(ops))
  }

  lemma StandingGoesOn(d: Decoder, ops: seq<Op>)
    requires Standing(d, ops) && d.nowPos < d.out.Length
    ensures !Stops(ops, d.out.Length)
  {
  }

  lemma StarvedIsShort(d: Decoder)
    requires d.Ready() && d.rd.Starved()
    ensures !Reaches(d.rd.input, TableSize(d.p), d.rd.trace)
  {
  }

  lemma TraceIsDecoded(d: Decoder)
    requires d.Ready()
    ensures Decoded(d.rd.input, TableSize(d.p), d.rd.trace)
  {
  }

  lemma RefusedFails(d: Decoder, ops: seq<Op>, op: Op)
    requires d.Ready() && Playable(ops) && Goes(ops, d.out.Length) && !Stops(ops, d.out.Length)
    requires WellFormed(op) && d.Refused(op, Run(ops), Codes(ops, d.p))
    ensures Fails(d.rd.input, d.p, ops, op, d.rd.trace, d.out.Length)
  {
    hide RangeDecoder.Valid, RangeDecoder.Starved, Playable, Goes, Stops, Codes, Code, Decoded, TableSize, Reaches;
    hide Decoder.Ready, Legal, Run, WellFormed;
    TraceIsDecoded(d);
    if d.rd.Starved() {
      StarvedIsShort(d);
    }
  }

  datatype Result = DataError | Finished(inSizeProcessed: nat, outSizeProcessed: nat)

  /** What the decoder promises about what it read. */
  ghost predicate Expanded(input: seq<byte>, p: Properties, ops: seq<Op>, out: seq<byte>, r: Result)
    requires p.lc <= 8 && r.Finished?
  {
    && Complete(ops, |out|) && Decoded(input, TableSize(p), Codes(ops, p)) &&
       Reaches(input, TableSize(p), Codes(ops, p))
    && r.inSizeProcessed == 5 + Normalize(After(TableSize(p), Codes(ops, p))).shifts
    && r.outSizeProcessed == Least(|Run(ops).out|, |out|)
    && out[..r.outSizeProcessed] == Run(ops).out[..r.outSizeProcessed]
  }

  /** One turn of the loop: ops grows by the operation that was decoded and performed. */
  method Turn(d: Decoder, ghost ops: seq<Op>) returns (outcome: Outcome, ghost op: Op)
    requires Standing(d, ops) && d.nowPos < d.out.Length
    modifies d, d.rd, d.rd.probs, d.out
    ensures d.Ready() && Playable(ops) && Goes(ops, d.out.Length) && !Stops(ops, d.out.Length)
    ensures match outcome
            case Failed => Fails(d.rd.input, d.p, ops, op, d.rd.trace, d.out.Length)
            case Done => Standing(d, ops + [op]) && d.nowPos > old(d.nowPos)
            case Ended => EndedAt(d, ops + [op])
  {
    StandingGoesOn(d, ops);
    ghost var m := Run(ops);
    hide Stops, Goes, Codes, Code, Decoder.Ready, TableSize, Playable, Run;
    outcome, op := d.Step(m);
    if outcome == Failed {
      RefusedFails(d, ops, op);
    } else {
      Extend(ops, op, d.p, d.out.Length);
    }
  }

  /** The end marker has been read. */
  ghost predicate EndedAt(d: Decoder, ops: seq<Op>)
    reads d, d.rd, d.rd.probs, d.out
  {
    && d.Ready() && Complete(ops, d.out.Length) && d.rd.trace == Codes(ops, d.p)
    && d.nowPos == Least(|Run(ops).out|, d.out.Length) && d.out[..d.nowPos] == Run(ops).out[..d.nowPos]
  }

  /** Why the input may be refused. */
  ghost predicate Faulty(input: seq<byte>, p: Properties, outSize: nat)
    requires p.lc <= 8
  {
    || |input| < 5
    || (exists ops, op, t :: Fails(input, p, ops, op, t, outSize))
    || (exists ops :: EndsShort(input, p, ops, outSize))
  }

  /** Everything was decoded, but a last byte is missing. */
  ghost predicate EndsShort(input: seq<byte>, p: Properties, ops: seq<Op>, outSize: nat)
    requires p.lc <= 8
  {
    Complete(ops, outSize) && Decoded(input, TableSize(p), Codes(ops, p)) &&
      !Reaches(input, TableSize(p), Codes(ops, p))
  }

  lemma FaultyEncodesNothing(input: seq<byte>, p: Properties, outSize: nat, plan: seq<Op>)
    requires p.lc <= 8 && Faulty(input, p, outSize)
    ensures !Encodes(input, p, plan, outSize)
  {
    if Encodes(input, p, plan, outSize) {
      EncodedIsDecoded(input, p, plan, outSize);
      hide Complete, Decoded, Codes, TableSize, Fails;
      if ops, op, t :| Fails(input, p, ops, op, t, outSize) {
        FailsOnNoEncoding(input, p, ops, op, t, plan, outSize);
      } else if ops :| EndsShort(input, p, ops, outSize) {
        OneCompleteReading(input, TableSize(p), ops, plan, p, outSize);
      }
    }
  }

  lemma LoopEnds(d: Decoder, ops: seq<Op>)
    requires Standing(d, ops) && d.nowPos >= d.out.Length
    ensures EndedAt(d, ops)
  {
  }

  /** The final RC_NORMALIZE. */
  method Finish(d: Decoder, ghost ops: seq<Op>) returns (r: Result)
    requires EndedAt(d, ops)
    modifies d.rd
    ensures d.nowPos == old(d.nowPos) && d.out[..] == old(d.out[..])
    ensures if r.Finished? then Expanded(d.rd.input, d.p, ops, d.out[..], r)
            else EndsShort(d.rd.input, d.p, ops, d.out.Length)
  {
    TraceIsDecoded(d);
    ghost var iv := After(TableSize(d.p), d.rd.trace);
    if d.rd.Starved() {
      StarvedIsShort(d);
    }
    hide Complete, Decoded, Codes, TableSize, Run;
    var ok := d.rd.NormalizeRange(iv);
    if !ok {
      return DataError;
    }
    assert d.out[..d.nowPos] == d.out[..][..d.nowPos];
    return Finished(d.rd.pos, d.nowPos);
  }

  /**
   `LzmaDecode`: the output is the expansion of the operations that the input spells, cut off
   at the size of the output; the input is refused only if it is faulty; and whatever it was
   encoded from is what is found.
   */
  method LzmaDecode(p: Properties, input: seq<byte>, out: array<byte>) returns (r: Result, ghost ops: seq<Op>)
    requires ValidProperties(p)
    modifies out
    ensures if r.Finished? then Expanded(input, p, ops, out[..], r) else Faulty(input, p, out.Length)
    ensures forall plan :: Encodes(input, p, plan, out.Length) ==> r.Finished? && ops == plan
  {
    ops := [];
    if |input| < 5 {
      r := DataError;
      NothingMissed(input, p, out.Length, r, ops, out[..]);
      return;
    }
    var d := new Decoder(p, input, out);
    assert Standing(d, ops);
    hide Standing, Stops, Goes, Codes, Code, Decoder.Ready, TableSize, Playable, Run, Decoder.Shows;
    var outcome, ended := Done, false;
    while d.nowPos < out.Length && !ended
      invariant fresh(d) && fresh(d.rd) && fresh(d.rd.probs) && d.out == out && d.p == p && d.rd.input == input
      invariant if ended then EndedAt(d, ops) else Standing(d, ops)
      decreases !ended, out.Length - d.nowPos
    {
      ghost var op: Op;
      outcome, op := Turn(d, ops);
      if outcome == Failed {
        r := DataError;
        NothingMissed(input, p, out.Length, r, ops, out[..]);
        return;
      }
      ops := ops + [op];
      ended := outcome == Ended;
    }
    if !ended {
      LoopEnds(d, ops);
    }
    r := Finish(d, ops);
    NothingMissed(input, p, out.Length, r, ops, out[..]);
  }

  lemma NothingMissed(input: seq<byte>, p: Properties, outSize: nat, r: Result, ops: seq<Op>, out: seq<byte>)
    requires p.lc <= 8 && outSize == |out|
    requires if r.Finished? then Expanded(input, p, ops, out, r) else Faulty(input, p, outSize)
    ensures forall plan :: Encodes(input, p, plan, outSize) ==> r.Finished? && ops == plan
  {
    forall plan | Encodes(input, p, plan, outSize)
      ensures r.Finished? && ops == plan
    {
      if r.Finished? {
        EncodedIsDecoded(input, p, plan, outSize);
        hide Complete, Decoded, Codes, TableSize;
        OneCompleteReading(input, TableSize(p), ops, plan, p, outSize);
      } else {
        FaultyEncodesNothing(input, p, outSize, plan);
      }
    }
  }
}

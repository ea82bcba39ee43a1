/**
 The LZMA format as its specification writes it down: what the last operations say in the
 state, how the four distances are kept, the bits of every operation, and which decisions
 share a probability.
 */
module LzmaFormat {
  import opened Alignment
  import opened Bytes
  import opened RangeCoder
  import opened BitCodes
  import opened LzmaSyntax

  // ----- The state -----

  /** From index k on there are only literals. */
  ghost predicate LiteralsFrom(ops: seq<Op>, k: nat) {
    forall i :: k <= i < |ops| ==> ops[i].Literal?
  }

  /** The state right behind a copy, which says what copy it was and whether a literal stood before it. */
  function BehindCopy(op: Op, behindLiteral: bool): nat {
    if behindLiteral then (if op.Match? then 7 else if op.Rep? then 8 else 9)
    else if op.Match? then 10 else 11
  }

  /** The states one and two literals later; from the third literal on the copy is forgotten. */
  function Fading(behindCopy: nat, literals: nat): nat {
    if literals == 0 then behindCopy
    else if literals == 1 then (if behindCopy in {7, 10} then 4 else if behindCopy in {8, 11} then 5 else 6)
    else if literals == 2 then (if behindCopy in {7, 10} then 1 else if behindCopy in {8, 11} then 2 else 3)
    else 0
  }

  /** Literals alone leave the first state. */
  lemma {:induction false} StateOfLiterals(ops: seq<Op>)
    requires Playable(ops) && LiteralsFrom(ops, 0)
    ensures Run(ops).state == 0
  {
    hide Legal, WellFormed, Sound;
    if ops != [] {
      StateOfLiterals(ops[..|ops| - 1]);
    }
  }

  /** The state is what the last copy, the operation before it and the number of literals behind it make of it. */
  lemma {:induction false} StateBehindCopy(ops: seq<Op>, k: nat)
    requires Playable(ops) && (forall o :: o in ops ==> !IsEnd(o))
    requires k < |ops| && !ops[k].Literal? && LiteralsFrom(ops, k + 1)
    ensures Run(ops).state == Fading(BehindCopy(ops[k], k == 0 || ops[k - 1].Literal?), |ops| - 1 - k)
    decreases |ops|
  {
    hide Legal, WellFormed, Sound;
    var n := |ops| - 1;
    var rest := ops[..n];
    assert ops[n] in ops;
    if k < n {
      StateBehindCopy(rest, k);
      assert rest[k] == ops[k] && (k > 0 ==> rest[k - 1] == ops[k - 1]) && ops[n].Literal?;
    } else if k > 0 {
      assert rest[|rest| - 1] == ops[k - 1];
      StateTellsCopy(rest);
    }
  }

  /** From 7 on the state says that the last operation was a copy. */
  lemma {:induction false} StateTellsCopy(ops: seq<Op>)
    requires Playable(ops) && (forall o :: o in ops ==> !IsEnd(o)) && ops != []
    ensures Run(ops).state >= 7 <==> !ops[|ops| - 1].Literal?
  {
    hide Legal, WellFormed;
    assert ops[|ops| - 1] in ops;
  }

  // ----- The distances -----

  function Distances(m: Machine): seq<nat> {
    [m.rep0, m.rep1, m.rep2, m.rep3]
  }

  /** A new distance pushes out the oldest one; one of the four that is used again moves to the front. */
  lemma DistancesAfter(m: Machine, op: Op)
    requires Sound(m) && WellFormed(op) && Legal(op, m) && !IsEnd(op) && !op.Literal?
    ensures var d, d' := Distances(m), Distances(Apply(m, op));
            var k := if op.Match? then 3 else if op.Rep? then op.which else 0;
            d' == [Reach(op, m)] + d[..k] + d[k + 1..]
    ensures Reach(op, m) == if op.Match? then op.distance else if op.Rep? then Distances(m)[op.which] else m.rep0
  {
  }

  /** Literals leave them alone. */
  lemma DistancesKept(m: Machine, op: Op)
    requires Sound(m) && WellFormed(op) && Legal(op, m) && (op.Literal? || IsEnd(op))
    ensures Distances(Apply(m, op)) == Distances(m)
  {
  }

  // ----- The output -----

  /** A literal is put behind the output; a copy of one or more bytes repeats what is so far back. */
  lemma OutputAfter(m: Machine, op: Op)
    requires Sound(m) && WellFormed(op) && Legal(op, m) && !IsEnd(op)
    ensures var out := Apply(m, op).out;
            if op.Literal? then out == m.out + [op.b]
            else
              && m.out <= out && |out| == |m.out| + (if op.ShortRep? then 1 else op.length)
              && forall i, j :: |m.out| <= i < |out| && j == i - Reach(op, m) ==> 0 <= j && out[i] == out[j]
  {
    if !op.Literal? {
      var n := if op.ShortRep? then 1 else op.length;
      CopyExtends(m.out, Reach(op, m), n);
      forall i | |m.out| <= i < |m.out| + n
        ensures Copy(m.out, Reach(op, m), n)[i] == Copy(m.out, Reach(op, m), n)[i - Reach(op, m)]
      {
        CopyRepeats(m.out, Reach(op, m), n, i);
      }
    }
    hide Copy;
  }

  lemma {:induction false} CopyExtends(out: seq<byte>, distance: nat, n: nat)
    requires 1 <= distance <= |out|
    ensures out <= Copy(out, distance, n)
  {
    if n > 0 {
      CopyExtends(out, distance, n - 1);
    }
  }

  // ----- Bits by their places -----

  lemma PowerAt(k: nat)
    ensures Power(k + 1) == 2 * Power(k)
  {
  }

  lemma HalfFirst(v: nat, k: nat)
    ensures v / Power(k + 1) == v / 2 / Power(k)
  {
    hide Power;
    PowerAt(k);
    var p, q, r := Power(k), v / 2 / Power(k), v / 2 % Power(k);
    assert v == 2 * (v / 2) + v % 2 && v / 2 == q * p + r;
    assert v == q * (2 * p) + (2 * r + v % 2) by {
      assert 2 * (q * p) == q * (2 * p);
    }
    DivModUnique(v, 2 * p, q, 2 * r + v % 2);
  }

  /** The n lowest bits of v, highest first. */
  function High(v: nat, n: nat): (s: seq<Bit>)
    ensures |s| == n
  {
    seq(n, i requires 0 <= i < n => v / Power(n - 1 - i) % 2)
  }

  /** The n lowest bits of v, lowest first. */
  function Low(v: nat, n: nat): (s: seq<Bit>)
    ensures |s| == n
  {
    seq(n, i requires 0 <= i < n => v / Power(i) % 2)
  }

  function Answers(code: seq<Decision>): (s: seq<Bit>)
    ensures |s| == |code|
  {
    seq(|code|, i requires 0 <= i < |code| => code[i].bit)
  }

  lemma AnswersConcat(a: seq<Decision>, b: seq<Decision>)
    ensures Answers(a + b) == Answers(a) + Answers(b)
  {
  }

  lemma HighStep(v: nat, n: nat)
    ensures High(v, n + 1) == High(v / 2, n) + [v % 2]
  {
    hide Power;
    forall i | 0 <= i < n
      ensures High(v, n + 1)[i] == High(v / 2, n)[i]
    {
      HalfFirst(v, n - 1 - i);
    }
    PowerZero();
  }

  lemma PowerZero()
    ensures Power(0) == 1
  {
  }

  lemma LowStep(v: nat, n: nat)
    ensures Low(v, n + 1) == Low(v, n) + [v / Power(n) % 2]
  {
    hide Power;
  }

  lemma {:induction false} BitOfAt(v: nat, k: nat)
    ensures BitOf(v, k) == v / Power(k) % 2
  {
    if k == 0 {
      PowerZero();
    } else {
      HalfFirst(v, k - 1);
      BitOfAt(v / 2, k - 1);
    }
  }

  lemma AnswersOne(code: seq<Decision>, d: Decision)
    ensures Answers(code + [d]) == Answers(code) + [d.bit]
  {
  }

  lemma {:induction false} PathAnswers(base: nat, v: nat, n: nat)
    requires v < Power(n)
    ensures Answers(Path(base, Power(n) + v)) == High(v, n)
  {
    if n == 0 {
      assert Path(base, Power(0) + v) == [];
    } else {
      PowerAt(n - 1);
      assert (Power(n) + v) / 2 == Power(n - 1) + v / 2 && (Power(n) + v) % 2 == v % 2;
      PathAnswers(base, v / 2, n - 1);
      AnswersOne(Path(base, Power(n - 1) + v / 2), Modelled(base + (Power(n - 1) + v / 2), v % 2));
      HighStep(v, n - 1);
    }
  }

  lemma {:induction false} GuidedAnswers(base: nat, guide: nat, v: nat, n: nat)
    requires v < Power(n)
    ensures Answers(GuidedPath(base, guide, Power(n) + v)) == High(v, n)
  {
    if n == 0 {
      assert GuidedPath(base, guide, Power(0) + v) == [];
    } else {
      PowerAt(n - 1);
      var node := Power(n) + v;
      assert node / 2 == Power(n - 1) + v / 2 && node % 2 == v % 2;
      GuidedAnswers(base, guide / 2, v / 2, n - 1);
      var last := GuidedPath(base, guide, node)[|GuidedPath(base, guide / 2, node / 2)|];
      assert GuidedPath(base, guide, node) == GuidedPath(base, guide / 2, node / 2) + [last] && last.bit == v % 2;
      AnswersOne(GuidedPath(base, guide / 2, node / 2), last);
      HighStep(v, n - 1);
    }
  }

  lemma {:induction false} DirectsAnswers(v: nat, n: nat)
    ensures Answers(Directs(v, n)) == High(v, n)
  {
    if n > 0 {
      DirectsAnswers(v / 2, n - 1);
      AnswersOne(Directs(v / 2, n - 1), Direct(v % 2));
      HighStep(v, n - 1);
    }
  }

  lemma {:induction false} ReverseAnswers(base: nat, v: nat, n: nat)
    ensures Answers(ReversePath(base, v, n)) == Low(v, n)
  {
    if n > 0 {
      ReverseAnswers(base, v, n - 1);
      BitOfAt(v, n - 1);
      AnswersOne(ReversePath(base, v, n - 1), Modelled(base + Mirror(v, n - 1), BitOf(v, n - 1)));
      LowStep(v, n - 1);
    }
  }

  // ----- The bits of an operation -----

  /** Lengths from 2 on, less 2: three classes, with three, three and eight bits. */
  function LengthBits(l: nat): seq<Bit> {
    if l < 8 then [0] + High(l, 3) else if l < 16 then [1, 0] + High(l - 8, 3) else [1, 1] + High(l - 16, 8)
  }

  lemma SmallPowers()
    ensures Power(1) == 2 && Power(3) == 8 && Power(4) == 16 && Power(6) == 64 && Power(8) == 256
  {
    assert Power(2) == 2 * Power(1) == 4 * Power(0);
    assert Power(4) == 2 * Power(3) == 4 * Power(2);
    assert Power(6) == 2 * Power(5) == 4 * Power(4);
    assert Power(8) == 2 * Power(7) == 4 * Power(6);
  }

  lemma LengthAnswers(base: nat, l: nat, posState: nat)
    requires l < 272
    ensures Answers(LengthCode(base, l, posState)) == LengthBits(l)
  {
    hide Path, Power, High;
    SmallPowers();
    if l < 8 {
      PathAnswers(base + 2 + 8 * posState, l, 3);
      AnswersConcat([Modelled(base, 0)], Path(base + 2 + 8 * posState, 8 + l));
    } else if l < 16 {
      PathAnswers(base + 130 + 8 * posState, l - 8, 3);
      AnswersConcat([Modelled(base, 1), Modelled(base + 1, 0)], Path(base + 130 + 8 * posState, l));
    } else {
      PathAnswers(base + 258, l - 16, 8);
      AnswersConcat([Modelled(base, 1), Modelled(base + 1, 1)], Path(base + 258, 240 + l));
    }
  }

  /** The distances of a slot from 4 on: those of one size in binary with the same two leading bits. */
  predicate InSlot(d: nat, slot: nat) {
    && 4 <= slot < 64
    && var lead, p := 2 + slot % 2, Power(slot / 2 - 1);
       lead * p <= d < lead * p + p
  }

  /** The bits that the slot leaves open: lowest first in small slots, else all but four highest first. */
  function OpenAnswers(d: nat, slot: nat): seq<Bit>
    requires InSlot(d, slot)
  {
    var n, rest: nat := slot / 2 - 1, d - (2 + slot % 2) * Power(slot / 2 - 1);
    if slot < 14 then Low(rest, n) else High(rest / 16, n - 4) + Low(rest % 16, 4)
  }

  /** Six bits for the slot, and then the open ones. */
  ghost predicate SpellsDistance(d: nat, bits: seq<Bit>) {
    if d < 4 then bits == High(d, 6)
    else exists slot :: InSlot(d, slot) && bits == High(slot, 6) + OpenAnswers(d, slot)
  }

  lemma OpenBitsAnswers(slot: nat, rest: nat)
    requires 4 <= slot < 64 && rest < Power(slot / 2 - 1)
    ensures Answers(OpenBits(slot, rest)) ==
            if slot < 14 then Low(rest, slot / 2 - 1) else High(rest / 16, slot / 2 - 5) + Low(rest % 16, 4)
  {
    hide Power, High, Low, ReversePath, Directs, SlotBase;
    if slot < 14 {
      SlotBaseCovers(slot);
      ReverseAnswers(SPEC_POS + SlotBase(slot) - slot - 1, rest, slot / 2 - 1);
    } else {
      DirectsAnswers(rest / 16, slot / 2 - 5);
      ReverseAnswers(ALIGN, rest % 16, 4);
      AnswersConcat(Directs(rest / 16, slot / 2 - 5), ReversePath(ALIGN, rest % 16, 4));
    }
  }

  lemma SlotBaseCovers(slot: nat)
    requires slot >= 4
    ensures SlotBase(slot) == (2 + slot % 2) * Power(slot / 2 - 1)
  {
    hide Power;
  }

  lemma DistanceAnswers(d: nat, l: nat)
    requires d < TWO32
    ensures SpellsDistance(d, Answers(DistanceCode(d, l)))
  {
    hide Power, High, Low, Path, OpenBits, Slot, Rest, SlotTree;
    SmallPowers();
    var slot := Slot(d);
    SlotSize(d);
    PathAnswers(SlotTree(l), slot, 6);
    AnswersConcat(Path(SlotTree(l), 64 + slot), OpenBits(slot, Rest(d)));
    if d < 4 {
      NothingOpen(d);
      assert Answers(DistanceCode(d, l)) == High(d, 6);
    } else {
      SlotRange(d);
      SlotBaseCovers(slot);
      hide SlotBase;
      OpenBitsAnswers(slot, Rest(d));
      assert InSlot(d, slot);
    }
  }

  lemma NothingOpen(d: nat)
    requires d < 4
    ensures Slot(d) == d && OpenBits(Slot(d), Rest(d)) == [] && Answers([]) == []
  {
  }

  lemma SlotSize(d: nat)
    requires d < TWO32
    ensures Slot(d) < 64
  {
    hide Slot;
    assert Power(32) == TWO32 by {
      Power32();
    }
    SlotBound(d, 32);
  }

  lemma Power32()
    ensures Power(32) == TWO32
  {
    hide Power;
    SmallPowers();
    PowerAdds(8, 8);
    PowerAdds(16, 16);
  }

  lemma {:induction false} PowerAdds(a: nat, b: nat)
    ensures Power(a + b) == Power(a) * Power(b)
  {
    if a > 0 {
      PowerAdds(a - 1, b);
      assert a + b - 1 == (a - 1) + b;
      var p, q := Power(a - 1), Power(b);
      assert 2 * (p * q) == (2 * p) * q;
    }
  }

  /** The bits by which the kind of an operation is told. */
  function KindAnswers(op: Op): seq<Bit>
    requires WellFormed(op)
  {
    match op
    case Literal(_) => [0]
    case Match(_, _) => [1, 0]
    case ShortRep => [1, 1, 0, 0]
    case Rep(which, _) =>
      if which == 0 then [1, 1, 0, 1] else if which == 1 then [1, 1, 1, 0]
      else if which == 2 then [1, 1, 1, 1, 0] else [1, 1, 1, 1, 1]
  }

  lemma KindIsTold(op: Op, m: Machine, posState: nat)
    requires WellFormed(op)
    ensures Answers(KindBits(op, m, posState)) == KindAnswers(op)
  {
  }

  /**
   What an operation looks like in bits: a literal byte highest bit first; a match with its length and its distance;
   a repeated match with its length.
   */
  lemma OperationAnswers(op: Op, m: Machine, p: Properties) returns (distance: seq<Bit>)
    requires Sound(m) && WellFormed(op) && p.lc <= 8
    ensures op.Match? ==> SpellsDistance(op.distance - 1, distance)
    ensures Answers(Code(op, m, p)) == KindAnswers(op) +
            match op
            case Literal(b) => High(b, 8)
            case Match(_, length) => LengthBits(length - 2) + distance
            case ShortRep => []
            case Rep(_, length) => LengthBits(length - 2)
  {
    hide Power, High, LengthCode, DistanceCode, LengthBits, GuidedPath, PosState, LiteralTree, Guide, KindBits;
    hide SpellsDistance, Answers, KindAnswers;
    distance := [];
    KindIsTold(op, m, PosState(m, p));
    AnswersConcat(KindBits(op, m, PosState(m, p)), Body(op, m, p));
    match op
    case Literal(b) =>
      SmallPowers();
      GuidedAnswers(LiteralTree(m, p), Guide(m), b, 8);
    case Match(d, length) =>
      LengthAnswers(LEN_CODER, length - 2, PosState(m, p));
      DistanceAnswers(d - 1, length - 2);
      distance := Answers(DistanceCode(d - 1, length - 2));
      AnswersConcat(LengthCode(LEN_CODER, length - 2, PosState(m, p)), DistanceCode(d - 1, length - 2));
    case ShortRep =>
      NoAnswers();
    case Rep(_, length) =>
      LengthAnswers(REP_LEN_CODER, length - 2, PosState(m, p));
  }

  lemma NoAnswers()
    ensures Answers([]) == []
  {
  }

  // ----- Shifts as products and quotients -----

  lemma {:induction false} LeadingIsQuotient(v: nat, k: nat)
    ensures Leading(v, k) == v / Power(k)
  {
    if k == 0 {
      PowerZero();
    } else {
      LeadingIsQuotient(v, k - 1);
      hide Power, Leading;
      PowerAt(k - 1);
      LeadingStep(v, k);
      QuotientHalf(v, Power(k - 1));
    }
  }

  lemma LeadingStep(v: nat, k: nat)
    requires k > 0
    ensures Leading(v, k) == Leading(v, k - 1) / 2
  {
  }

  lemma QuotientHalf(v: nat, p: nat)
    requires p > 0
    ensures v / (2 * p) == v / p / 2
  {
    var q, r := v / p, v % p;
    Euclid(v, p);
    var h, b := q / 2, q % 2;
    assert q * p == h * (2 * p) + b * p by {
      assert q == 2 * h + b;
      assert (2 * h + b) * p == 2 * h * p + b * p;
      assert 2 * h * p == h * (2 * p);
    }
    assert b * p + r < 2 * p;
    DivModUnique(v, 2 * p, h, b * p + r);
  }

  function LastByte(m: Machine): nat {
    if m.out == [] then 0 else m.out[|m.out| - 1]
  }

  lemma ShiftedStep(v: nat, k: nat)
    ensures Shifted(v, 0) == v && Shifted(v, k + 1) == 2 * Shifted(v, k)
  {
  }

  lemma Doubled(v: nat, q: nat)
    ensures 2 * (v * q) == v * (2 * q)
  {
  }

  lemma {:induction false} ShiftedIsProduct(v: nat, k: nat)
    ensures Shifted(v, k) == v * Power(k)
  {
    hide *;
    if k == 0 {
      PowerZero();
      ShiftedStep(v, 0);
    } else {
      ShiftedIsProduct(v, k - 1);
      ShiftedStep(v, k - 1);
      PowerAt(k - 1);
      Doubled(v, Power(k - 1));
    }
  }

  lemma LeadingBits(v: nat, lc: nat)
    requires v < 256 && lc <= 8
    ensures Leading(v, 8 - lc) == v / Power(8 - lc) && Leading(v, 8 - lc) < Power(lc)
  {
    LeadingIsQuotient(v, 8 - lc);
    SmallPowers();
    PowerAdds(8 - lc, lc);
    hide Power, Leading;
    var q, p, r := v / Power(8 - lc), Power(8 - lc), Power(lc);
    Euclid(v, p);
    if q >= r {
      NoLess(r, q, p);
    }
  }

  lemma NoLess(a: nat, b: nat, p: nat)
    requires a <= b
    ensures p * a <= b * p
  {
    assert p * a == a * p <= b * p;
  }

  // ----- The numbers of the range coder -----

  /** Everything starts from the largest range and even odds. */
  lemma CoderStarts(n: nat)
    ensures After(n, []) == Interval(0, 0xFFFF_FFFF, 0, seq(n, _ => 1024))
  {
  }

  /** The part of a range that a modelled answer keeps, the probability of a 0 being p in 2048. */
  function KeptBy(range: nat, p: nat, bit: Bit): int {
    if bit == 0 then range / 2048 * p else range - range / 2048 * p
  }

  /** A decision with a probability: eight bits more when the range is below 2^24, and then its part of the range. */
  lemma ModelledNarrows(iv: Interval, index: nat, bit: Bit)
    requires Sane(iv) && index < |iv.probs|
    ensures var p, low, range := iv.probs[index], iv.low, iv.range;
            var scale := if range < 0x100_0000 then 256 else 1;
            var n := Narrow(iv, Modelled(index, bit));
            && n.range == KeptBy(scale * range, p, bit)
            && n.low == scale * low + (if bit == 0 then 0 else KeptBy(scale * range, p, 0))
            && n.shifts == iv.shifts + (if range < 0x100_0000 then 1 else 0)
            && n.probs == iv.probs[index := if bit == 0 then p + (2048 - p) / 32 else p - p / 32]
  {
  }

  /** A decision with even odds halves the range. */
  lemma DirectNarrows(iv: Interval, bit: Bit)
    requires Sane(iv)
    ensures var low, range := iv.low, iv.range;
            var scale := if range < 0x100_0000 then 256 else 1;
            var n := Narrow(iv, Direct(bit));
            && n.range == scale * range / 2 && n.low == scale * low + bit * (scale * range / 2)
            && n.probs == iv.probs
  {
  }

  /** An answer that was given gets no smaller part the next time, and the other one no larger part. */
  lemma SeenIsLikelier(range: nat, p: nat, bit: Bit)
    requires 31 <= p <= 2017
    ensures var p' := Adapted(p, bit);
            && p' >= 0 && KeptBy(range, p', bit) >= KeptBy(range, p, bit)
            && KeptBy(range, p', 1 - bit) <= KeptBy(range, p, 1 - bit)
  {
    AdaptedStays(p, bit);
    var q, p' := range / 2048, Adapted(p, bit);
    if bit == 0 {
      ProductGrows(q, p, p');
    } else {
      ProductGrows(q, p', p);
    }
  }

  lemma ProductGrows(q: nat, a: int, b: int)
    requires a <= b
    ensures q * a <= q * b
  {
  }
}

/**
 Which decisions of an LZMA stream are modelled together: the questions of the format, and that
 two decisions have one probability exactly if they answer the same question.
 */
module LzmaContexts {
  import opened Alignment
  import opened Options
  import opened Bytes
  import opened RangeCoder
  import opened BitCodes
  import opened LzmaSyntax
  import opened LzmaFormat

  /**
   A question: what kind of operation, and of which length, distance or byte. `state` is the kind of the last
   operations, `pos` the position modulo 2^pb; a path is what has been answered so far.
   */
  datatype Question =
    | IsCopy(state: nat, pos: nat)
    | IsRepeated(state: nat)
    | IsOlder(state: nat)
    | IsOlderStill(state: nat)
    | IsOldest(state: nat)
    | IsLong(state: nat, pos: nat)
    | LengthClass(repeated: bool, cls: nat)
    | ShortLength(repeated: bool, cls: nat, pos: nat, path: seq<Bit>)
    | LongLength(repeated: bool, path: seq<Bit>)
    | SlotBit(length: nat, path: seq<Bit>)
    | OpenBit(slot: nat, path: seq<Bit>)
    | LowestBit(path: seq<Bit>)
    | PlainBit(table: Table, path: seq<Bit>)
    | GuidedBit(table: Table, guide: Bit, path: seq<Bit>)

  /** Literals are told apart by the position modulo 2^lp and the first lc bits of the byte before them. */
  datatype Table = Table(position: nat, lead: nat)

  // ----- The questions that an operation answers -----

  function KindQuestions(op: Op, s: nat, pos: nat): seq<Question> {
    match op
    case Literal(_) => [IsCopy(s, pos)]
    case Match(_, _) => [IsCopy(s, pos), IsRepeated(s)]
    case ShortRep => [IsCopy(s, pos), IsRepeated(s), IsOlder(s), IsLong(s, pos)]
    case Rep(which, _) =>
      [IsCopy(s, pos), IsRepeated(s), IsOlder(s)] +
      if which == 0 then [IsLong(s, pos)] else if which == 1 then [IsOlderStill(s)] else [IsOlderStill(s), IsOldest(s)]
  }

  function ShortQuestions(repeated: bool, cls: nat, pos: nat, l: nat): (r: seq<Question>)
    ensures |r| == 3 && forall i :: 0 <= i < 3 ==> r[i] == ShortLength(repeated, cls, pos, High(l, 3)[..i])
  {
    seq(3, i requires 0 <= i < 3 => ShortLength(repeated, cls, pos, High(l, 3)[..i]))
  }

  function LongQuestions(repeated: bool, l: nat): (r: seq<Question>)
    ensures |r| == 8 && forall i :: 0 <= i < 8 ==> r[i] == LongLength(repeated, High(l, 8)[..i])
  {
    seq(8, i requires 0 <= i < 8 => LongLength(repeated, High(l, 8)[..i]))
  }

  function LengthQuestions(repeated: bool, l: nat, pos: nat): seq<Question> {
    if l < 8 then [LengthClass(repeated, 0)] + ShortQuestions(repeated, 0, pos, l)
    else
      [LengthClass(repeated, 0), LengthClass(repeated, 1)] +
      if l < 16 then ShortQuestions(repeated, 1, pos, l - 8) else LongQuestions(repeated, l - 16)
  }

  function SlotQuestions(length: nat, slot: nat): (r: seq<Question>)
    ensures |r| == 6
    ensures forall i :: 0 <= i < 6 ==> r[i] == SlotBit(if length < 4 then length else 3, High(slot, 6)[..i])
  {
    seq(6, i requires 0 <= i < 6 => SlotBit(if length < 4 then length else 3, High(slot, 6)[..i]))
  }

  function SmallSlotQuestions(slot: nat, rest: nat, n: nat): (r: seq<Option<Question>>)
    ensures |r| == n && forall i :: 0 <= i < n ==> r[i] == Some(OpenBit(slot, Low(rest, n)[..i]))
  {
    seq(n, i requires 0 <= i < n => Some(OpenBit(slot, Low(rest, n)[..i])))
  }

  function LowestQuestions(v: nat): (r: seq<Option<Question>>)
    ensures |r| == 4 && forall i :: 0 <= i < 4 ==> r[i] == Some(LowestBit(Low(v, 4)[..i]))
  {
    seq(4, i requires 0 <= i < 4 => Some(LowestBit(Low(v, 4)[..i])))
  }

  /** None for decisions with even odds. */
  function OpenQuestions(slot: nat, rest: nat): seq<Option<Question>> {
    if slot < 4 then []
    else if slot < 14 then SmallSlotQuestions(slot, rest, slot / 2 - 1)
    else seq(slot / 2 - 5, _ => None) + LowestQuestions(rest % 16)
  }

  /** The byte that would be copied next guides a literal behind a copy, as long as both agree. */
  function LiteralQuestion(t: Table, guide: Option<byte>, b: byte, i: nat): Question
    requires i < 8
  {
    if guide.Some? && High(guide.value, 8)[..i] == High(b, 8)[..i] then
      GuidedBit(t, High(guide.value, 8)[i], High(b, 8)[..i])
    else PlainBit(t, High(b, 8)[..i])
  }

  function LiteralQuestions(t: Table, guide: Option<byte>, b: byte): seq<Question> {
    seq(8, i requires 0 <= i < 8 => LiteralQuestion(t, guide, b, i))
  }

  function Asked(qs: seq<Question>): (r: seq<Option<Question>>)
    ensures |r| == |qs|
  {
    seq(|qs|, i requires 0 <= i < |qs| => Some(qs[i]))
  }

  function Quotient(v: nat, d: nat): nat
    requires d > 0
  {
    v / d
  }

  function TableOf(m: Machine, p: Properties): Table
    requires p.lc <= 8
  {
    Table(|m.out| % Power(p.lp), Quotient(LastByte(m), Power(8 - p.lc)))
  }

  function NextCopied(m: Machine): Option<byte>
    requires Sound(m)
  {
    if m.state >= 7 then Some(m.out[|m.out| - m.rep0]) else None
  }

  /** All questions that an operation answers, in order; `slot` and `rest` are those of its distance. */
  function Questions(op: Op, m: Machine, p: Properties): seq<Option<Question>>
    requires Sound(m) && WellFormed(op) && p.lc <= 8
  {
    var pos := |m.out| % Power(p.pb);
    Asked(KindQuestions(op, m.state, pos)) +
    match op
    case Literal(b) => Asked(LiteralQuestions(TableOf(m, p), NextCopied(m), b))
    case Match(distance, length) =>
      Asked(LengthQuestions(false, length - 2, pos)) +
      (Asked(SlotQuestions(length - 2, Slot(distance - 1))) + OpenQuestions(Slot(distance - 1), Rest(distance - 1)))
    case ShortRep => []
    case Rep(_, length) => Asked(LengthQuestions(true, length - 2, pos))
  }

  // ----- Where the answer to a question is modelled -----

  /** The node that a path leads to. */
  function NodeOf(path: seq<Bit>): (n: nat)
    ensures n >= 1
  {
    if path == [] then 1 else 2 * NodeOf(path[..|path| - 1]) + path[|path| - 1]
  }

  function LengthBase(repeated: bool): nat {
    if repeated then 1332 else 818
  }

  function TableStart(t: Table, p: Properties): nat {
    1846 + 768 * (t.position * Power(p.lc) + t.lead)
  }

  function IndexOf(q: Question, p: Properties): int {
    match q
    case IsCopy(s, pos) => 16 * s + pos
    case IsRepeated(s) => 192 + s
    case IsOlder(s) => 204 + s
    case IsOlderStill(s) => 216 + s
    case IsOldest(s) => 228 + s
    case IsLong(s, pos) => 240 + 16 * s + pos
    case LengthClass(repeated, cls) => LengthBase(repeated) + cls
    case ShortLength(repeated, cls, pos, path) =>
      LengthBase(repeated) + 2 + 128 * cls + 8 * pos + NodeOf(path)
    case LongLength(repeated, path) => LengthBase(repeated) + 258 + NodeOf(path)
    case SlotBit(length, path) => 432 + 64 * length + NodeOf(path)
    case OpenBit(slot, path) =>
      if slot < 4 then 0 else 688 + (2 + slot % 2) * Power(slot / 2 - 1) - slot - 1 + NodeOf(path)
    case LowestBit(path) => 802 + NodeOf(path)
    case PlainBit(t, path) => TableStart(t, p) + NodeOf(path)
    case GuidedBit(t, guide, path) => TableStart(t, p) + 256 + 256 * guide + NodeOf(path)
  }

  /** The decision that gives this answer. */
  function DecisionOf(q: Option<Question>, bit: Bit, p: Properties): Decision {
    if q.None? then Direct(bit)
    else var index := IndexOf(q.value, p); Modelled(if index < 0 then 0 else index, bit)
  }

  /** A code answers questions, one decision each. */
  ghost predicate Gives(code: seq<Decision>, qs: seq<Option<Question>>, p: Properties) {
    |code| == |qs| && forall k :: 0 <= k < |code| ==> code[k] == DecisionOf(qs[k], code[k].bit, p)
  }

  lemma GivesBoth(a: seq<Decision>, qs: seq<Option<Question>>, b: seq<Decision>, rs: seq<Option<Question>>,
                  p: Properties)
    requires Gives(a, qs, p) && Gives(b, rs, p)
    ensures Gives(a + b, qs + rs, p)
  {
    hide DecisionOf;
  }

  // ----- Trees -----

  lemma NodeStep(path: seq<Bit>, b: Bit)
    ensures NodeOf([]) == 1 && NodeOf(path + [b]) == 2 * NodeOf(path) + b
  {
    assert (path + [b])[..|path|] == path;
  }

  lemma {:induction false} NodeOfHigh(v: nat, n: nat)
    requires v < Power(n)
    ensures NodeOf(High(v, n)) == Power(n) + v
  {
    hide High, NodeOf;
    NodeStep([], 0);
    if n == 0 {
      assert High(v, 0) == [];
    } else {
      NodeOfHigh(v / 2, n - 1);
      HighStep(v, n - 1);
      NodeStep(High(v / 2, n - 1), v % 2);
    }
  }

  lemma {:induction false} NodeOfLow(v: nat, n: nat)
    ensures NodeOf(Low(v, n)) == Mirror(v, n)
  {
    hide Low, NodeOf, BitOf;
    NodeStep([], 0);
    if n == 0 {
      assert Low(v, 0) == [];
    } else {
      NodeOfLow(v, n - 1);
      LowStep(v, n - 1);
      BitOfAt(v, n - 1);
      NodeStep(Low(v, n - 1), v / Power(n - 1) % 2);
    }
  }

  /** A path through a tree asks at each node for the next bit. */
  ghost predicate AsksAlong(code: seq<Decision>, base: int, bits: seq<Bit>) {
    && |code| == |bits|
    && forall i :: 0 <= i < |bits| ==>
         base + NodeOf(bits[..i]) >= 0 && code[i] == Modelled(base + NodeOf(bits[..i]), bits[i])
  }

  lemma AsksOneMore(code: seq<Decision>, base: int, bits: seq<Bit>, b: Bit)
    requires AsksAlong(code, base, bits) && base + NodeOf(bits) >= 0
    ensures AsksAlong(code + [Modelled(base + NodeOf(bits), b)], base, bits + [b])
  {
    hide NodeOf;
    var bits' := bits + [b];
    forall i | 0 <= i < |bits'| ensures bits'[..i] == bits[..i] {
    }
    assert bits[..|bits|] == bits;
  }

  lemma PathStep(base: nat, v: nat, n: nat)
    ensures n == 0 && v < Power(n) ==> Path(base, Power(n) + v) == [] && High(v, n) == []
    ensures n > 0 ==> Path(base, Power(n) + v) ==
                      Path(base, Power(n - 1) + v / 2) + [Modelled(base + (Power(n - 1) + v / 2), v % 2)]
    ensures n > 0 && v < Power(n) ==> v / 2 < Power(n - 1)
  {
    hide High;
    if n == 0 {
      PowerZero();
    } else {
      PowerAt(n - 1);
      hide Power;
      assert (Power(n) + v) / 2 == Power(n - 1) + v / 2 && (Power(n) + v) % 2 == v % 2;
    }
  }

  lemma {:induction false} PathAsks(base: nat, v: nat, n: nat)
    requires v < Power(n)
    ensures AsksAlong(Path(base, Power(n) + v), base, High(v, n))
  {
    hide *;
    PathStep(base, v, n);
    if n == 0 {
      AsksNothing(base);
    } else {
      PathAsks(base, v / 2, n - 1);
      NodeOfHigh(v / 2, n - 1);
      HighStep(v, n - 1);
      AsksOneMore(Path(base, Power(n - 1) + v / 2), base, High(v / 2, n - 1), v % 2);
    }
  }

  lemma AsksNothing(base: int)
    ensures AsksAlong([], base, [])
  {
  }

  lemma {:induction false} ReverseAsks(base: nat, v: nat, n: nat)
    ensures AsksAlong(ReversePath(base, v, n), base, Low(v, n))
  {
    hide Low, AsksAlong, BitOf, NodeOf;
    if n == 0 {
      AsksNothing(base);
      assert Low(v, 0) == [];
    } else {
      ReverseAsks(base, v, n - 1);
      NodeOfLow(v, n - 1);
      BitOfAt(v, n - 1);
      LowStep(v, n - 1);
      AsksOneMore(ReversePath(base, v, n - 1), base, Low(v, n - 1), BitOf(v, n - 1));
    }
  }

  // ----- The parts of an operation -----

  lemma KindGives(op: Op, m: Machine, pos: nat, p: Properties)
    requires WellFormed(op)
    ensures Gives(KindBits(op, m, pos), Asked(KindQuestions(op, m.state, pos)), p)
  {
    hide NodeOf, Power, LengthBase, TableStart, DecisionOf;
    KindIndices(m.state, pos, 0, p);
    KindIndices(m.state, pos, 1, p);
  }

  lemma KindIndices(s: nat, pos: nat, bit: Bit, p: Properties)
    ensures DecisionOf(Some(IsCopy(s, pos)), bit, p) == Modelled(16 * s + pos, bit)
    ensures DecisionOf(Some(IsRepeated(s)), bit, p) == Modelled(192 + s, bit)
    ensures DecisionOf(Some(IsOlder(s)), bit, p) == Modelled(204 + s, bit)
    ensures DecisionOf(Some(IsOlderStill(s)), bit, p) == Modelled(216 + s, bit)
    ensures DecisionOf(Some(IsOldest(s)), bit, p) == Modelled(228 + s, bit)
    ensures DecisionOf(Some(IsLong(s, pos)), bit, p) == Modelled(240 + 16 * s + pos, bit)
  {
    hide NodeOf, Power, LengthBase, TableStart;
  }

  /** A code that asks along a path gives what is modelled at the nodes of that path. */
  lemma AlongGives(code: seq<Decision>, base: nat, bits: seq<Bit>, qs: seq<Option<Question>>, p: Properties)
    requires AsksAlong(code, base, bits) && |qs| == |bits|
    requires forall i :: 0 <= i < |qs| ==> qs[i].Some? && IndexOf(qs[i].value, p) == base + NodeOf(bits[..i])
    ensures Gives(code, qs, p)
  {
    hide IndexOf, NodeOf;
  }

  lemma ShortGives(repeated: bool, cls: nat, pos: nat, l: nat, p: Properties)
    requires l < 8 && cls < 2
    ensures var base := LengthBase(repeated) + 2 + 128 * cls + 8 * pos;
            Gives(Path(base, 8 + l), Asked(ShortQuestions(repeated, cls, pos, l)), p)
  {
    hide High, Path, NodeOf, Power, AsksAlong, Gives, LengthBase;
    var base := LengthBase(repeated) + 2 + 128 * cls + 8 * pos;
    SmallPowers();
    PathAsks(base, l, 3);
    AlongGives(Path(base, 8 + l), base, High(l, 3), Asked(ShortQuestions(repeated, cls, pos, l)), p);
  }

  lemma LongGives(repeated: bool, l: nat, p: Properties)
    requires l < 256
    ensures Gives(Path(LengthBase(repeated) + 258, 256 + l), Asked(LongQuestions(repeated, l)), p)
  {
    hide High, Path, NodeOf, Power, AsksAlong, Gives, LengthBase;
    var base := LengthBase(repeated) + 258;
    SmallPowers();
    PathAsks(base, l, 8);
    AlongGives(Path(base, 256 + l), base, High(l, 8), Asked(LongQuestions(repeated, l)), p);
  }

  lemma AskedBoth(a: seq<Question>, b: seq<Question>)
    ensures Asked(a + b) == Asked(a) + Asked(b)
  {
  }

  lemma ClassGives(repeated: bool, long: bool, p: Properties)
    ensures Gives([Modelled(LengthBase(repeated), if long then 1 else 0)], Asked([LengthClass(repeated, 0)]), p)
    ensures Gives([Modelled(LengthBase(repeated), 1), Modelled(LengthBase(repeated) + 1, if long then 1 else 0)],
                  Asked([LengthClass(repeated, 0), LengthClass(repeated, 1)]), p)
  {
  }

  lemma LengthGives(repeated: bool, l: nat, pos: nat, p: Properties)
    requires l < 272
    ensures Gives(LengthCode(LengthBase(repeated), l, pos), Asked(LengthQuestions(repeated, l, pos)), p)
  {
    hide High, Path, Gives, Asked, LengthBase;
    ClassGives(repeated, l >= 16, p);
    ClassGives(repeated, l >= 8, p);
    var base := LengthBase(repeated);
    if l < 8 {
      ShortGives(repeated, 0, pos, l, p);
      var qs := ShortQuestions(repeated, 0, pos, l);
      AskedBoth([LengthClass(repeated, 0)], qs);
      GivesBoth([Modelled(base, 0)], Asked([LengthClass(repeated, 0)]), Path(base + 2 + 8 * pos, 8 + l), Asked(qs), p);
    } else {
      var front := [LengthClass(repeated, 0), LengthClass(repeated, 1)];
      if l < 16 {
        ShortGives(repeated, 1, pos, l - 8, p);
        var qs := ShortQuestions(repeated, 1, pos, l - 8);
        AskedBoth(front, qs);
        GivesBoth([Modelled(base, 1), Modelled(base + 1, 0)], Asked(front), Path(base + 130 + 8 * pos, l), Asked(qs),
                  p);
      } else {
        LongGives(repeated, l - 16, p);
        var qs := LongQuestions(repeated, l - 16);
        AskedBoth(front, qs);
        GivesBoth([Modelled(base, 1), Modelled(base + 1, 1)], Asked(front), Path(base + 258, 240 + l), Asked(qs), p);
      }
    }
  }

  lemma SlotGives(length: nat, slot: nat, p: Properties)
    requires slot < 64
    ensures Gives(Path(SlotTree(length), 64 + slot), Asked(SlotQuestions(length, slot)), p)
  {
    hide High, Path, NodeOf, Power, AsksAlong, Gives;
    SmallPowers();
    PathAsks(SlotTree(length), slot, 6);
    var base, qs := SlotTree(length), Asked(SlotQuestions(length, slot));
    AlongGives(Path(base, 64 + slot), base, High(slot, 6), qs, p);
  }

  lemma OpenGives(slot: nat, rest: nat, p: Properties)
    requires slot < 64
    ensures Gives(OpenBits(slot, rest), OpenQuestions(slot, rest), p)
  {
    hide ReversePath, Directs, SlotBase, Gives, Low;
    if 4 <= slot < 14 {
      SmallSlotGives(slot, rest, p);
    } else if slot >= 14 {
      var n := slot / 2 - 1;
      DirectsGive(rest / 16, n - 4, p);
      LowestGives(rest % 16, p);
      GivesBoth(Directs(rest / 16, n - 4), seq(n - 4, _ => None), ReversePath(ALIGN, rest % 16, 4),
                LowestQuestions(rest % 16), p);
    } else {
      assert Gives([], [], p) by {
        NothingGives(p);
      }
    }
  }

  lemma NothingGives(p: Properties)
    ensures Gives([], [], p)
  {
  }

  lemma SmallSlotGives(slot: nat, rest: nat, p: Properties)
    requires 4 <= slot < 14
    ensures var n := slot / 2 - 1;
            Gives(ReversePath(SPEC_POS + SlotBase(slot) - slot - 1, rest, n), SmallSlotQuestions(slot, rest, n), p)
  {
    hide ReversePath, SlotBase, Low, NodeOf, Power, AsksAlong, Gives;
    var base, n := SPEC_POS + SlotBase(slot) - slot - 1, slot / 2 - 1;
    SlotBaseCovers(slot);
    ReverseAsks(base, rest, n);
    AlongGives(ReversePath(base, rest, n), base, Low(rest, n), SmallSlotQuestions(slot, rest, n), p);
  }

  lemma LowestGives(v: nat, p: Properties)
    ensures Gives(ReversePath(ALIGN, v, 4), LowestQuestions(v), p)
  {
    hide ReversePath, Low, NodeOf, AsksAlong, Gives;
    ReverseAsks(ALIGN, v, 4);
    AlongGives(ReversePath(ALIGN, v, 4), ALIGN, Low(v, 4), LowestQuestions(v), p);
  }

  lemma {:induction false} DirectsGive(v: nat, n: nat, p: Properties)
    ensures Gives(Directs(v, n), seq(n, _ => None), p)
  {
    if n > 0 {
      DirectsGive(v / 2, n - 1, p);
    }
  }

  /** The index of a literal's decision, by table, guide and what has been answered. */
  function LiteralIndex(base: nat, guide: Option<nat>, v: nat, n: nat, i: nat): nat
    requires i < n
  {
    var node := NodeOf(High(v, n)[..i]);
    if guide.Some? && High(guide.value, n)[..i] == High(v, n)[..i] then
      var bit: nat := High(guide.value, n)[i];
      base + 256 + 256 * bit + node
    else base + node
  }

  ghost predicate AsksGuided(code: seq<Decision>, base: nat, guide: Option<nat>, v: nat, n: nat) {
    |code| == n && forall i :: 0 <= i < n ==> code[i] == Modelled(LiteralIndex(base, guide, v, n, i), High(v, n)[i])
  }

  function GuideNode(guide: Option<nat>, n: nat): nat {
    if guide.Some? then Power(n) + guide.value else 0
  }

  lemma HalfBelow(v: nat, n: nat)
    requires n > 0 && v < Power(n)
    ensures v / 2 < Power(n - 1) && (Power(n) + v) / 2 == Power(n - 1) + v / 2 && (Power(n) + v) % 2 == v % 2
    ensures Power(n) + v > 1
  {
    PowerAt(n - 1);
    hide Power;
  }

  lemma GuidedUnfolds(base: nat, g: nat, node: nat)
    requires node > 1
    ensures var half := node / 2;
            var index := if g / 2 == half then base + 256 + g % 2 * 256 + half else base + half;
            GuidedPath(base, g, node) == GuidedPath(base, g / 2, half) + [Modelled(index, node % 2)]
  {
  }

  lemma HalfGuide(guide: Option<nat>, n: nat)
    requires n > 0 && (guide.Some? ==> guide.value < Power(n))
    ensures var half := if guide.Some? then Some(guide.value / 2) else None;
            (half.Some? ==> half.value < Power(n - 1)) && GuideNode(guide, n) / 2 == GuideNode(half, n - 1)
  {
    hide Power;
    if guide.Some? {
      HalfBelow(guide.value, n);
    }
  }

  lemma GuidedStep(base: nat, guide: Option<nat>, v: nat, n: nat)
    requires n > 0 && v < Power(n) && (guide.Some? ==> guide.value < Power(n))
    ensures var half := if guide.Some? then Some(guide.value / 2) else None;
            && v / 2 < Power(n - 1) && (half.Some? ==> half.value < Power(n - 1))
            && GuidedPath(base, GuideNode(guide, n), Power(n) + v) ==
               GuidedPath(base, GuideNode(half, n - 1), Power(n - 1) + v / 2) +
               [Modelled(LiteralIndex(base, guide, v, n, n - 1), High(v, n)[n - 1])]
  {
    hide *;
    HalfBelow(v, n);
    HalfGuide(guide, n);
    GuidedLast(base, guide, v, n);
    GuidedUnfolds(base, GuideNode(guide, n), Power(n) + v);
  }

  lemma {:induction false} GuidedAsks(base: nat, guide: Option<nat>, v: nat, n: nat)
    requires v < Power(n) && (guide.Some? ==> guide.value < Power(n))
    ensures AsksGuided(GuidedPath(base, GuideNode(guide, n), Power(n) + v), base, guide, v, n)
    decreases n
  {
    hide *;
    if n == 0 {
      NothingGuided(base, guide, v);
    } else {
      var half := if guide.Some? then Some(guide.value / 2) else None;
      GuidedStep(base, guide, v, n);
      GuidedAsks(base, half, v / 2, n - 1);
      GuidedMore(GuidedPath(base, GuideNode(half, n - 1), Power(n - 1) + v / 2), base, guide, v, n);
    }
  }

  lemma NothingGuided(base: nat, guide: Option<nat>, v: nat)
    requires v < Power(0)
    ensures AsksGuided(GuidedPath(base, GuideNode(guide, 0), Power(0) + v), base, guide, v, 0)
  {
    assert GuidedPath(base, GuideNode(guide, 0), Power(0) + v) == [];
  }

  /** The last question of a longer literal. */
  /** The last bit, and the node that it is asked at. */
  lemma LastOfHigh(v: nat, n: nat)
    requires n > 0 && v < Power(n)
    ensures High(v, n)[..n - 1] == High(v / 2, n - 1) && High(v, n)[n - 1] == v % 2
    ensures NodeOf(High(v / 2, n - 1)) == Power(n - 1) + v / 2
    ensures (Power(n) + v) / 2 == Power(n - 1) + v / 2 && (Power(n) + v) % 2 == v % 2
  {
    PowerAt(n - 1);
    hide Power, High, NodeOf;
    HighStep(v, n - 1);
    NodeOfHigh(v / 2, n - 1);
  }

  /** The last question of a longer literal. */
  lemma GuidedLast(base: nat, guide: Option<nat>, v: nat, n: nat)
    requires n > 0 && v < Power(n) && (guide.Some? ==> guide.value < Power(n))
    ensures var before, g := Power(n - 1) + v / 2, GuideNode(guide, n);
            LiteralIndex(base, guide, v, n, n - 1) ==
            if g / 2 == before then base + 256 + g % 2 * 256 + before else base + before
    ensures High(v, n)[n - 1] == v % 2
  {
    hide Power, High, NodeOf;
    LastOfHigh(v, n);
    if guide.Some? {
      LastOfHigh(guide.value, n);
    }
  }

  /** The questions before it are those of the shorter one. */
  lemma GuidedMore(code: seq<Decision>, base: nat, guide: Option<nat>, v: nat, n: nat)
    requires n > 0
    requires AsksGuided(code, base, if guide.Some? then Some(guide.value / 2) else None, v / 2, n - 1)
    ensures AsksGuided(code + [Modelled(LiteralIndex(base, guide, v, n, n - 1), High(v, n)[n - 1])], base, guide, v, n)
  {
    hide High, NodeOf;
    var half := if guide.Some? then Some(guide.value / 2) else None;
    HighStep(v, n - 1);
    if guide.Some? {
      HighStep(guide.value, n - 1);
    }
    forall i | 0 <= i < n - 1
      ensures LiteralIndex(base, guide, v, n, i) == LiteralIndex(base, half, v / 2, n - 1, i)
      ensures High(v, n)[i] == High(v / 2, n - 1)[i]
    {
      assert High(v, n)[..i] == High(v / 2, n - 1)[..i];
      if guide.Some? {
        assert High(guide.value, n)[..i] == High(guide.value / 2, n - 1)[..i];
      }
    }
    hide LiteralIndex;
  }

  lemma LiteralGives(m: Machine, b: byte, p: Properties)
    requires Sound(m) && p.lc <= 8
    ensures Gives(GuidedPath(LiteralTree(m, p), Guide(m), 0x100 + b),
                  Asked(LiteralQuestions(TableOf(m, p), NextCopied(m), b)), p)
  {
    hide GuidedPath, LiteralTree, Power, TableOf, AsksGuided, LiteralQuestions, Gives, Asked;
    var next := NextCopied(m);
    var guide: Option<nat> := if next.Some? then Some(next.value) else None;
    SmallPowers();
    TreeIsTable(m, p);
    GuidedAsks(LiteralTree(m, p), guide, b, 8);
    assert GuideNode(guide, 8) == Guide(m);
    BitsGive(GuidedPath(LiteralTree(m, p), Guide(m), 0x100 + b), TableOf(m, p), next, b, p);
  }

  lemma BitsGive(code: seq<Decision>, t: Table, next: Option<byte>, b: byte, p: Properties)
    requires AsksGuided(code, TableStart(t, p), if next.Some? then Some(next.value) else None, b, 8)
    ensures Gives(code, Asked(LiteralQuestions(t, next, b)), p)
  {
    hide LiteralQuestion, DecisionOf, LiteralIndex, High;
    forall i | 0 <= i < 8
      ensures code[i] == DecisionOf(Some(LiteralQuestion(t, next, b, i)), code[i].bit, p)
    {
      BitGives(t, next, b, i, High(b, 8)[i], p);
    }
  }

  lemma BitGives(t: Table, next: Option<byte>, b: byte, i: nat, bit: Bit, p: Properties)
    requires i < 8
    ensures var guide: Option<nat> := if next.Some? then Some(next.value) else None;
            DecisionOf(Some(LiteralQuestion(t, next, b, i)), bit, p) ==
            Modelled(LiteralIndex(TableStart(t, p), guide, b, 8, i), bit)
  {
    hide High, NodeOf, TableStart;
  }

  lemma TreeIsTable(m: Machine, p: Properties)
    requires Sound(m) && p.lc <= 8
    ensures LiteralTree(m, p) == TableStart(TableOf(m, p), p)
  {
    hide Power, Leading, Shifted;
    ShiftedIsProduct(|m.out| % Power(p.lp), p.lc);
    LeadingIsQuotient(LastByte(m), 8 - p.lc);
  }

  // ----- All decisions -----

  lemma CodeGives(op: Op, m: Machine, p: Properties)
    requires Sound(m) && WellFormed(op) && p.lc <= 8
    ensures Gives(Code(op, m, p), Questions(op, m, p), p)
  {
    hide Gives, Asked, KindBits, KindQuestions, LengthCode, LengthQuestions, Path, SlotQuestions, OpenBits;
    hide OpenQuestions, GuidedPath, LiteralQuestions, LiteralTree, TableOf, NextCopied, Guide, Power, Slot, Rest;
    var pos := |m.out| % Power(p.pb);
    KindGives(op, m, pos, p);
    match op
    case Literal(b) =>
      LiteralGives(m, b, p);
      GivesBoth(KindBits(op, m, pos), Asked(KindQuestions(op, m.state, pos)),
                GuidedPath(LiteralTree(m, p), Guide(m), 0x100 + b),
                Asked(LiteralQuestions(TableOf(m, p), NextCopied(m), b)), p);
    case Match(distance, length) =>
      var slot, rest := Slot(distance - 1), Rest(distance - 1);
      SlotSize(distance - 1);
      LengthGives(false, length - 2, pos, p);
      SlotGives(length - 2, slot, p);
      OpenGives(slot, rest, p);
      GivesBoth(Path(SlotTree(length - 2), 64 + slot), Asked(SlotQuestions(length - 2, slot)), OpenBits(slot, rest),
                OpenQuestions(slot, rest), p);
      GivesBoth(LengthCode(LEN_CODER, length - 2, pos), Asked(LengthQuestions(false, length - 2, pos)),
                DistanceCode(distance - 1, length - 2),
                Asked(SlotQuestions(length - 2, slot)) + OpenQuestions(slot, rest), p);
      GivesBoth(KindBits(op, m, pos), Asked(KindQuestions(op, m.state, pos)), Body(op, m, p),
                Asked(LengthQuestions(false, length - 2, pos)) +
                (Asked(SlotQuestions(length - 2, slot)) + OpenQuestions(slot, rest)), p);
    case ShortRep =>
      NothingGives(p);
      GivesBoth(KindBits(op, m, pos), Asked(KindQuestions(op, m.state, pos)), [], [], p);
    case Rep(_, length) =>
      LengthGives(true, length - 2, pos, p);
      GivesBoth(KindBits(op, m, pos), Asked(KindQuestions(op, m.state, pos)),
                LengthCode(REP_LEN_CODER, length - 2, pos), Asked(LengthQuestions(true, length - 2, pos)), p);
  }

  // ----- Every question has its own place -----

  predicate Proper(q: Question, p: Properties) {
    match q
    case IsCopy(s, pos) => s < 12 && pos < 16
    case IsRepeated(s) => s < 12
    case IsOlder(s) => s < 12
    case IsOlderStill(s) => s < 12
    case IsOldest(s) => s < 12
    case IsLong(s, pos) => s < 12 && pos < 16
    case LengthClass(_, cls) => cls < 2
    case ShortLength(_, cls, pos, path) => cls < 2 && pos < 16 && |path| < 3
    case LongLength(_, path) => |path| < 8
    case SlotBit(length, path) => length < 4 && |path| < 6
    case OpenBit(slot, path) => 4 <= slot < 14 && |path| < slot / 2 - 1
    case LowestBit(path) => |path| < 4
    case PlainBit(t, path) => t.lead < Power(p.lc) && |path| < 8
    case GuidedBit(t, _, path) => t.lead < Power(p.lc) && |path| < 8
  }

  lemma {:induction false} NodeBound(path: seq<Bit>, n: nat)
    requires |path| < n
    ensures NodeOf(path) < Power(n)
    decreases |path|
  {
    if path == [] {
      PowerGrows(1, n);
      SmallPowers();
    } else {
      NodeBound(path[..|path| - 1], n - 1);
    }
  }

  lemma {:induction false} NodeUnique(a: seq<Bit>, b: seq<Bit>)
    requires NodeOf(a) == NodeOf(b)
    ensures a == b
    decreases |a|
  {
    if a != [] && b != [] {
      var x, y := a[..|a| - 1], b[..|b| - 1];
      assert a == x + [a[|a| - 1]] && b == y + [b[|b| - 1]];
      NodeUnique(x, y);
    }
  }

  /** The parts of the table of probabilities. */
  const PARTS: seq<nat> := [0, 192, 204, 216, 228, 240, 432, 688, 802, 818, 1332, 1846]

  function PartOf(q: Question): (k: nat)
    ensures k < 12
  {
    match q
    case IsCopy(_, _) => 0
    case IsRepeated(_) => 1
    case IsOlder(_) => 2
    case IsOlderStill(_) => 3
    case IsOldest(_) => 4
    case IsLong(_, _) => 5
    case SlotBit(_, _) => 6
    case OpenBit(_, _) => 7
    case LowestBit(_) => 8
    case LengthClass(repeated, _) => if repeated then 10 else 9
    case ShortLength(repeated, _, _, _) => if repeated then 10 else 9
    case LongLength(repeated, _) => if repeated then 10 else 9
    case PlainBit(_, _) => 11
    case GuidedBit(_, _, _) => 11
  }

  function PathOf(q: Question): seq<Bit> {
    match q
    case ShortLength(_, _, _, path) => path
    case LongLength(_, path) => path
    case SlotBit(_, path) => path
    case OpenBit(_, path) => path
    case LowestBit(path) => path
    case PlainBit(_, path) => path
    case GuidedBit(_, _, path) => path
    case _ => []
  }

  /** How far the nodes of a question's path reach. */
  lemma PathBound(q: Question, p: Properties)
    requires Proper(q, p)
    ensures var n := NodeOf(PathOf(q));
            && 1 <= n < 256
            && (q.ShortLength? ==> n < 8) && (q.SlotBit? ==> n < 64) && (q.LowestBit? ==> n < 16)
            && (q.OpenBit? ==> n < Power(q.slot / 2 - 1))
  {
    hide Power, NodeOf;
    SmallPowers();
    NodeBound(PathOf(q), 8);
    if q.ShortLength? {
      NodeBound(q.path, 3);
    } else if q.SlotBit? {
      NodeBound(q.path, 6);
    } else if q.LowestBit? {
      NodeBound(q.path, 4);
    } else if q.OpenBit? {
      NodeBound(q.path, q.slot / 2 - 1);
    }
  }

  /** The small slots lie one behind the other. */
  function SlotEnds(): seq<nat> {
    [688, 689, 690, 693, 696, 703, 710, 725, 740, 771, 802]
  }

  lemma SlotPlace(slot: nat)
    requires 4 <= slot < 14
    ensures var from, n := 688 + (2 + slot % 2) * Power(slot / 2 - 1) - slot - 1, Power(slot / 2 - 1);
            from + 1 == SlotEnds()[slot - 4] && from + n == SlotEnds()[slot - 3]
  {
    SmallPowers();
    PowerAt(1);
    PowerAt(4);
    hide Power;
  }

  lemma InPart(q: Question, p: Properties)
    requires Proper(q, p)
    ensures PARTS[PartOf(q)] <= IndexOf(q, p) && (PartOf(q) < 11 ==> IndexOf(q, p) < PARTS[PartOf(q) + 1])
  {
    hide Power, NodeOf, IndexOf, PartOf, Proper, PARTS;
    if PartOf(q) == 11 {
      InLastPart(q, p);
    } else if PartOf(q) in {9, 10} {
      InLengthPart(q, p);
    } else if PartOf(q) in {6, 7, 8} {
      InDistancePart(q, p);
    } else {
      InKindPart(q, p);
    }
  }

  lemma InKindPart(q: Question, p: Properties)
    requires Proper(q, p) && PartOf(q) < 6
    ensures PARTS[PartOf(q)] <= IndexOf(q, p) < PARTS[PartOf(q) + 1]
  {
    hide Power, NodeOf;
  }

  lemma InDistancePart(q: Question, p: Properties)
    requires Proper(q, p) && PartOf(q) in {6, 7, 8}
    ensures PARTS[PartOf(q)] <= IndexOf(q, p) < PARTS[PartOf(q) + 1]
  {
    hide Power, NodeOf;
    PathBound(q, p);
    if q.OpenBit? {
      SlotIndex(q, p);
    }
  }

  lemma InLengthPart(q: Question, p: Properties)
    requires Proper(q, p) && PartOf(q) in {9, 10}
    ensures PARTS[PartOf(q)] <= IndexOf(q, p) < PARTS[PartOf(q) + 1]
  {
    hide Power, NodeOf, IndexOf;
    LengthIndex(q, p);
    PathBound(q, p);
  }

  lemma InLastPart(q: Question, p: Properties)
    requires Proper(q, p) && PartOf(q) == 11
    ensures PARTS[11] <= IndexOf(q, p)
  {
    hide Power, NodeOf, IndexOf, PartOf, Proper;
    LiteralIs(q, p);
    Nonnegative(q.table.position, Power(p.lc));
  }

  lemma SamePart(i: nat, j: nat, index: int)
    requires i < 12 && j < 12 && PARTS[i] <= index && PARTS[j] <= index
    requires (i < 11 ==> index < PARTS[i + 1]) && (j < 11 ==> index < PARTS[j + 1])
    ensures i == j
  {
    if i < j {
      PartsGrow(i + 1, j);
    } else if j < i {
      PartsGrow(j + 1, i);
    }
  }

  lemma PartsGrow(i: nat, j: nat)
    requires i <= j < 12
    ensures PARTS[i] <= PARTS[j]
  {
  }

  /** Plain questions stand first in a table, then those with either bit as the guide. */
  function BankOf(q: Question): nat {
    if q.GuidedBit? then 1 + q.guide else 0
  }

  lemma LiteralIs(q: Question, p: Properties)
    requires Proper(q, p) && PartOf(q) == 11
    ensures q.PlainBit? || q.GuidedBit?
    ensures IndexOf(q, p) ==
            1846 + 768 * (q.table.position * Power(p.lc) + q.table.lead) + 256 * BankOf(q) + NodeOf(q.path)
    ensures 1 <= NodeOf(q.path) < 256 && BankOf(q) < 3 && q.table.lead < Power(p.lc)
  {
    PathBound(q, p);
    hide Power, NodeOf;
  }

  lemma BanksApart(x: nat, a: nat, n: nat, y: nat, b: nat, m: nat)
    requires a < 3 && b < 3 && n < 256 && m < 256 && 768 * x + 256 * a + n == 768 * y + 256 * b + m
    ensures x == y && a == b && n == m
  {
  }

  /** Within the part of the literals. */
  lemma LiteralsApart(q: Question, r: Question, p: Properties)
    requires Proper(q, p) && Proper(r, p) && IndexOf(q, p) == IndexOf(r, p) && PartOf(q) == 11 == PartOf(r)
    ensures q == r
  {
    hide Power, NodeOf, IndexOf, Proper, PartOf;
    LiteralIs(q, p);
    LiteralIs(r, p);
    var s, t, n := q.table, r.table, Power(p.lc);
    BanksApart(s.position * n + s.lead, BankOf(q), NodeOf(q.path), t.position * n + t.lead, BankOf(r), NodeOf(r.path));
    DivModUnique(s.position * n + s.lead, n, s.position, s.lead);
    DivModUnique(s.position * n + s.lead, n, t.position, t.lead);
    NodeUnique(q.path, r.path);
  }

  /** Where a length coder has this question. */
  function LengthOffset(q: Question): nat {
    match q
    case ShortLength(_, cls, pos, path) => 2 + 128 * cls + 8 * pos + NodeOf(path)
    case LongLength(_, path) => 258 + NodeOf(path)
    case LengthClass(_, cls) => cls
    case _ => 0
  }

  lemma LengthIndex(q: Question, p: Properties)
    requires PartOf(q) in {9, 10}
    ensures q.LengthClass? || q.ShortLength? || q.LongLength?
    ensures IndexOf(q, p) == (if PartOf(q) == 10 then 1332 else 818) + LengthOffset(q)
    ensures q.repeated <==> PartOf(q) == 10
  {
    hide Power, NodeOf;
  }

  /** What the offset says. */
  lemma OffsetTells(q: Question, p: Properties)
    requires Proper(q, p) && (q.LengthClass? || q.ShortLength? || q.LongLength?)
    ensures var o := LengthOffset(q);
            && (q.LengthClass? <==> o < 2) && (q.LongLength? <==> o >= 259)
            && (q.ShortLength? ==>
                  o - 2 == 8 * (16 * q.cls + q.pos) + NodeOf(q.path) && 1 <= NodeOf(q.path) < 8 && q.pos < 16)
  {
    PathBound(q, p);
    hide Power, NodeOf;
  }

  lemma ShortsApart(a: nat, x: nat, n: nat, b: nat, y: nat, m: nat)
    requires x < 16 && y < 16 && n < 8 && m < 8 && 8 * (16 * a + x) + n == 8 * (16 * b + y) + m
    ensures a == b && x == y && n == m
  {
  }

  lemma LengthsApart(q: Question, r: Question, p: Properties)
    requires Proper(q, p) && Proper(r, p) && IndexOf(q, p) == IndexOf(r, p)
    requires PartOf(q) == PartOf(r) && PartOf(q) in {9, 10}
    ensures q == r
  {
    hide *;
    LengthIndex(q, p);
    LengthIndex(r, p);
    OffsetTells(q, p);
    OffsetTells(r, p);
    SameOffset(q, r, p);
  }

  lemma SameOffset(q: Question, r: Question, p: Properties)
    requires Proper(q, p) && Proper(r, p) && LengthOffset(q) == LengthOffset(r)
    requires (q.LengthClass? && r.LengthClass?) || (q.ShortLength? && r.ShortLength?) ||
             (q.LongLength? && r.LongLength?)
    requires q.repeated == r.repeated
    ensures q == r
  {
    hide Power, NodeOf, Proper;
    if q.ShortLength? {
      hide LengthOffset;
      OffsetTells(q, p);
      OffsetTells(r, p);
      ShortsApart(q.cls, q.pos, NodeOf(q.path), r.cls, r.pos, NodeOf(r.path));
      NodeUnique(q.path, r.path);
    } else if q.LongLength? {
      NodeUnique(q.path, r.path);
    }
  }

  lemma SlotIndex(q: Question, p: Properties)
    requires Proper(q, p) && q.OpenBit?
    ensures IndexOf(q, p) == SlotEnds()[q.slot - 4] - 1 + NodeOf(q.path)
    ensures SlotEnds()[q.slot - 4] <= IndexOf(q, p) < SlotEnds()[q.slot - 3]
  {
    hide Power, NodeOf;
    PathBound(q, p);
    SlotPlace(q.slot);
  }

  lemma SlotsApart(q: Question, r: Question, p: Properties)
    requires Proper(q, p) && Proper(r, p) && IndexOf(q, p) == IndexOf(r, p) && q.OpenBit? && r.OpenBit?
    ensures q == r
  {
    hide Power, NodeOf, IndexOf, SlotEnds;
    SlotIndex(q, p);
    SlotIndex(r, p);
    if q.slot == r.slot {
      NodeUnique(q.path, r.path);
    } else if q.slot < r.slot {
      SlotEndsGrow(q.slot - 3, r.slot - 4);
    } else {
      SlotEndsGrow(r.slot - 3, q.slot - 4);
    }
  }

  lemma SlotEndsGrow(i: nat, j: nat)
    requires i <= j < 11
    ensures SlotEnds()[i] <= SlotEnds()[j]
  {
  }

  /** No two questions share a probability. */
  lemma IndexUnique(q: Question, r: Question, p: Properties)
    requires Proper(q, p) && Proper(r, p) && IndexOf(q, p) == IndexOf(r, p)
    ensures q == r
  {
    InPart(q, p);
    InPart(r, p);
    SamePart(PartOf(q), PartOf(r), IndexOf(q, p));
    if PartOf(q) == 11 {
      LiteralsApart(q, r, p);
    } else if PartOf(q) in {9, 10} {
      LengthsApart(q, r, p);
    } else if PartOf(q) == 7 {
      SlotsApart(q, r, p);
    } else {
      OthersApart(q, r, p);
    }
  }

  lemma OthersApart(q: Question, r: Question, p: Properties)
    requires Proper(q, p) && Proper(r, p) && IndexOf(q, p) == IndexOf(r, p) && PartOf(q) == PartOf(r)
    requires PartOf(q) !in {7, 9, 10, 11}
    ensures q == r
  {
    PathBound(q, p);
    PathBound(r, p);
    hide Power, NodeOf;
    if NodeOf(PathOf(q)) == NodeOf(PathOf(r)) {
      NodeUnique(PathOf(q), PathOf(r));
    }
  }

  ghost predicate AllProper(qs: seq<Option<Question>>, p: Properties) {
    forall k :: 0 <= k < |qs| && qs[k].Some? ==> Proper(qs[k].value, p)
  }

  lemma BothProper(qs: seq<Option<Question>>, rs: seq<Option<Question>>, p: Properties)
    requires AllProper(qs, p) && AllProper(rs, p)
    ensures AllProper(qs + rs, p)
  {
    hide Proper;
  }

  lemma LengthProper(repeated: bool, l: nat, pos: nat, p: Properties)
    requires pos < 16
    ensures AllProper(Asked(LengthQuestions(repeated, l, pos)), p)
  {
    hide High;
    var qs := LengthQuestions(repeated, l, pos);
    forall k | 0 <= k < |qs| ensures Proper(qs[k], p) {
    }
  }

  lemma DistanceProper(length: nat, slot: nat, rest: nat, p: Properties)
    ensures AllProper(Asked(SlotQuestions(length, slot)), p) && AllProper(OpenQuestions(slot, rest), p)
  {
    hide High, Low;
  }

  lemma LiteralProper(t: Table, guide: Option<byte>, b: byte, p: Properties)
    requires t.lead < Power(p.lc)
    ensures AllProper(Asked(LiteralQuestions(t, guide, b)), p)
  {
    hide High, Power;
  }

  lemma KindProper(op: Op, s: nat, pos: nat, p: Properties)
    requires s < 12 && pos < 16 && WellFormed(op)
    ensures AllProper(Asked(KindQuestions(op, s, pos)), p) && AllProper([], p)
  {
  }

  lemma PositionSmall(v: nat, n: nat)
    requires n <= 4
    ensures v % Power(n) < 16
  {
    SmallPowers();
    PowerGrows(n, 4);
    hide Power;
  }

  lemma TableProper(m: Machine, p: Properties)
    requires ValidProperties(p)
    ensures TableOf(m, p).lead < Power(p.lc)
  {
    LeadingBits(LastByte(m), p.lc);
    hide Power, Leading;
  }

  lemma QuestionsProper(op: Op, m: Machine, p: Properties)
    requires Sound(m) && WellFormed(op) && ValidProperties(p)
    ensures AllProper(Questions(op, m, p), p)
  {
    hide AllProper, Asked, KindQuestions, LengthQuestions, SlotQuestions, OpenQuestions, LiteralQuestions, TableOf;
    hide NextCopied, Power, Slot, Rest;
    var pos := |m.out| % Power(p.pb);
    PositionSmall(|m.out|, p.pb);
    KindProper(op, m.state, pos, p);
    match op
    case Literal(b) =>
      TableProper(m, p);
      LiteralProper(TableOf(m, p), NextCopied(m), b, p);
      BothProper(Asked(KindQuestions(op, m.state, pos)), Asked(LiteralQuestions(TableOf(m, p), NextCopied(m), b)), p);
    case Match(distance, length) =>
      var slot, rest := Slot(distance - 1), Rest(distance - 1);
      LengthProper(false, length - 2, pos, p);
      DistanceProper(length - 2, slot, rest, p);
      var qs, rs := Asked(SlotQuestions(length - 2, slot)), OpenQuestions(slot, rest);
      BothProper(qs, rs, p);
      BothProper(Asked(LengthQuestions(false, length - 2, pos)), qs + rs, p);
      BothProper(Asked(KindQuestions(op, m.state, pos)), Asked(LengthQuestions(false, length - 2, pos)) + (qs + rs), p);
    case ShortRep =>
      BothProper(Asked(KindQuestions(op, m.state, pos)), [], p);
    case Rep(_, length) =>
      LengthProper(true, length - 2, pos, p);
      BothProper(Asked(KindQuestions(op, m.state, pos)), Asked(LengthQuestions(true, length - 2, pos)), p);
  }

  /**
   Two decisions of any two operations, wherever these stand, share a probability exactly if they
   answer the same question.
   */
  lemma SharedIff(op: Op, m: Machine, i: nat, op': Op, m': Machine, i': nat, p: Properties)
    requires Sound(m) && Sound(m') && WellFormed(op) && WellFormed(op') && ValidProperties(p)
    requires i < |Code(op, m, p)| && i' < |Code(op', m', p)|
    ensures |Questions(op, m, p)| == |Code(op, m, p)| && |Questions(op', m', p)| == |Code(op', m', p)|
    ensures var d, d' := Code(op, m, p)[i], Code(op', m', p)[i'];
            var q, q' := Questions(op, m, p)[i], Questions(op', m', p)[i'];
            && (d.Direct? <==> q.None?) && (d.Modelled? && d'.Modelled? ==> (d.index == d'.index <==> q == q'))
  {
    CodeGives(op, m, p);
    CodeGives(op', m', p);
    QuestionsProper(op, m, p);
    QuestionsProper(op', m', p);
    hide Code, Questions, IndexOf, Proper;
    var q, q' := Questions(op, m, p)[i], Questions(op', m', p)[i'];
    if q.Some? {
      InPart(q.value, p);
    }
    if q'.Some? {
      InPart(q'.value, p);
    }
    if q.Some? && q'.Some? && IndexOf(q.value, p) == IndexOf(q'.value, p) {
      IndexUnique(q.value, q'.value, p);
    }
  }
}

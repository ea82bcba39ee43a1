/**
 The LZMA stream as its designer describes it: operations on a dictionary, and the list of
 binary decisions that spells each of them.
 */
module LzmaSyntax {
  import opened Bytes
  import opened RangeCoder
  import opened BitCodes

  // ----- The layout of the probability table -----

  const IS_MATCH := 0
  const IS_REP := IS_MATCH + 192
  const IS_REP_G0 := IS_REP + 12
  const IS_REP_G1 := IS_REP_G0 + 12
  const IS_REP_G2 := IS_REP_G1 + 12
  const IS_REP0_LONG := IS_REP_G2 + 12
  const POS_SLOT := IS_REP0_LONG + 192
  const SPEC_POS := POS_SLOT + 256
  const ALIGN := SPEC_POS + 114
  const LEN_CODER := ALIGN + 16
  const REP_LEN_CODER := LEN_CODER + 514
  const LITERAL := REP_LEN_CODER + 514
  const LIT_SIZE := 768

  datatype Properties = Properties(lc: nat, lp: nat, pb: nat)

  predicate ValidProperties(p: Properties) {
    p.lc <= 8 && p.lp <= 4 && p.pb <= 4
  }

  function TableSize(p: Properties): nat {
    LITERAL + LIT_SIZE * Power(p.lc + p.lp)
  }

  // ----- Operations and what they do -----

  const NO_DISTANCE := TWO32

  /** A match over NO_DISTANCE marks the end of the stream. */
  datatype Op =
    | Literal(b: byte)
    | Match(distance: nat, length: nat)
    | ShortRep
    | Rep(which: nat, length: nat)

  predicate WellFormed(op: Op) {
    match op
    case Literal(_) => true
    case Match(distance, length) => 1 <= distance <= NO_DISTANCE && 2 <= length <= 273
    case ShortRep => true
    case Rep(which, length) => which < 4 && 2 <= length <= 273
  }

  predicate IsEnd(op: Op) {
    op.Match? && op.distance == NO_DISTANCE
  }

  /** The kind of the last operations, the last four distances, and the output so far. */
  datatype Machine = Machine(state: nat, rep0: nat, rep1: nat, rep2: nat, rep3: nat, out: seq<byte>)

  const START := Machine(0, 1, 1, 1, 1, [])

  function RepOf(m: Machine, which: nat): nat {
    if which == 0 then m.rep0 else if which == 1 then m.rep1 else if which == 2 then m.rep2 else m.rep3
  }

  /** How far back an operation reaches. */
  function Reach(op: Op, m: Machine): nat {
    match op
    case Literal(_) => 0
    case Match(distance, _) => if IsEnd(op) then 0 else distance
    case ShortRep => m.rep0
    case Rep(which, _) => RepOf(m, which)
  }

  predicate Legal(op: Op, m: Machine) {
    Reach(op, m) <= |m.out|
  }

  /** n bytes more, each a copy of the one `distance` before it: the copy may run into itself. */
  function Copy(out: seq<byte>, distance: nat, n: nat): (r: seq<byte>)
    requires 1 <= distance <= |out|
    ensures |r| == |out| + n
  {
    if n == 0 then out else
      var before := Copy(out, distance, n - 1);
      before + [before[|before| - distance]]
  }

  function LiteralState(s: nat): nat {
    if s < 4 then 0 else if s < 10 then s - 3 else s - 6
  }

  function CopyState(op: Op, s: nat): nat {
    match op
    case Match(_, _) => if s < 7 then 7 else 10
    case Rep(_, _) => if s < 7 then 8 else 11
    case _ => if s < 7 then 9 else 11
  }

  /** The distances after an operation: the one just used comes first. */
  function Reused(op: Op, m: Machine): Machine {
    match op
    case Literal(_) => m
    case ShortRep => m
    case Match(distance, _) => m.(rep0 := distance, rep1 := m.rep0, rep2 := m.rep1, rep3 := m.rep2)
    case Rep(which, _) =>
      if which == 0 then m
      else if which == 1 then m.(rep0 := m.rep1, rep1 := m.rep0)
      else if which == 2 then m.(rep0 := m.rep2, rep1 := m.rep0, rep2 := m.rep1)
      else m.(rep0 := m.rep3, rep1 := m.rep0, rep2 := m.rep1, rep3 := m.rep2)
  }

  /** At least one distance, none beyond the output; a copy was made only if there is output. */
  predicate Sound(m: Machine) {
    var most := if m.out == [] then 1 else |m.out|;
    && m.state < 12 && (m.state >= 7 ==> m.out != [])
    && 1 <= m.rep0 <= most && 1 <= m.rep1 <= most && 1 <= m.rep2 <= most && 1 <= m.rep3 <= most
  }

  function CopyLength(op: Op): nat {
    match op
    case Literal(_) => 1
    case ShortRep => 1
    case Match(_, length) => length
    case Rep(_, length) => length
  }

  function Apply(m: Machine, op: Op): (r: Machine)
    requires Sound(m) && WellFormed(op) && Legal(op, m)
    ensures Sound(r) && |r.out| >= |m.out| && (!IsEnd(op) ==> |r.out| > |m.out|)
  {
    if IsEnd(op) then m
    else if op.Literal? then m.(state := LiteralState(m.state), out := m.out + [op.b])
    else Reused(op, m).(state := CopyState(op, m.state), out := Copy(m.out, Reach(op, m), CopyLength(op)))
  }

  /** Each operation can be performed where it stands, and only the last one may be the end marker. */
  ghost predicate Playable(ops: seq<Op>)
    decreases |ops|, 0
  {
    ops != [] ==>
      var rest, op := ops[..|ops| - 1], ops[|ops| - 1];
      Playable(rest) && (forall o :: o in rest ==> !IsEnd(o)) && WellFormed(op) && Legal(op, Run(rest))
  }

  ghost function Run(ops: seq<Op>): (m: Machine)
    requires Playable(ops)
    ensures Sound(m)
    decreases |ops|, 1
  {
    if ops == [] then START else Apply(Run(ops[..|ops| - 1]), ops[|ops| - 1])
  }

  // ----- The decisions that spell an operation -----

  function LengthCode(base: nat, l: nat, posState: nat): seq<Decision> {
    if l < 8 then [Modelled(base, 0)] + Path(base + 2 + 8 * posState, 8 + l)
    else if l < 16 then [Modelled(base, 1), Modelled(base + 1, 0)] + Path(base + 130 + 8 * posState, l)
    else [Modelled(base, 1), Modelled(base + 1, 1)] + Path(base + 258, 240 + l)
  }

  /** Distances are grouped by their two leading bits and their magnitude. */
  function Slot(d: nat): (slot: nat)
    ensures if d < 4 then slot == d else slot >= 4
  {
    if d < 4 then d else Slot(d / 2) + 2
  }

  /** The least distance of a slot from 4 on, and the number of bits it leaves open. */
  function SlotBits(slot: nat): nat
    requires slot >= 4
  {
    slot / 2 - 1
  }

  function SlotBase(slot: nat): nat
    requires slot >= 4
  {
    (2 + slot % 2) * Power(SlotBits(slot))
  }

  /** The bits a slot leaves open: modelled ones for short distances, else even odds above four modelled ones. */
  function OpenBits(slot: nat, rest: nat): seq<Decision> {
    if slot < 4 then []
    else if slot < 14 then ReversePath(SPEC_POS + SlotBase(slot) - slot - 1, rest, SlotBits(slot))
    else Directs(rest / 16, SlotBits(slot) - 4) + ReversePath(ALIGN, rest % 16, 4)
  }

  function SlotTree(l: nat): nat {
    POS_SLOT + (if l < 4 then l else 3) * 64
  }

  function Rest(d: nat): nat {
    if d < 4 || d < SlotBase(Slot(d)) then 0 else d - SlotBase(Slot(d))
  }

  function DistanceCode(d: nat, l: nat): seq<Decision> {
    Path(SlotTree(l), 64 + Slot(d)) + OpenBits(Slot(d), Rest(d))
  }

  function PosState(m: Machine, p: Properties): nat {
    Trailing(|m.out|, p.pb)
  }

  /** `v << bits` */
  function Shifted(v: nat, bits: nat): nat {
    if bits == 0 then v else 2 * Shifted(v, bits - 1)
  }

  /** `v >> bits` */
  function Leading(v: nat, bits: nat): nat {
    if bits == 0 then v else Leading(v, bits - 1) / 2
  }

  /** `v & ((1 << bits) - 1)` */
  function Trailing(v: nat, bits: nat): nat {
    v % Power(bits)
  }

  /** Literals are modelled by position and by the leading bits of the byte before them. */
  function LiteralTree(m: Machine, p: Properties): nat
    requires p.lc <= 8
  {
    var before: nat := if m.out == [] then 0 else m.out[|m.out| - 1];
    LITERAL + LIT_SIZE * (Shifted(Trailing(|m.out|, p.lp), p.lc) + Leading(before, 8 - p.lc))
  }

  /** After a copy, the byte that would have been copied next guides the literal. */
  function Guide(m: Machine): nat
    requires Sound(m)
  {
    if m.state >= 7 then var next: nat := m.out[|m.out| - m.rep0]; 0x100 + next else 0
  }

  function RepBits(m: Machine, which: nat, posState: nat): seq<Decision> {
    if which == 0 then [Modelled(IS_REP_G0 + m.state, 0), Modelled(IS_REP0_LONG + 16 * m.state + posState, 1)]
    else if which == 1 then [Modelled(IS_REP_G0 + m.state, 1), Modelled(IS_REP_G1 + m.state, 0)]
    else if which == 2 then
      [Modelled(IS_REP_G0 + m.state, 1), Modelled(IS_REP_G1 + m.state, 1), Modelled(IS_REP_G2 + m.state, 0)]
    else
      [Modelled(IS_REP_G0 + m.state, 1), Modelled(IS_REP_G1 + m.state, 1), Modelled(IS_REP_G2 + m.state, 1)]
  }

  function KindBits(op: Op, m: Machine, posState: nat): seq<Decision> {
    var isMatch := IS_MATCH + 16 * m.state + posState;
    match op
    case Literal(_) => [Modelled(isMatch, 0)]
    case Match(_, _) => [Modelled(isMatch, 1), Modelled(IS_REP + m.state, 0)]
    case ShortRep =>
      [Modelled(isMatch, 1), Modelled(IS_REP + m.state, 1), Modelled(IS_REP_G0 + m.state, 0),
       Modelled(IS_REP0_LONG + 16 * m.state + posState, 0)]
    case Rep(which, _) => [Modelled(isMatch, 1), Modelled(IS_REP + m.state, 1)] + RepBits(m, which, posState)
  }

  /** What follows the decisions for the kind. */
  function Body(op: Op, m: Machine, p: Properties): seq<Decision>
    requires Sound(m) && WellFormed(op) && p.lc <= 8
  {
    match op
    case Literal(b) => GuidedPath(LiteralTree(m, p), Guide(m), 0x100 + b)
    case Match(distance, length) =>
      LengthCode(LEN_CODER, length - 2, PosState(m, p)) + DistanceCode(distance - 1, length - 2)
    case ShortRep => []
    case Rep(_, length) => LengthCode(REP_LEN_CODER, length - 2, PosState(m, p))
  }

  function Code(op: Op, m: Machine, p: Properties): seq<Decision>
    requires Sound(m) && WellFormed(op) && p.lc <= 8
  {
    KindBits(op, m, PosState(m, p)) + Body(op, m, p)
  }

  ghost function Codes(ops: seq<Op>, p: Properties): seq<Decision>
    requires Playable(ops) && p.lc <= 8
  {
    if ops == [] then [] else
      var rest := ops[..|ops| - 1];
      Codes(rest, p) + Code(ops[|ops| - 1], Run(rest), p)
  }

  // ----- Properties of the definitions -----

  /** Overlapping or not, every copied byte equals the one `distance` before it. */
  lemma {:induction false} CopyRepeats(out: seq<byte>, distance: nat, n: nat, i: nat)
    requires 1 <= distance <= |out| && |out| <= i < |out| + n
    ensures Copy(out, distance, n)[i] == Copy(out, distance, n)[i - distance]
  {
    if i < |out| + n - 1 {
      CopyRepeats(out, distance, n - 1, i);
    }
  }

  lemma {:induction false} SlotBaseDoubles(slot: nat)
    requires slot >= 4
    ensures SlotBase(slot + 2) == 2 * SlotBase(slot) && SlotBits(slot + 2) == SlotBits(slot) + 1
  {
    assert (slot + 2) / 2 == slot / 2 + 1 && (slot + 2) % 2 == slot % 2;
    var q, p := 2 + slot % 2, Power(SlotBits(slot));
    assert q * (2 * p) == 2 * (q * p);
  }

  /** Every distance lies in its slot. */
  lemma {:induction false} SlotRange(d: nat)
    requires d >= 4
    ensures Slot(d) >= 4 && SlotBase(Slot(d)) <= d < SlotBase(Slot(d)) + Power(SlotBits(Slot(d)))
    ensures d == SlotBase(Slot(d)) + Rest(d) && Rest(d) < Power(SlotBits(Slot(d)))
  {
    if d < 8 {
      assert Slot(d / 2) == d / 2 && Power(1) == 2;
    } else {
      SlotRange(d / 2);
      SlotBaseDoubles(Slot(d / 2));
    }
  }

  /** And in no other. */
  lemma {:induction false} SlotIsUnique(slot: nat, rest: nat)
    requires slot >= 4 && rest < Power(SlotBits(slot))
    ensures Slot(SlotBase(slot) + rest) == slot && Rest(SlotBase(slot) + rest) == rest
  {
    var d := SlotBase(slot) + rest;
    if slot < 6 {
      assert SlotBits(slot) == 1 && Power(1) == 2 && Power(0) == 1;
      assert SlotBase(slot) == 2 * slot - 4 && d / 2 == slot - 2;
      assert Slot(d / 2) == d / 2;
    } else {
      SlotBaseDoubles(slot - 2);
      assert d / 2 == SlotBase(slot - 2) + rest / 2;
      SlotIsUnique(slot - 2, rest / 2);
    }
  }

  lemma {:induction false} SlotBound(d: nat, n: nat)
    requires d < Power(n) && n >= 1
    ensures Slot(d) < 2 * n
  {
    assert Power(1) == 2 * Power(0) == 2;
    if d >= 4 {
      SlotBound(d / 2, n - 1);
    }
  }
}

/**
 The decoder: it reads one operation after the other off the range decoder and performs it
 on the output, until the output is full or the end marker is met.
 */
module LzmaDecoder {
  import opened Bytes
  import opened RangeCoder
  import opened BitCodes
  import opened RangeDecoding
  import opened LzmaSyntax
  import opened LzmaUnique
  import opened LzmaSymbols

  /** Performed, the end marker, or LZMA_RESULT_DATA_ERROR. */
  datatype Outcome = Done | Ended | Failed

  function Least(a: nat, b: nat): nat { if a <= b then a else b }

  lemma {:induction false} CopyPrefix(out: seq<byte>, distance: nat, k: nat, n: nat)
    requires 1 <= distance <= |out| && k <= n
    ensures Copy(out, distance, k) <= Copy(out, distance, n)
  {
    if k < n {
      CopyPrefix(out, distance, k, n - 1);
    }
  }

  lemma CopyMore(out: seq<byte>, distance: nat, n: nat)
    requires 1 <= distance <= |out|
    ensures Copy(out, distance, n + 1) == Copy(out, distance, n) + [Copy(out, distance, n)[|out| + n - distance]]
  {
  }

  // ----- Every probability asked for is in the table -----

  lemma {:induction false} ShiftedBound(v: nat, k: nat, n: nat, w: nat)
    requires v < Power(k) && w < Power(n)
    ensures Shifted(v, n) + w < Power(k + n)
  {
    if n > 0 {
      ShiftedBound(v, k, n - 1, w / 2);
    }
  }

  lemma {:induction false} LeadingBound(v: nat, n: nat, k: nat)
    requires v < Power(n + k)
    ensures Leading(v, k) < Power(n)
    decreases k
  {
    if k > 0 {
      LeadingBound(v, n + 1, k - 1);
    }
  }

  lemma TrailingBound(v: nat, n: nat)
    ensures Trailing(v, n) < Power(n)
  {
  }

  lemma LiteralTreeFits(m: Machine, p: Properties)
    requires ValidProperties(p)
    ensures LITERAL <= LiteralTree(m, p) && LiteralTree(m, p) + LIT_SIZE <= TableSize(p)
  {
    SmallPowers();
    hide Trailing, Shifted, Leading, Power;
    var before: nat := if m.out == [] then 0 else m.out[|m.out| - 1];
    TrailingBound(|m.out|, p.lp);
    assert p.lc + (8 - p.lc) == 8 && p.lp + p.lc == p.lc + p.lp;
    LeadingBound(before, p.lc, 8 - p.lc);
    ShiftedBound(Trailing(|m.out|, p.lp), p.lp, p.lc, Leading(before, 8 - p.lc));
  }

  lemma TableFits(p: Properties)
    ensures LITERAL + LIT_SIZE <= TableSize(p)
  {
  }

  lemma PosStateFits(m: Machine, p: Properties)
    requires ValidProperties(p)
    ensures PosState(m, p) < 16
  {
    TrailingBound(|m.out|, p.pb);
    PowerGrows(p.pb, 4);
    SmallPowers();
  }

  lemma SpelledWhole(before: seq<Decision>, now: seq<Decision>, code: seq<Decision>)
    requires Spelled(true, before, now, code)
    ensures now == before + code
  {
  }

  lemma LiteralSpelled(ok: bool, start: seq<Decision>, now: seq<Decision>, m: Machine, p: Properties, spelled: nat)
    requires Sound(m) && p.lc <= 8 && 0x100 <= spelled < 0x200
    requires Spelled(ok, start + [Modelled(IS_MATCH + 16 * m.state + PosState(m, p), 0)], now,
             GuidedPath(LiteralTree(m, p), Guide(m), spelled))
    ensures Spelled(ok, start, now, Code(Literal(spelled - 0x100), m, p))
  {
    hide GuidedPath, LiteralTree, Guide, PosState, Spelled;
    SpelledThen(ok, start, now, [Modelled(IS_MATCH + 16 * m.state + PosState(m, p), 0)],
      GuidedPath(LiteralTree(m, p), Guide(m), spelled));
  }

  /** The kind of an operation has been read in full, and its body up to the end of the input. */
  lemma BodySpelled(ok: bool, start: seq<Decision>, now: seq<Decision>, op: Op, m: Machine, p: Properties)
    requires Sound(m) && WellFormed(op) && p.lc <= 8
    requires Spelled(ok, start + KindBits(op, m, PosState(m, p)), now, Body(op, m, p))
    ensures Spelled(ok, start, now, Code(op, m, p))
  {
    hide KindBits, Body, PosState, Spelled;
    SpelledThen(ok, start, now, KindBits(op, m, PosState(m, p)), Body(op, m, p));
  }

  lemma MatchSpelled(start: seq<Decision>, now: seq<Decision>, m: Machine, p: Properties, l: nat)
    requires Sound(m) && p.lc <= 8 && l < 272
    requires Spelled(false, start + KindBits(Match(1, 2), m, PosState(m, p)), now,
             LengthCode(LEN_CODER, l, PosState(m, p)))
    ensures Spelled(false, start, now, Code(Match(1, l + 2), m, p))
  {
    hide LengthCode, DistanceCode, PosState, Spelled;
    var body := DistanceCode(0, l);
    SpelledWithin(start + KindBits(Match(1, 2), m, PosState(m, p)), now, LengthCode(LEN_CODER, l, PosState(m, p)),
      body);
    WholeMatchSpelled(false, start, now, m, p, 0, l);
  }

  lemma WholeMatchSpelled(ok: bool, start: seq<Decision>, now: seq<Decision>, m: Machine, p: Properties, d: nat, l: nat)
    requires Sound(m) && p.lc <= 8 && d < TWO32 && l < 272
    requires Spelled(ok, start + KindBits(Match(1, 2), m, PosState(m, p)), now,
                     LengthCode(LEN_CODER, l, PosState(m, p)) + DistanceCode(d, l))
    ensures Spelled(ok, start, now, Code(Match(d + 1, l + 2), m, p))
  {
    hide LengthCode, DistanceCode, PosState, Spelled;
    var op := Match(d + 1, l + 2);
    assert KindBits(op, m, PosState(m, p)) == KindBits(Match(1, 2), m, PosState(m, p));
    hide KindBits;
    BodySpelled(ok, start, now, op, m, p);
  }

  lemma SoundReach(op: Op, m: Machine)
    requires Sound(m) && WellFormed(op) && !IsEnd(op) && !op.Literal?
    ensures Reach(op, m) >= 1 && CopyLength(op) >= 1
  {
  }

  lemma ApplyCopy(m: Machine, op: Op)
    requires Sound(m) && WellFormed(op) && Legal(op, m) && !IsEnd(op) && !op.Literal?
    ensures 1 <= Reach(op, m) <= |m.out|
    ensures Apply(m, op) == Reused(op, m).(state := CopyState(op, m.state),
            out := Copy(m.out, Reach(op, m), CopyLength(op)))
  {
    SoundReach(op, m);
  }

  lemma CutAfter(before: seq<Decision>, now: seq<Decision>, code: seq<Decision>, n: nat)
    requires n < |code| && now == before + code[..n]
    ensures Spelled(false, before, now, code)
  {
    assert before + code == now + code[n..];
  }

  lemma WholeCode(before: seq<Decision>, now: seq<Decision>, code: seq<Decision>)
    requires now == before + code
    ensures Spelled(true, before, now, code)
  {
  }

  /** A copy at a distance used before. */
  function RepHead(m: Machine, posState: nat): seq<Decision> {
    [Modelled(IS_MATCH + 16 * m.state + posState, 1), Modelled(IS_REP + m.state, 1)]
  }

  lemma PosStateIs(m: Machine, p: Properties)
    ensures PosState(m, p) == Trailing(|m.out|, p.pb)
  {
  }

  lemma KindCutSpelled(start: seq<Decision>, now: seq<Decision>, op: Op, m: Machine, p: Properties)
    requires Sound(m) && WellFormed(op) && p.lc <= 8 && Spelled(false, start, now, KindBits(op, m, PosState(m, p)))
    ensures Spelled(false, start, now, Code(op, m, p))
  {
    hide KindBits, Body, PosState, Spelled;
    SpelledWithin(start, now, KindBits(op, m, PosState(m, p)), Body(op, m, p));
  }

  lemma ShortCode(m: Machine, p: Properties)
    requires Sound(m) && p.lc <= 8
    ensures Code(ShortRep, m, p) == KindBits(ShortRep, m, PosState(m, p))
  {
  }

  lemma SoundState(m: Machine)
    requires Sound(m)
    ensures m.state < 12
  {
  }

  lemma ShortReach(m: Machine)
    requires Sound(m)
    ensures Legal(ShortRep, m) <==> m.out != []
    ensures Reused(ShortRep, m) == m
  {
  }

  lemma RepSpelled(ok: bool, start: seq<Decision>, now: seq<Decision>, m: Machine, p: Properties, which: nat, l: nat)
    requires Sound(m) && p.lc <= 8 && which < 4 && l < 272
    requires Spelled(ok, start + KindBits(Rep(which, 2), m, PosState(m, p)), now,
             LengthCode(REP_LEN_CODER, l, PosState(m, p)))
    ensures Spelled(ok, start, now, Code(Rep(which, l + 2), m, p))
  {
    hide LengthCode, PosState, Spelled, RepBits;
    var op := Rep(which, l + 2);
    assert KindBits(op, m, PosState(m, p)) == KindBits(Rep(which, 2), m, PosState(m, p));
    hide KindBits;
    BodySpelled(ok, start, now, op, m, p);
  }

  lemma ReusedSame(m: Machine, which: nat, length: nat)
    requires Sound(m) && which < 4
    ensures Reused(Rep(which, length), m) == Reused(Rep(which, 2), m)
    ensures Reused(Rep(which, length), m).rep0 == Reach(Rep(which, length), m)
  {
  }

  class Decoder {
    const p: Properties
    const rd: RangeDecoder
    const out: array<byte>
    var nowPos: nat
    var previousByte: byte
    var state: nat
    var rep0: nat
    var rep1: nat
    var rep2: nat
    var rep3: nat

    ghost predicate Ready()
      reads this, rd, rd.probs
    {
      && ValidProperties(p) && rd.Valid() && rd.probs.Length == TableSize(p)
      && (out as object) != rd.probs && nowPos <= out.Length
    }

    /** The decoder is in the state m, except that the output may be cut off. */
    ghost predicate Shows(m: Machine)
      reads this, out
      requires nowPos <= out.Length
    {
      && Holds(m)
      && nowPos == Least(|m.out|, out.Length) && out[..nowPos] == m.out[..nowPos]
      && (nowPos > 0 ==> previousByte == out[nowPos - 1]) && (nowPos == 0 ==> previousByte == 0)
    }

    constructor (p: Properties, input: seq<byte>, out: array<byte>)
      requires ValidProperties(p) && 5 <= |input|
      ensures Ready() && Shows(START) && this.p == p && this.out == out && rd.trace == [] && rd.input == input
      ensures fresh(rd) && fresh(rd.probs)
    {
      this.p := p;
      this.out := out;
      rd := new RangeDecoder(input, TableSize(p));
      nowPos, previousByte, state := 0, 0, 0;
      rep0, rep1, rep2, rep3 := 1, 1, 1, 1;
    }

    /** `outStream[nowPos++] = previousByte` */
    method WriteByte(b: byte)
      requires nowPos < out.Length
      modifies this`nowPos, this`previousByte, out
      ensures nowPos == old(nowPos) + 1 && previousByte == b == out[nowPos - 1]
      ensures out[..nowPos] == old(out[..nowPos]) + [b]
    {
      previousByte := b;
      out[nowPos] := previousByte;
      nowPos := nowPos + 1;
    }

    /** One byte of a copy. */
    method CopyByte(ghost before: seq<byte>, ghost k: nat)
      requires nowPos == |before| + k < out.Length && 1 <= rep0 <= |before| && out[..nowPos] == Copy(before, rep0, k)
      modifies this`nowPos, this`previousByte, out
      ensures nowPos == |before| + k + 1 && out[..nowPos] == Copy(before, rep0, k + 1) &&
              previousByte == out[nowPos - 1]
    {
      hide Copy;
      assert out[nowPos - rep0] == out[..nowPos][nowPos - rep0];
      CopyMore(before, rep0, k);
      WriteByte(out[nowPos - rep0]);
    }

    /** The copy loop: it stops early when the output is full. */
    method CopyBytes(length: nat)
      requires nowPos < out.Length && 1 <= rep0 <= nowPos && length > 0
      modifies this`nowPos, this`previousByte, out
      ensures nowPos == Least(old(nowPos) + length, out.Length) > 0 && previousByte == out[nowPos - 1]
      ensures out[..nowPos] == Copy(old(out[..nowPos]), rep0, length)[..nowPos]
    {
      ghost var before := out[..nowPos];
      assert Copy(before, rep0, 0) == before;
      hide Copy;
      var len := length;
      while len != 0 && nowPos < out.Length
        invariant len <= length && nowPos == |before| + length - len <= out.Length
        invariant out[..nowPos] == Copy(before, rep0, length - len)
        invariant len < length ==> previousByte == out[nowPos - 1]
      {
        CopyByte(before, length - len);
        len := len - 1;
      }
      CopyPrefix(before, rep0, length - len, length);
    }

    /** The input ends within the operation, or the operation reaches back before the start of the output. */
    ghost predicate Refused(op: Op, m: Machine, before: seq<Decision>)
      reads this, rd
      requires Sound(m) && WellFormed(op) && p.lc <= 8
    {
      || (Spelled(false, before, rd.trace, Code(op, m, p)) && rd.Starved())
      || (rd.trace == before + Code(op, m, p) && !Legal(op, m))
    }

    /** Which literal probabilities to use. */
    method LiteralBase(ghost m: Machine) returns (base: nat)
      requires ValidProperties(p) && nowPos < out.Length && Shows(m)
      ensures base == LiteralTree(m, p) && base + LIT_SIZE <= TableSize(p)
    {
      hide Shifted, Trailing, Leading, TableSize;
      assert out[..nowPos] == m.out;
      LiteralTreeFits(m, p);
      base := LITERAL + LIT_SIZE * (Shifted(Trailing(nowPos, p.lp), p.lc) + Leading(previousByte, 8 - p.lc));
    }

    /** The byte a copy would have continued with. */
    method MatchByte(ghost m: Machine) returns (b: byte)
      requires nowPos < out.Length && Sound(m) && Shows(m)
      ensures Guide(m) == if state >= 7 then 0x100 + b as nat else 0
    {
      assert out[..nowPos] == m.out;
      if state >= 7 {
        assert out[nowPos - rep0] == m.out[nowPos - rep0];
        b := out[nowPos - rep0];
      } else {
        b := 0;
      }
    }

    /** A literal: decode it, write it. */
    method StepLiteral(posState: nat, ghost m: Machine, ghost start: seq<Decision>)
      returns (outcome: Outcome, ghost op: Op)
      requires Ready() && nowPos < out.Length && Sound(m) && Shows(m) && posState == PosState(m, p)
      requires rd.trace == start + [Modelled(IS_MATCH + 16 * state + posState, 0)]
      modifies this, rd, rd.probs, out
      ensures Ready() && WellFormed(op) && outcome != Ended && !IsEnd(op)
      ensures if outcome == Failed then Refused(op, m, start)
              else Legal(op, m) && rd.trace == start + Code(op, m, p) && Shows(Apply(m, op))
    {
      hide RangeDecoder.Valid, RangeDecoder.Starved, LiteralTree, Guide, Spelled, TableSize, PosState, LiteralState;
      hide Code, Refused, Shows, Sound, Apply;
      ShownWhole(m);
      var base := LiteralBase(m);
      var matchByte := MatchByte(m);
      var ok: bool, symbol: nat;
      ghost var spelled: nat;
      ok, symbol, spelled := DecodeLiteral(rd, base, state >= 7, matchByte);
      op := Literal(spelled - 0x100);
      LiteralSpelled(ok, start, rd.trace, m, p, spelled);
      if !ok {
        StarvedRefuses(op, m, start);
        return Failed, op;
      }
      SpelledWhole(start, rd.trace, Code(op, m, p));
      WriteLiteral(symbol - 0x100);
      LiteralShown(m, symbol - 0x100);
      return Done, op;
    }

    lemma ShownWhole(m: Machine)
      requires nowPos < out.Length && Shows(m)
      ensures Holds(m) && out[..nowPos] == m.out
    {
    }

    lemma StarvedRefuses(op: Op, m: Machine, before: seq<Decision>)
      requires Sound(m) && WellFormed(op) && p.lc <= 8 && rd.Starved()
      requires Spelled(false, before, rd.trace, Code(op, m, p))
      ensures Refused(op, m, before)
    {
      hide RangeDecoder.Starved, Spelled, Code, Legal;
    }

    lemma IllegalRefuses(op: Op, m: Machine, before: seq<Decision>)
      requires Sound(m) && WellFormed(op) && p.lc <= 8
      requires rd.trace == before + Code(op, m, p) && !Legal(op, m)
      ensures Refused(op, m, before)
    {
      hide RangeDecoder.Starved, Spelled, Code, Legal;
    }

    lemma LiteralShown(m: Machine, b: byte)
      requires Sound(m) && nowPos <= out.Length && out[..nowPos] == m.out + [b] && previousByte == b
      requires Holds(m.(state := LiteralState(m.state)))
      ensures Shows(Apply(m, Literal(b)))
    {
      hide LiteralState, Sound;
    }

    method WriteLiteral(b: byte)
      requires nowPos < out.Length
      modifies this`nowPos, this`previousByte, this`state, out
      ensures nowPos == old(nowPos) + 1 && previousByte == b == out[nowPos - 1]
      ensures out[..nowPos] == old(out[..nowPos]) + [b]
      ensures state == LiteralState(old(state))
    {
      WriteByte(b);
      if state < 4 {
        state := 0;
      } else if state < 10 {
        state := state - 3;
      } else {
        state := state - 6;
      }
    }

    // ----- Copies -----

    /** The copy itself, once distances and state say what the operation makes of them. */
    method FinishCopy(length: nat, ghost m: Machine, ghost op: Op)
      requires nowPos < out.Length && Sound(m) && WellFormed(op) && Legal(op, m) && !IsEnd(op) && !op.Literal?
      requires out[..nowPos] == m.out && length == CopyLength(op) && rep0 == Reach(op, m)
      requires Holds(Reused(op, m).(state := CopyState(op, m.state)))
      modifies this`nowPos, this`previousByte, out
      ensures nowPos <= out.Length && Shows(Apply(m, op))
    {
      hide Copy, Reach, CopyLength, CopyState, Reused, Sound;
      ApplyCopy(m, op);
      SoundReach(op, m);
      CopyBytes(length);
    }

    /** The distances and the state are those of m. */
    ghost predicate Holds(m: Machine)
      reads this
    {
      state == m.state && rep0 == m.rep0 && rep1 == m.rep1 && rep2 == m.rep2 && rep3 == m.rep3
    }

    /** Length and distance of a match. */
    method DecodeMatch(posState: nat, ghost m: Machine, ghost start: seq<Decision>)
      returns (ok: bool, len: nat, d: nat, ghost op: Op)
      requires Ready() && Sound(m) && posState == PosState(m, p)
      requires rd.trace == start + KindBits(Match(1, 2), m, posState)
      modifies rd, rd.probs
      ensures Ready() && op.Match? && WellFormed(op) && (if ok then op == Match(d + 1, len + 2) else rd.Starved())
      ensures Spelled(ok, start, rd.trace, Code(op, m, p))
    {
      hide RangeDecoder.Valid, RangeDecoder.Starved, Spelled, PosState, LengthCode, DistanceCode, KindBits, Power;
      PosStateFits(m, p);
      ghost var l: nat, far: nat;
      ghost var start2 := rd.trace;
      ok, len, l := DecodeLength(rd, LEN_CODER, posState);
      if !ok {
        MatchSpelled(start, rd.trace, m, p, l);
        return false, 0, 0, Match(1, l + 2);
      }
      ghost var start3 := rd.trace;
      SpelledWhole(start2, start3, LengthCode(LEN_CODER, l, posState));
      ok, d, far := DecodeDistance(rd, len);
      op := Match(far + 1, l + 2);
      SpelledThen(ok, start2, rd.trace, LengthCode(LEN_CODER, l, posState), DistanceCode(far, l));
      WholeMatchSpelled(ok, start, rd.trace, m, p, far, l);
    }

    /** The rest of a match, once told from a repeated one. */
    method StepMatch(posState: nat, ghost m: Machine, ghost start: seq<Decision>)
      returns (outcome: Outcome, ghost op: Op)
      requires Ready() && nowPos < out.Length && Sound(m) && Shows(m) && posState == PosState(m, p)
      requires rd.trace == start + KindBits(Match(1, 2), m, posState)
      modifies this, rd, rd.probs, out
      ensures Ready() && WellFormed(op) && (outcome == Ended <==> outcome != Failed && IsEnd(op))
      ensures if outcome == Failed then Refused(op, m, start)
              else Legal(op, m) && rd.trace == start + Code(op, m, p) && (outcome == Done ==> Shows(Apply(m, op)))
      ensures outcome == Ended ==> nowPos == old(nowPos) && out[..] == old(out[..])
    {
      hide RangeDecoder.Valid, RangeDecoder.Starved, Spelled, PosState, Code, KindBits, TableSize;
      hide Refused, Sound, Shows, Apply;
      ShownWhole(m);
      rep3 := rep2;
      rep2 := rep1;
      rep1 := rep0;
      state := if state < 7 then 0 else 3;
      var ok: bool, len: nat, d: nat;
      ok, len, d, op := DecodeMatch(posState, m, start);
      if !ok {
        StarvedRefuses(op, m, start);
        return Failed, op;
      }
      SpelledWhole(start, rd.trace, Code(op, m, p));
      state := state + 7;
      rep0 := (d + 1) % TWO32;
      if rep0 == 0 {
        return Ended, op;
      }
      if rep0 > nowPos {
        IllegalRefuses(op, m, start);
        return Failed, op;
      }
      FinishCopy(len + 2, m, op);
      return Done, op;
    }

    /** A distance used before the last one becomes the latest again. */
    method PickFar(posState: nat, ghost m: Machine, ghost before: seq<Decision>) returns (ok: bool, ghost which: nat)
      requires Ready() && m.state < 12 && posState < 16 && Holds(m)
      requires rd.trace == before + [Modelled(IS_REP_G0 + m.state, 1)]
      modifies `rep0, `rep1, `rep2, `rep3, rd, rd.probs
      ensures Ready() && 1 <= which < 4 && (ok || rd.Starved()) && (ok ==> Holds(Reused(Rep(which, 2), m)))
      ensures Spelled(ok, before, rd.trace, RepBits(m, which, posState))
    {
      hide RangeDecoder.Valid, RangeDecoder.Starved, Spelled;
      TableFits(p);
      hide TableSize;
      which := 1;
      var bit: nat, distance: nat;
      ok, bit := rd.DecodeBit(IS_REP_G1 + state);
      if !ok {
        CutAfter(before, rd.trace, RepBits(m, 1, posState), 1);
        return;
      }
      if bit == 0 {
        distance := rep1;
      } else {
        ok, bit := rd.DecodeBit(IS_REP_G2 + state);
        which := 2;
        if !ok {
          CutAfter(before, rd.trace, RepBits(m, 2, posState), 2);
          return;
        }
        if bit == 0 {
          distance := rep2;
        } else {
          which := 3;
          distance := rep3;
          rep3 := rep2;
        }
        rep2 := rep1;
      }
      rep1 := rep0;
      rep0 := distance;
      WholeCode(before, rd.trace, RepBits(m, which, posState));
    }

    /** Which of the last four distances is used again, or one byte at the last one. */
    method PickRep(posState: nat, ghost m: Machine, ghost start: seq<Decision>)
      returns (ok: bool, short: bool, ghost op: Op)
      requires Ready() && m.state < 12 && posState < 16 && Holds(m)
      requires rd.trace == start + RepHead(m, posState)
      modifies `rep0, `rep1, `rep2, `rep3, rd, rd.probs
      ensures Ready() && (op == ShortRep || (op.Rep? && op.which < 4 && op.length == 2)) && (ok || rd.Starved())
      ensures ok ==> short == (op == ShortRep) && Holds(Reused(op, m))
      ensures Spelled(ok, start, rd.trace, KindBits(op, m, posState))
    {
      hide RangeDecoder.Valid, RangeDecoder.Starved, Spelled;
      TableFits(p);
      hide TableSize;
      short, op := false, ShortRep;
      var bit: nat;
      ok, bit := rd.DecodeBit(IS_REP_G0 + state);
      if !ok {
        CutAfter(start, rd.trace, KindBits(op, m, posState), 2);
        return;
      }
      if bit == 0 {
        ok, bit := rd.DecodeBit(IS_REP0_LONG + 16 * state + posState);
        if !ok {
          CutAfter(start, rd.trace, KindBits(op, m, posState), 3);
          return;
        }
        short := bit == 0;
        op := if short then ShortRep else Rep(0, 2);
        WholeCode(start, rd.trace, KindBits(op, m, posState));
      } else {
        ghost var which: nat;
        ok, which := PickFar(posState, m, start + RepHead(m, posState));
        op := Rep(which, 2);
        SpelledThen(ok, start, rd.trace, RepHead(m, posState), RepBits(m, which, posState));
      }
    }

    /** The rest of a copy at a distance used before. */
    method StepRep(posState: nat, ghost m: Machine, ghost start: seq<Decision>) returns (outcome: Outcome, ghost op: Op)
      requires Ready() && nowPos < out.Length && Sound(m) && Shows(m) && posState == PosState(m, p)
      requires rd.trace == start + RepHead(m, posState)
      modifies this, rd, rd.probs, out
      ensures Ready() && WellFormed(op) && outcome != Ended && !IsEnd(op)
      ensures if outcome == Failed then Refused(op, m, start)
              else Legal(op, m) && rd.trace == start + Code(op, m, p) && Shows(Apply(m, op))
    {
      hide RangeDecoder.Valid, RangeDecoder.Starved, Spelled, PosState, Code, KindBits, TableSize, Reused, RepHead;
      hide Refused, Sound, Shows, Apply;
      ShownWhole(m);
      SoundState(m);
      PosStateFits(m, p);
      var ok: bool, short: bool;
      ok, short, op := PickRep(posState, m, start);
      if !ok {
        KindCutSpelled(start, rd.trace, op, m, p);
        StarvedRefuses(op, m, start);
        return Failed, op;
      }
      ghost var kind := op;
      SpelledWhole(start, rd.trace, KindBits(op, m, posState));
      if short {
        ShortCode(m, p);
        ShortReach(m);
        if nowPos == 0 {
          IllegalRefuses(op, m, start);
          return Failed, op;
        }
        state := if state < 7 then 9 else 11;
        FinishCopy(1, m, op);
        return Done, op;
      }
      state := if state < 7 then 8 else 11;
      var len: nat;
      ghost var l: nat;
      TableFits(p);
      ok, len, l := DecodeLength(rd, REP_LEN_CODER, posState);
      op := Rep(kind.which, l + 2);
      RepSpelled(ok, start, rd.trace, m, p, kind.which, l);
      if !ok {
        StarvedRefuses(op, m, start);
        return Failed, op;
      }
      SpelledWhole(start, rd.trace, Code(op, m, p));
      ReusedSame(m, kind.which, l + 2);
      if rep0 > nowPos {
        IllegalRefuses(op, m, start);
        return Failed, op;
      }
      FinishCopy(len + 2, m, op);
      return Done, op;
    }

    /** One turn of the main loop. */
    method Step(ghost m: Machine) returns (outcome: Outcome, ghost op: Op)
      requires Ready() && nowPos < out.Length && Sound(m) && Shows(m)
      modifies this, rd, rd.probs, out
      ensures Ready() && WellFormed(op) && (outcome == Ended <==> outcome != Failed && IsEnd(op))
      ensures outcome == Failed ==> Refused(op, m, old(rd.trace))
      ensures outcome != Failed ==> Legal(op, m) && rd.trace == old(rd.trace) + Code(op, m, p)
      ensures outcome == Done ==> Shows(Apply(m, op))
      ensures outcome == Ended ==> nowPos == old(nowPos) && out[..] == old(out[..])
    {
      hide RangeDecoder.Valid, RangeDecoder.Starved, Spelled, PosState, Code, TableSize, Apply;
      assert out[..nowPos] == m.out;
      PosStateFits(m, p);
      TableFits(p);
      ghost var start := rd.trace;
      var posState := Trailing(nowPos, p.pb);
      assert posState == PosState(m, p) by {
        PosStateIs(m, p);
      }
      var ok: bool, bit: nat;
      ok, bit := rd.DecodeBit(IS_MATCH + 16 * state + posState);
      if !ok {
        op := Literal(0);
        CutAfter(start, rd.trace, KindBits(op, m, posState), 0);
        KindCutSpelled(start, rd.trace, op, m, p);
        return Failed, op;
      }
      if bit == 0 {
        outcome, op := StepLiteral(posState, m, start);
        return;
      }
      ok, bit := rd.DecodeBit(IS_REP + state);
      if !ok {
        op := Match(1, 2);
        CutAfter(start, rd.trace, KindBits(op, m, posState), 1);
        KindCutSpelled(start, rd.trace, op, m, p);
        return Failed, op;
      }
      if bit == 0 {
        outcome, op := StepMatch(posState, m, start);
      } else {
        outcome, op := StepRep(posState, m, start);
      }
    }
  }
}

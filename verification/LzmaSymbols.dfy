/**
 Decoding one length, one distance or one literal.
 */
module LzmaSymbols {
  import opened Bytes
  import opened RangeCoder
  import opened BitCodes
  import opened RangeDecoding
  import opened LzmaSyntax
  import opened LzmaUnique

  // ----- Lengths -----

  /** The class of a length: its first decisions, and the tree that tells lengths of the class apart. */
  datatype LengthTree = LengthTree(head: seq<Decision>, tree: nat, numBits: nat, offset: nat)

  function TreeOf(base: nat, posState: nat, cls: nat): LengthTree {
    if cls == 0 then LengthTree([Modelled(base, 0)], base + 2 + 8 * posState, 3, 0)
    else if cls == 1 then LengthTree([Modelled(base, 1), Modelled(base + 1, 0)], base + 130 + 8 * posState, 3, 8)
    else LengthTree([Modelled(base, 1), Modelled(base + 1, 1)], base + 258, 8, 16)
  }

  lemma LengthOfTree(base: nat, posState: nat, cls: nat, v: nat)
    requires cls < 3 && posState < 16 && v < Power(TreeOf(base, posState, cls).numBits)
    ensures var t := TreeOf(base, posState, cls);
            && LengthCode(base, t.offset + v, posState) == t.head + Path(t.tree, Power(t.numBits) + v)
            && t.offset + v < 272 && t.tree + Power(t.numBits) <= base + 514
  {
    SmallPowers();
    hide Path, Power;
  }

  method DecodeLengthClass(rd: RangeDecoder, base: nat, posState: nat)
    returns (ok: bool, tree: nat, numBits: nat, offset: nat, ghost cls: nat)
    requires rd.Valid() && base + 514 <= rd.probs.Length && posState < 16
    modifies rd, rd.probs
    ensures rd.Valid() && cls < 3 && (ok || rd.Starved())
    ensures ok ==> tree == TreeOf(base, posState, cls).tree && numBits == TreeOf(base, posState, cls).numBits
                   && offset == TreeOf(base, posState, cls).offset
    ensures Spelled(ok, old(rd.trace), rd.trace, TreeOf(base, posState, cls).head)
  {
    hide RangeDecoder.Valid;
    var bit: nat;
    ok, bit := rd.DecodeBit(base);
    if !ok {
      return false, 0, 0, 0, 0;
    }
    if bit == 0 {
      return true, base + 2 + 8 * posState, 3, 0, 0;
    }
    ok, bit := rd.DecodeBit(base + 1);
    if !ok {
      return false, 0, 0, 0, 1;
    }
    if bit == 0 {
      return true, base + 130 + 8 * posState, 3, 8, 1;
    } else {
      return true, base + 258, 8, 16, 2;
    }
  }

  method DecodeLength(rd: RangeDecoder, base: nat, posState: nat) returns (ok: bool, l: nat, ghost spelled: nat)
    requires rd.Valid() && base + 514 <= rd.probs.Length && posState < 16
    modifies rd, rd.probs
    ensures rd.Valid() && spelled < 272 && (if ok then l == spelled else rd.Starved())
    ensures Spelled(ok, old(rd.trace), rd.trace, LengthCode(base, spelled, posState))
  {
    hide RangeDecoder.Valid, RangeDecoder.Starved, TreeOf, LengthCode, Path, Power;
    ghost var start := rd.trace;
    var tree: nat, numBits: nat, offset: nat;
    ghost var cls: nat;
    ok, tree, numBits, offset, cls := DecodeLengthClass(rd, base, posState);
    ghost var t := TreeOf(base, posState, cls);
    LengthOfTree(base, posState, cls, 0);
    if !ok {
      SpelledWithin(start, rd.trace, t.head, Path(t.tree, Power(t.numBits)));
      return false, 0, t.offset;
    }
    ok, l, spelled := rd.DecodeTree(tree, numBits);
    LengthOfTree(base, posState, cls, spelled);
    SpelledThen(ok, start, rd.trace, t.head, Path(t.tree, Power(t.numBits) + spelled));
    l, spelled := l + offset, spelled + t.offset;
  }

  // ----- Distances -----

  function Distance(slot: nat, rest: nat): nat {
    if slot < 4 then slot else SlotBase(slot) + rest
  }

  /** Slot and open bits make a distance, and spell it. */
  lemma DistanceOfSlot(slot: nat, rest: nat, l: nat)
    requires slot < 64 && (slot >= 4 ==> rest < Power(SlotBits(slot)))
    ensures Distance(slot, rest) < TWO32
    ensures DistanceCode(Distance(slot, rest), l) == Path(SlotTree(l), 64 + slot) + OpenBits(slot, rest)
  {
    if slot >= 4 {
      SlotIsUnique(slot, rest);
      PowerGrows(SlotBits(slot), 30);
      ThirtyTwo();
      Quadruple(2 + slot % 2, Power(SlotBits(slot)), rest);
    }
  }

  lemma Quadruple(q: nat, p: nat, r: nat)
    requires q <= 3 && r < p
    ensures q * p + r < 4 * p
  {
  }

  /** `rep0 <<= numDirectBits` */
  method ShiftLeft(v: nat, bits: nat) returns (r: nat)
    ensures r == v * Power(bits)
  {
    r := v;
    for i := 0 to bits
      invariant r == v * Power(i)
    {
      Doubled(v, Power(i));
      r := 2 * r;
    }
  }

  /** The bits below a slot from 4 on. */
  method DecodeOpenBits(rd: RangeDecoder, slot: nat) returns (ok: bool, rep0: nat, ghost rest: nat)
    requires rd.Valid() && 4 <= slot < 64 && LITERAL <= rd.probs.Length
    modifies rd, rd.probs
    ensures rd.Valid() && rest < Power(SlotBits(slot)) && (if ok then rep0 == SlotBase(slot) + rest else rd.Starved())
    ensures Spelled(ok, old(rd.trace), rd.trace, OpenBits(slot, rest))
  {
    hide RangeDecoder.Valid, RangeDecoder.Starved, Power, Directs, ReversePath, Spelled;
    var numDirectBits: nat := slot / 2 - 1;
    rep0 := 2 + slot % 2;
    if slot < 14 {
      rep0 := ShiftLeft(rep0, numDirectBits);
      ShortSlotFits(slot);
      var low: nat;
      ok, low, rest := rd.DecodeReverse(SPEC_POS + rep0 - slot - 1, numDirectBits);
      rep0 := rep0 + low;
    } else {
      ok, rep0, rest := DecodeLongRest(rd, slot, rep0, numDirectBits - 4);
    }
  }

  lemma ShortSlotFits(slot: nat)
    requires 4 <= slot < 14
    ensures slot <= SlotBase(slot) && SPEC_POS + SlotBase(slot) - slot - 1 + Power(SlotBits(slot)) <= LITERAL
  {
    SmallPowers();
    assert Power(1) == 2 && Power(2) == 4 && Power(5) == 32;
    assert SlotBits(slot) in {1, 2, 3, 4, 5};
  }

  /** Even odds above, four modelled bits below. */
  method DecodeLongRest(rd: RangeDecoder, slot: nat, lead: nat, bits: nat)
    returns (ok: bool, rep0: nat, ghost rest: nat)
    requires rd.Valid() && 14 <= slot < 64 && LITERAL <= rd.probs.Length
    requires lead == 2 + slot % 2 && bits == SlotBits(slot) - 4
    modifies rd, rd.probs
    ensures rd.Valid() && rest < Power(SlotBits(slot)) && (if ok then rep0 == SlotBase(slot) + rest else rd.Starved())
    ensures Spelled(ok, old(rd.trace), rd.trace, OpenBits(slot, rest))
  {
    hide RangeDecoder.Valid, RangeDecoder.Starved, OpenBits, Directs, ReversePath, SlotBase;
    ghost var start := rd.trace;
    ghost var high: nat, low: nat;
    SmallPowers();
    ok, rep0, high := rd.DecodeDirect(lead, bits);
    LongRest(slot, lead, bits, high, 0);
    if !ok {
      SpelledWithin(start, rd.trace, Directs(high, bits), ReversePath(ALIGN, 0, 4));
      return false, 0, 16 * high;
    }
    rep0 := 16 * rep0;
    var align: nat;
    ok, align, low := rd.DecodeReverse(ALIGN, 4);
    LongRest(slot, lead, bits, high, low);
    SpelledThen(ok, start, rd.trace, Directs(high, bits), ReversePath(ALIGN, low, 4));
    rep0, rest := rep0 + align, 16 * high + low;
  }

  lemma LongRest(slot: nat, lead: nat, bits: nat, high: nat, low: nat)
    requires 14 <= slot < 64 && lead == 2 + slot % 2 && bits == SlotBits(slot) - 4 && high < Power(bits) && low < 16
    ensures 16 * high + low < Power(SlotBits(slot))
    ensures 16 * (lead * Power(bits) + high) + low == SlotBase(slot) + (16 * high + low)
    ensures OpenBits(slot, 16 * high + low) == Directs(high, bits) + ReversePath(ALIGN, low, 4)
  {
    hide Power, Directs, ReversePath;
    PowerUp4(bits);
    LowFour(high, low);
    assert lead == 2 || lead == 3;
  }

  lemma PowerUp4(bits: nat)
    ensures Power(bits + 4) == 16 * Power(bits)
  {
    assert Power(bits + 4) == 2 * Power(bits + 3) == 4 * Power(bits + 2) == 8 * Power(bits + 1);
  }

  lemma LowFour(high: nat, low: nat)
    requires low < 16
    ensures (16 * high + low) / 16 == high && (16 * high + low) % 16 == low
  {
  }

  method DecodeDistance(rd: RangeDecoder, l: nat) returns (ok: bool, d: nat, ghost spelled: nat)
    requires rd.Valid() && LITERAL <= rd.probs.Length
    modifies rd, rd.probs
    ensures rd.Valid() && spelled < TWO32 && (if ok then d == spelled else rd.Starved())
    ensures Spelled(ok, old(rd.trace), rd.trace, DistanceCode(spelled, l))
  {
    hide RangeDecoder.Valid, RangeDecoder.Starved, Path, OpenBits, SlotBase, DistanceCode, Slot, Rest;
    ghost var start := rd.trace;
    SmallPowers();
    var posSlot: nat;
    ghost var slot: nat, rest: nat;
    ok, posSlot, slot := rd.DecodeTree(POS_SLOT + (if l < 4 then l else 3) * 64, 6);
    hide Power, Path, OpenBits, SlotBase, DistanceCode, Slot, Rest;
    DistanceOfSlot(slot, 0, l);
    if !ok {
      SpelledWithin(start, rd.trace, Path(SlotTree(l), 64 + slot), OpenBits(slot, 0));
      return false, 0, Distance(slot, 0);
    }
    if posSlot < 4 {
      NoOpenBits(start, rd.trace, SlotTree(l), slot);
      return true, posSlot, posSlot;
    }
    ok, d, rest := DecodeOpenBits(rd, posSlot);
    DistanceOfSlot(slot, rest, l);
    SpelledThen(ok, start, rd.trace, Path(SlotTree(l), 64 + slot), OpenBits(slot, rest));
    spelled := Distance(slot, rest);
  }

  lemma NoOpenBits(before: seq<Decision>, now: seq<Decision>, tree: nat, slot: nat)
    requires slot < 4 && now == before + Path(tree, 64 + slot)
    ensures now == before + (Path(tree, 64 + slot) + OpenBits(slot, 0))
  {
  }

  // ----- Literals -----

  /** The part of the guide's path that is `size` wide: `guide` itself at 256. */
  function GuideAt(guide: nat, size: nat): nat {
    guide * size / 256
  }

  predicate IsSize(size: nat) {
    size in {1, 2, 4, 8, 16, 32, 64, 128, 256}
  }

  /** One more bit of the guide. */
  lemma GuideStep(guide: nat, size: nat)
    requires IsSize(size) && size < 256
    ensures IsSize(2 * size) && GuideAt(guide, 2 * size) / 2 == GuideAt(guide, size)
  {
    assert guide * (2 * size) == 2 * (guide * size);
  }

  /** The guide of a matched literal, read off the match byte as the source shifts it. */
  lemma MatchBit(matchByte: nat, b: nat, size: nat)
    requires b < 256 && IsSize(size) && size < 256 && matchByte == 2 * (b * size)
    ensures GuideAt(0x100 + b, 2 * size) % 2 == matchByte / 0x100 % 2
  {
    assert (0x100 + b) * (2 * size) == matchByte + 256 * (2 * size);
    assert (matchByte + 256 * (2 * size)) / 256 == matchByte / 256 + 2 * size;
  }

  lemma GuidedStep(start: seq<Decision>, base: nat, guide: nat, g: nat, node: nat, bit: Bit)
    requires node >= 1 && g / 2 == guide
    ensures start + GuidedPath(base, guide, node) +
            [Modelled(if guide == node then base + 0x100 + g % 2 * 0x100 + node else base + node, bit)]
            == start + GuidedPath(base, g, 2 * node + bit)
  {
  }

  /** A code cut short is the start of the code of some byte. */
  lemma {:induction false} GuidedStart(base: nat, guide: nat, size: nat, node: nat) returns (symbol: nat)
    requires IsSize(size) && size <= node < 2 * size
    ensures 0x100 <= symbol < 0x200 && GuidedPath(base, GuideAt(guide, size), node) <= GuidedPath(base, guide, symbol)
    ensures size < 256 ==> |GuidedPath(base, GuideAt(guide, size), node)| < |GuidedPath(base, guide, symbol)|
    decreases 256 - size
  {
    if size == 256 {
      symbol := node;
    } else {
      GuideStep(guide, size);
      symbol := GuidedStart(base, guide, 2 * size, 2 * node);
      assert GuidedPath(base, GuideAt(guide, size), node) < GuidedPath(base, GuideAt(guide, 2 * size), 2 * node);
    }
  }

  /** One bit of a literal, asked for at `index`. */
  method DecodeLiteralBit(rd: RangeDecoder, base: nat, index: nat, node: nat, ghost guide: nat, ghost size: nat,
                          ghost start: seq<Decision>)
    returns (ok: bool, next: nat, bit: Bit, ghost symbol: nat)
    requires rd.Valid() && base + LIT_SIZE <= rd.probs.Length && IsSize(size) && size <= node < 2 * size <= 256
    requires index == if GuideAt(guide, size) == node then base + 0x100 + GuideAt(guide, 2 * size) % 2 * 0x100 + node
             else base + node
    requires rd.trace == start + GuidedPath(base, GuideAt(guide, size), node)
    modifies rd, rd.probs
    ensures rd.Valid() && next == 2 * node + bit
    ensures ok ==> rd.trace == start + GuidedPath(base, GuideAt(guide, 2 * size), next)
    ensures !ok ==> rd.Starved() && 0x100 <= symbol < 0x200
    ensures !ok ==> Spelled(false, start, rd.trace, GuidedPath(base, guide, symbol))
  {
    hide RangeDecoder.Valid;
    ghost var before := rd.trace;
    GuideStep(guide, size);
    symbol := GuidedStart(base, guide, size, node);
    ok, bit := rd.DecodeBit(index);
    next := 2 * node + bit;
    GuidedStep(start, base, GuideAt(guide, size), GuideAt(guide, 2 * size), node, bit);
  }

  /** Bits of a literal that follow no guide, from `node` on. */
  method DecodePlainBits(rd: RangeDecoder, base: nat, first: nat, ghost guide: nat, ghost from: nat,
                         ghost start: seq<Decision>)
    returns (ok: bool, symbol: nat, ghost spelled: nat)
    requires rd.Valid() && base + LIT_SIZE <= rd.probs.Length && IsSize(from) && from <= first < 2 * from
    requires rd.trace == start + GuidedPath(base, GuideAt(guide, from), first)
    requires from == 256 || GuideAt(guide, from) != first
    modifies rd, rd.probs
    ensures rd.Valid() && 0x100 <= spelled < 0x200 && (if ok then symbol == spelled else rd.Starved())
    ensures Spelled(ok, start, rd.trace, GuidedPath(base, guide, spelled))
  {
    hide RangeDecoder.Valid, GuidedPath;
    symbol := first;
    ghost var size := from;
    while symbol < 0x100
      invariant rd.Valid() && IsSize(size) && size <= symbol < 2 * size
      invariant rd.trace == start + GuidedPath(base, GuideAt(guide, size), symbol)
      invariant size == 256 || GuideAt(guide, size) != symbol
      decreases 256 - size
    {
      GuideStep(guide, size);
      var next: nat, bit: nat;
      ok, next, bit, spelled := DecodeLiteralBit(rd, base, base + symbol, symbol, guide, size, start);
      if !ok {
        return false, 0, spelled;
      }
      symbol, size := next, 2 * size;
    }
    assert GuideAt(guide, 256) == guide;
    return true, symbol, symbol;
  }

  lemma GuideStarts(b: nat)
    requires b < 256
    ensures GuideAt(0x100 + b, 1) == 1 && GuideAt(0, 1) == 0
  {
  }

  /** The bits of a literal after a copy, for as long as they follow the byte the copy would have continued with. */
  method DecodeMatchedBits(rd: RangeDecoder, base: nat, b: byte, ghost start: seq<Decision>)
    returns (ok: bool, symbol: nat, ghost size: nat, ghost spelled: nat)
    requires rd.Valid() && base + LIT_SIZE <= rd.probs.Length && rd.trace == start
    modifies rd, rd.probs
    ensures rd.Valid() && 0x100 <= spelled < 0x200 && (ok || rd.Starved())
    ensures if ok then IsSize(size) && size <= symbol < 2 * size &&
            (size == 256 || GuideAt(0x100 + b as nat, size) != symbol)
                       && rd.trace == start + GuidedPath(base, GuideAt(0x100 + b as nat, size), symbol)
            else Spelled(false, start, rd.trace, GuidedPath(base, 0x100 + b as nat, spelled))
  {
    var byte: nat := b;
    ghost var guide := 0x100 + byte;
    GuideStarts(byte);
    assert GuidedPath(base, 1, 1) == [];
    hide RangeDecoder.Valid, RangeDecoder.Starved, Spelled, GuidedPath, GuideAt;
    var matchByte: nat := byte;
    symbol, size, spelled := 1, 1, 0x100;
    while symbol < 0x100
      invariant rd.Valid() && IsSize(size) && size <= symbol < 2 * size && 0x100 <= spelled < 0x200
      invariant GuideAt(guide, size) == symbol && matchByte == byte * size
      invariant rd.trace == start + GuidedPath(base, GuideAt(guide, size), symbol)
      decreases 256 - size
    {
      matchByte := 2 * matchByte;
      var bit: nat := matchByte / 0x100 % 2;
      MatchBit(matchByte, byte, size);
      GuideStep(guide, size);
      var next: nat, decoded: nat;
      ok, next, decoded, spelled := DecodeLiteralBit(rd, base, base + 0x100 + bit * 0x100 + symbol, symbol, guide,
        size, start);
      if !ok {
        return;
      }
      assert GuideAt(guide, 2 * size) == 2 * symbol + bit;
      Doubled(byte, size);
      symbol, size := next, 2 * size;
      spelled := 0x100;
      if decoded != bit {
        return true, symbol, size, spelled;
      }
    }
    return true, symbol, size, spelled;
  }

  /** A literal, guided by the byte a copy would have continued with if there was a copy before it. */
  method DecodeLiteral(rd: RangeDecoder, base: nat, matched: bool, b: byte)
    returns (ok: bool, symbol: nat, ghost spelled: nat)
    requires rd.Valid() && base + LIT_SIZE <= rd.probs.Length
    modifies rd, rd.probs
    ensures rd.Valid() && 0x100 <= spelled < 0x200 && (if ok then symbol == spelled else rd.Starved())
    ensures Spelled(ok, old(rd.trace), rd.trace, GuidedPath(base, if matched then 0x100 + b as nat else 0, spelled))
  {
    ghost var start := rd.trace;
    GuideStarts(b);
    assert GuidedPath(base, 0, 1) == [] && GuidedPath(base, 1, 1) == [];
    assert start == start + [];
    hide RangeDecoder.Valid, RangeDecoder.Starved, Spelled, GuidedPath, GuideAt;
    symbol := 1;
    ghost var size: nat := 1;
    if matched {
      ok, symbol, size, spelled := DecodeMatchedBits(rd, base, b, start);
      if !ok {
        return;
      }
    }
    ok, symbol, spelled := DecodePlainBits(rd, base, symbol, if matched then 0x100 + b as nat else 0, size, start);
  }
}

/**
 No two operations are spelled alike: their codes part at a question they answer differently.
 A number therefore determines the whole list of operations.
 */
module LzmaUnique {
  import opened Bytes
  import opened RangeCoder
  import opened BitCodes
  import opened LzmaSyntax

  // ----- Lengths -----

  lemma TreesDiverge(base: nat, n: nat, v: nat, w: nat)
    requires v < Power(n) && w < Power(n) && v != w
    ensures Diverge(Path(base, Power(n) + v), Path(base, Power(n) + w))
  {
    hide Path, SameDepth, Diverge, Power;
    PowerDepth(n, v, w);
    PathsDiverge(base, Power(n) + v, Power(n) + w);
  }

  lemma SmallPowers()
    ensures Power(3) == 8 && Power(4) == 16 && Power(6) == 64 && Power(8) == 256
  {
    assert Power(2) == 2 * Power(1) == 4 * Power(0);
    assert Power(4) == 2 * Power(3) == 4 * Power(2);
    assert Power(6) == 2 * Power(5) == 4 * Power(4);
    assert Power(8) == 2 * Power(7) == 4 * Power(6);
  }

  function LengthClass(l: nat): nat {
    if l < 8 then 0 else if l < 16 then 1 else 2
  }

  lemma LengthsDiverge(base: nat, l: nat, l': nat, posState: nat)
    requires l < 272 && l' < 272 && l != l'
    ensures Diverge(LengthCode(base, l, posState), LengthCode(base, l', posState))
  {
    SmallPowers();
    if LengthClass(l) == LengthClass(l') {
      SameClassDiverges(base, l, l', posState);
    } else {
      OtherClassDiverges(base, l, l', posState);
    }
  }

  lemma SameClassDiverges(base: nat, l: nat, l': nat, posState: nat)
    requires l < 272 && l' < 272 && l != l' && LengthClass(l) == LengthClass(l')
    ensures Diverge(LengthCode(base, l, posState), LengthCode(base, l', posState))
  {
    SmallPowers();
    hide Path, Power;
    if l < 8 {
      TreesDiverge(base + 2 + 8 * posState, 3, l, l');
      DivergeBehind([Modelled(base, 0)], Path(base + 2 + 8 * posState, 8 + l), Path(base + 2 + 8 * posState, 8 + l'));
    } else if l < 16 {
      TreesDiverge(base + 130 + 8 * posState, 3, l - 8, l' - 8);
      DivergeBehind([Modelled(base, 1), Modelled(base + 1, 0)], Path(base + 130 + 8 * posState, l),
        Path(base + 130 + 8 * posState, l'));
    } else {
      TreesDiverge(base + 258, 8, l - 16, l' - 16);
      DivergeBehind([Modelled(base, 1), Modelled(base + 1, 1)], Path(base + 258, 240 + l), Path(base + 258, 240 + l'));
    }
  }

  lemma OtherClassDiverges(base: nat, l: nat, l': nat, posState: nat)
    requires LengthClass(l) != LengthClass(l')
    ensures Diverge(LengthCode(base, l, posState), LengthCode(base, l', posState))
  {
    var s, t := LengthCode(base, l, posState), LengthCode(base, l', posState);
    hide Path;
    if LengthClass(l) == 0 || LengthClass(l') == 0 {
      assert s[..0] == t[..0];
      assert SameQuestion(s[0], t[0]) && s[0].bit != t[0].bit;
    } else {
      assert s[..1] == [Modelled(base, 1)] == t[..1];
      assert SameQuestion(s[1], t[1]) && s[1].bit != t[1].bit;
    }
  }

  // ----- Distances -----

  lemma CodeOfDistance(d: nat, l: nat)
    ensures DistanceCode(d, l) == Path(SlotTree(l), 64 + Slot(d)) + OpenBits(Slot(d), Rest(d))
  {
    hide Path, OpenBits, Slot, Rest, SlotTree;
  }

  lemma SlotsDiverge(d: nat, d': nat, l: nat)
    requires d < TWO32 && d' < TWO32 && Slot(d) != Slot(d')
    ensures Diverge(DistanceCode(d, l), DistanceCode(d', l))
  {
    hide *;
    SlotsFit(d);
    SlotsFit(d');
    SmallPowers();
    CodeOfDistance(d, l);
    CodeOfDistance(d', l);
    TreesDiverge(SlotTree(l), 6, Slot(d), Slot(d'));
    DivergeBefore(Path(SlotTree(l), 64 + Slot(d)), OpenBits(Slot(d), Rest(d)),
                  Path(SlotTree(l), 64 + Slot(d')), OpenBits(Slot(d'), Rest(d')));
  }

  lemma SameSlotDiverge(d: nat, d': nat, l: nat)
    requires d < TWO32 && d' < TWO32 && d != d' && Slot(d) == Slot(d')
    ensures Diverge(DistanceCode(d, l), DistanceCode(d', l))
  {
    hide *;
    CodeOfDistance(d, l);
    CodeOfDistance(d', l);
    SameSlotRests(d, d');
    OpenBitsDiverge(Slot(d), Rest(d), Rest(d'));
    DivergeBehind(Path(SlotTree(l), 64 + Slot(d)), OpenBits(Slot(d), Rest(d)), OpenBits(Slot(d'), Rest(d')));
  }

  lemma DistancesDiverge(d: nat, d': nat, l: nat)
    requires d < TWO32 && d' < TWO32 && d != d'
    ensures Diverge(DistanceCode(d, l), DistanceCode(d', l))
  {
    hide *;
    if Slot(d) != Slot(d') {
      SlotsDiverge(d, d', l);
    } else {
      SameSlotDiverge(d, d', l);
    }
  }

  lemma SlotsFit(d: nat)
    requires d < TWO32
    ensures Slot(d) < 64
  {
    ThirtyTwo();
    SlotBound(d, 32);
  }

  lemma ThirtyTwo()
    ensures Power(32) == TWO32 && Power(30) == 0x4000_0000
  {
    SmallPowers();
    assert Power(16) == 65536 by {
      assert Power(12) == 16 * Power(8) by {
        assert Power(12) == 2 * Power(11) == 4 * Power(10) == 8 * Power(9);
      }
      assert Power(16) == 2 * Power(15) == 4 * Power(14) == 8 * Power(13);
    }
    assert Power(24) == 65536 * 256 by {
      assert Power(20) == 16 * Power(16) by {
        assert Power(20) == 2 * Power(19) == 4 * Power(18) == 8 * Power(17);
      }
      assert Power(24) == 2 * Power(23) == 4 * Power(22) == 8 * Power(21);
    }
    assert Power(28) == 2 * Power(27) == 4 * Power(26) == 8 * Power(25) == 16 * Power(24);
    assert Power(32) == 2 * Power(31) == 4 * Power(30) == 8 * Power(29) == 16 * Power(28);
  }

  lemma SameSlotRests(d: nat, d': nat)
    requires Slot(d) == Slot(d') && d != d'
    ensures Slot(d) >= 4 && Rest(d) != Rest(d')
    ensures Rest(d) < Power(SlotBits(Slot(d))) && Rest(d') < Power(SlotBits(Slot(d)))
  {
    if d >= 4 && d' >= 4 {
      SlotRange(d);
      SlotRange(d');
    }
  }

  lemma OpenBitsDiverge(slot: nat, r: nat, r': nat)
    requires 4 <= slot && r < Power(SlotBits(slot)) && r' < Power(SlotBits(slot)) && r != r'
    ensures Diverge(OpenBits(slot, r), OpenBits(slot, r'))
  {
    hide Power;
    if slot < 14 {
      var base := SPEC_POS + SlotBase(slot) - slot - 1;
      RestsDiverge(base, r, r', SlotBits(slot));
    } else {
      var n := SlotBits(slot) - 4;
      SplitPower(n, r);
      SplitPower(n, r');
      if r / 16 != r' / 16 {
        DirectsDiverge(r / 16, r' / 16, n);
        hide Directs, ReversePath;
        DivergeBefore(Directs(r / 16, n), ReversePath(ALIGN, r % 16, 4), Directs(r' / 16, n),
          ReversePath(ALIGN, r' % 16, 4));
      } else {
        SmallPowers();
        RestsDiverge(ALIGN, r % 16, r' % 16, 4);
        hide Directs, ReversePath;
        DivergeBehind(Directs(r / 16, n), ReversePath(ALIGN, r % 16, 4), ReversePath(ALIGN, r' % 16, 4));
      }
    }
  }

  lemma SplitPower(n: nat, r: nat)
    requires r < Power(n + 4)
    ensures r / 16 < Power(n)
  {
    assert Power(n + 4) == 2 * Power(n + 3) == 4 * Power(n + 2) == 8 * Power(n + 1) == 16 * Power(n);
  }

  lemma RestsDiverge(base: nat, v: nat, w: nat, n: nat)
    requires v < Power(n) && w < Power(n) && v != w
    ensures Diverge(ReversePath(base, v, n), ReversePath(base, w, n))
  {
    if SameBits(v, w, n) {
      SameBitsEqual(v, w, n);
    } else {
      ReversePathsDiverge(base, v, w, n);
    }
  }

  // ----- Operations -----

  function Kind(op: Op): nat {
    match op
    case Literal(_) => 0
    case Match(_, _) => 1
    case ShortRep => 2
    case Rep(which, _) => if which < 4 then 3 + which else 6
  }

  lemma DivergeAt(s: seq<Decision>, t: seq<Decision>, k: nat)
    requires k < |s| && k < |t| && s[..k] == t[..k] && SameQuestion(s[k], t[k]) && s[k].bit != t[k].bit
    ensures Diverge(s, t) && Diverge(t, s)
  {
  }

  /** Where the decisions for two kinds part. */
  function Parting(a: nat, b: nat): nat {
    if a == 0 then 0 else if a == 1 then 1
    else if a == 2 then (if b == 3 then 3 else 2)
    else if a == 3 then 2 else if a == 4 then 3 else 4
  }

  lemma KindsPart(a: Op, b: Op, m: Machine, posState: nat)
    requires Kind(a) < Kind(b)
    ensures Diverge(KindBits(a, m, posState), KindBits(b, m, posState))
    ensures Diverge(KindBits(b, m, posState), KindBits(a, m, posState))
  {
    var s, t, k := KindBits(a, m, posState), KindBits(b, m, posState), Parting(Kind(a), Kind(b));
    assert k < |s| && k < |t|;
    assert SameQuestion(s[k], t[k]) && s[k].bit != t[k].bit;
    assert s[..k] == t[..k];
    DivergeAt(s, t, k);
  }

  lemma BodiesDiverge(a: Op, b: Op, m: Machine, p: Properties)
    requires Sound(m) && WellFormed(a) && WellFormed(b) && p.lc <= 8
    requires Kind(a) == Kind(b) && a != b
    ensures KindBits(a, m, PosState(m, p)) == KindBits(b, m, PosState(m, p))
    ensures Diverge(Body(a, m, p), Body(b, m, p))
  {
    hide GuidedPath, LengthCode, DistanceCode, Diverge, LiteralTree, Guide, PosState, RepBits;
    match a
    case Literal(x) =>
      LiteralsDiverge(LiteralTree(m, p), Guide(m), x, b.b);
    case Match(d, l) =>
      MatchesDiverge(d - 1, l - 2, b.distance - 1, b.length - 2, PosState(m, p));
    case ShortRep =>
      assert false;
    case Rep(w, l) =>
      LengthsDiverge(REP_LEN_CODER, l - 2, b.length - 2, PosState(m, p));
  }

  lemma LiteralsDiverge(base: nat, guide: nat, x: byte, y: byte)
    requires x != y
    ensures Diverge(GuidedPath(base, guide, 0x100 + x), GuidedPath(base, guide, 0x100 + y))
  {
    SmallPowers();
    PowerDepth(8, x, y);
    hide GuidedPath, Power;
    GuidedPathsDiverge(base, guide, 0x100 + x, 0x100 + y);
  }

  lemma MatchesDiverge(d: nat, l: nat, d': nat, l': nat, posState: nat)
    requires d < TWO32 && d' < TWO32 && l < 272 && l' < 272 && (d != d' || l != l')
    ensures Diverge(LengthCode(LEN_CODER, l, posState) + DistanceCode(d, l),
            LengthCode(LEN_CODER, l', posState) + DistanceCode(d', l'))
  {
    hide LengthCode, DistanceCode;
    if l != l' {
      LengthsDiverge(LEN_CODER, l, l', posState);
      DivergeBefore(LengthCode(LEN_CODER, l, posState), DistanceCode(d, l), LengthCode(LEN_CODER, l', posState),
        DistanceCode(d', l'));
    } else {
      DistancesDiverge(d, d', l);
      DivergeBehind(LengthCode(LEN_CODER, l, posState), DistanceCode(d, l), DistanceCode(d', l));
    }
  }

  /** Different operations in the same situation are spelled differently. */
  lemma OperationsDiverge(a: Op, b: Op, m: Machine, p: Properties)
    requires Sound(m) && WellFormed(a) && WellFormed(b) && p.lc <= 8 && a != b
    ensures Diverge(Code(a, m, p), Code(b, m, p))
  {
    if Kind(a) == Kind(b) {
      BodiesDiverge(a, b, m, p);
      hide *;
      DivergeBehind(KindBits(a, m, PosState(m, p)), Body(a, m, p), Body(b, m, p));
    } else {
      if Kind(a) < Kind(b) {
        KindsPart(a, b, m, PosState(m, p));
      } else {
        KindsPart(b, a, m, PosState(m, p));
      }
      hide *;
      DivergeBefore(KindBits(a, m, PosState(m, p)), Body(a, m, p), KindBits(b, m, PosState(m, p)), Body(b, m, p));
    }
  }
}

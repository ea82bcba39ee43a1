/**
 The codes that values have as lists of decisions, and why no two values share one: where
 two codes part, the same question has different answers.
 */
module BitCodes {
  import opened Bytes
  import opened RangeCoder

  function Power(n: nat): (p: nat)
    ensures p >= 1
  {
    if n == 0 then 1 else 2 * Power(n - 1)
  }

  /** A path through a binary tree of probabilities: the decisions from the root 1 to `node`. */
  function Path(base: nat, node: nat): seq<Decision> {
    if node <= 1 then [] else Path(base, node / 2) + [Modelled(base + node / 2, node % 2)]
  }

  /** A path that asks from a second table as long as it follows the path to `guide`. */
  function GuidedPath(base: nat, guide: nat, node: nat): seq<Decision> {
    if node <= 1 then [] else
      var before := node / 2;
      var index := if guide / 2 == before then base + 0x100 + guide % 2 * 0x100 + before else base + before;
      GuidedPath(base, guide / 2, before) + [Modelled(index, node % 2)]
  }

  /** Bit k of v. */
  function BitOf(v: nat, k: nat): Bit {
    if k == 0 then v % 2 else BitOf(v / 2, k - 1)
  }

  /** The tree node that the first n bits of v lead to, lowest bit first. */
  function Mirror(v: nat, n: nat): (m: nat)
    ensures m >= 1
  {
    if n == 0 then 1 else 2 * Mirror(v, n - 1) + BitOf(v, n - 1)
  }

  /** The decisions that spell the first n bits of v, lowest bit first. */
  function ReversePath(base: nat, v: nat, n: nat): seq<Decision> {
    if n == 0 then [] else ReversePath(base, v, n - 1) + [Modelled(base + Mirror(v, n - 1), BitOf(v, n - 1))]
  }

  /** n bits with even odds, highest bit first. */
  function Directs(v: nat, n: nat): seq<Decision> {
    if n == 0 then [] else Directs(v / 2, n - 1) + [Direct(v % 2)]
  }

  // ----- Codes built from codes -----

  lemma DivergeBehind(a: seq<Decision>, s: seq<Decision>, t: seq<Decision>)
    requires Diverge(s, t)
    ensures Diverge(a + s, a + t)
  {
    var k :| 0 <= k < |s| && k < |t| && s[..k] == t[..k] && SameQuestion(s[k], t[k]) && s[k].bit != t[k].bit;
    assert (a + s)[..|a| + k] == a + s[..k] && (a + t)[..|a| + k] == a + t[..k];
    assert (a + s)[|a| + k] == s[k] && (a + t)[|a| + k] == t[k];
  }

  lemma DivergeBefore(s: seq<Decision>, x: seq<Decision>, t: seq<Decision>, y: seq<Decision>)
    requires Diverge(s, t)
    ensures Diverge(s + x, t + y)
  {
    var k :| 0 <= k < |s| && k < |t| && s[..k] == t[..k] && SameQuestion(s[k], t[k]) && s[k].bit != t[k].bit;
    assert (s + x)[..k] == s[..k] && (t + y)[..k] == t[..k];
    assert (s + x)[k] == s[k] && (t + y)[k] == t[k];
  }

  lemma DivergeHere(a: seq<Decision>, c: Decision, d: Decision)
    requires SameQuestion(c, d) && c.bit != d.bit
    ensures Diverge(a + [c], a + [d])
  {
    var s, t := a + [c], a + [d];
    assert s[..|a|] == t[..|a|];
    assert SameQuestion(s[|a|], t[|a|]);
  }

  predicate SameDepth(v: nat, w: nat) {
    if v <= 1 || w <= 1 then v == 1 && w == 1 else SameDepth(v / 2, w / 2)
  }

  lemma {:induction false} PowerDepth(n: nat, v: nat, w: nat)
    requires v < Power(n) && w < Power(n)
    ensures SameDepth(Power(n) + v, Power(n) + w)
  {
    if n > 0 {
      PowerDepth(n - 1, v / 2, w / 2);
      assert (Power(n) + v) / 2 == Power(n - 1) + v / 2 && (Power(n) + w) / 2 == Power(n - 1) + w / 2;
    }
  }

  lemma {:induction false} GuidedPathsDiverge(base: nat, guide: nat, v: nat, w: nat)
    requires SameDepth(v, w) && v != w
    ensures Diverge(GuidedPath(base, guide, v), GuidedPath(base, guide, w))
  {
    if v / 2 != w / 2 {
      GuidedPathsDiverge(base, guide / 2, v / 2, w / 2);
      DivergeLast(GuidedPath(base, guide / 2, v / 2), GuidedPath(base, guide / 2, w / 2),
                  GuidedPath(base, guide, v), GuidedPath(base, guide, w));
    } else {
      var index := if guide / 2 == v / 2 then base + 0x100 + guide % 2 * 0x100 + v / 2 else base + v / 2;
      DivergeHere(GuidedPath(base, guide / 2, v / 2), Modelled(index, v % 2), Modelled(index, w % 2));
    }
  }

  lemma DivergeLast(s: seq<Decision>, t: seq<Decision>, s': seq<Decision>, t': seq<Decision>)
    requires Diverge(s, t) && s <= s' && t <= t'
    ensures Diverge(s', t')
  {
    DivergeBefore(s, s'[|s|..], t, t'[|t|..]);
    assert s + s'[|s|..] == s' && t + t'[|t|..] == t';
  }

  lemma {:induction false} PathsDiverge(base: nat, v: nat, w: nat)
    requires SameDepth(v, w) && v != w
    ensures Diverge(Path(base, v), Path(base, w))
  {
    if v / 2 != w / 2 {
      PathsDiverge(base, v / 2, w / 2);
      DivergeLast(Path(base, v / 2), Path(base, w / 2), Path(base, v), Path(base, w));
    } else {
      DivergeHere(Path(base, v / 2), Modelled(base + v / 2, v % 2), Modelled(base + v / 2, w % 2));
    }
  }

  lemma {:induction false} DirectsDiverge(v: nat, w: nat, n: nat)
    requires v < Power(n) && w < Power(n) && v != w
    ensures Diverge(Directs(v, n), Directs(w, n))
  {
    if v / 2 != w / 2 {
      DirectsDiverge(v / 2, w / 2, n - 1);
      DivergeLast(Directs(v / 2, n - 1), Directs(w / 2, n - 1), Directs(v, n), Directs(w, n));
    } else {
      DivergeHere(Directs(v / 2, n - 1), Direct(v % 2), Direct(w % 2));
    }
  }

  predicate SameBits(v: nat, w: nat, n: nat) {
    n > 0 ==> SameBits(v, w, n - 1) && BitOf(v, n - 1) == BitOf(w, n - 1)
  }

  lemma {:induction false} SameBitsHalf(v: nat, w: nat, n: nat)
    requires SameBits(v, w, n + 1)
    ensures SameBits(v / 2, w / 2, n) && v % 2 == w % 2
  {
    if n > 0 {
      SameBitsHalf(v, w, n - 1);
    }
  }

  lemma {:induction false} SameBitsEqual(v: nat, w: nat, n: nat)
    requires SameBits(v, w, n) && v < Power(n) && w < Power(n)
    ensures v == w
  {
    if n > 0 {
      SameBitsHalf(v, w, n - 1);
      SameBitsEqual(v / 2, w / 2, n - 1);
    }
  }

  lemma {:induction false} SameBitsSamePath(base: nat, v: nat, w: nat, n: nat)
    requires SameBits(v, w, n)
    ensures Mirror(v, n) == Mirror(w, n) && ReversePath(base, v, n) == ReversePath(base, w, n)
  {
    if n > 0 {
      SameBitsSamePath(base, v, w, n - 1);
    }
  }

  lemma {:induction false} ReversePathsDiverge(base: nat, v: nat, w: nat, n: nat)
    requires !SameBits(v, w, n)
    ensures Diverge(ReversePath(base, v, n), ReversePath(base, w, n))
  {
    var s, t := ReversePath(base, v, n - 1), ReversePath(base, w, n - 1);
    if SameBits(v, w, n - 1) {
      SameBitsSamePath(base, v, w, n - 1);
      var index := base + Mirror(v, n - 1);
      DivergeHere(s, Modelled(index, BitOf(v, n - 1)), Modelled(index, BitOf(w, n - 1)));
    } else {
      ReversePathsDiverge(base, v, w, n - 1);
      DivergeLast(s, t, ReversePath(base, v, n), ReversePath(base, w, n));
    }
  }

  // ----- The start of a code is the start of the code of some value -----

  lemma {:induction false} PathStart(base: nat, node: nat, k: nat, n: nat) returns (v: nat)
    requires k <= n && Power(k) <= node < 2 * Power(k)
    ensures v < Power(n) && Path(base, node) <= Path(base, Power(n) + v)
    ensures k < n ==> |Path(base, node)| < |Path(base, Power(n) + v)|
    decreases n - k
  {
    if k == n {
      v := node - Power(n);
    } else {
      v := PathStart(base, 2 * node, k + 1, n);
      assert Path(base, node) <= Path(base, 2 * node);
    }
  }

  lemma {:induction false} DirectsStart(v: nat, k: nat, n: nat) returns (w: nat)
    requires k <= n && v < Power(k)
    ensures w < Power(n) && Directs(v, k) <= Directs(w, n) && |Directs(w, n)| == n && |Directs(v, k)| == k
    decreases n - k
  {
    if k == n {
      w := v;
      DirectsSize(v, k);
    } else {
      w := DirectsStart(2 * v, k + 1, n);
      assert Directs(v, k) <= Directs(2 * v, k + 1);
    }
  }

  lemma {:induction false} DirectsSize(v: nat, k: nat)
    ensures |Directs(v, k)| == k
  {
    if k > 0 {
      DirectsSize(v / 2, k - 1);
    }
  }

  lemma {:induction false} ReversePathStart(base: nat, v: nat, k: nat, n: nat)
    requires k <= n
    ensures ReversePath(base, v, k) <= ReversePath(base, v, n)
    ensures |ReversePath(base, v, n)| == |ReversePath(base, v, k)| + n - k
  {
    if k < n {
      ReversePathStart(base, v, k, n - 1);
    }
  }

  lemma {:induction false} PowerGrows(k: nat, n: nat)
    requires k <= n
    ensures Power(k) <= Power(n)
  {
    if k < n {
      PowerGrows(k, n - 1);
    }
  }
}

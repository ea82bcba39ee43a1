/**
 Byte strings and the big-endian words of a flattened device tree.
 */
module Bytes {

  type byte = x: int | 0 <= x < 256

  const TWO32: int := 0x1_0000_0000
  const TWO64: int := 0x1_0000_0000_0000_0000

  /** The low 32 bits of v as four bytes, most significant first. */
  function Be32(v: nat): (s: seq<byte>)
    ensures |s| == 4
  {
    [v / 0x100_0000 % 0x100, v / 0x1_0000 % 0x100, v / 0x100 % 0x100, v % 0x100]
  }

  function Word(b: seq<byte>, off: nat): (v: nat)
    requires off + 4 <= |b|
    ensures v < TWO32
  {
    var b0: int, b1: int, b2: int, b3: int := b[off], b[off + 1], b[off + 2], b[off + 3];
    b0 * 0x100_0000 + b1 * 0x1_0000 + b2 * 0x100 + b3
  }

  lemma DigitsOfWord(v: nat)
    requires v < TWO32
    ensures v / 0x100_0000 * 0x100_0000 + v / 0x1_0000 % 0x100 * 0x1_0000 + v / 0x100 % 0x100 * 0x100 + v % 0x100 == v
  {
    var x, y := v / 0x100, v / 0x1_0000;
    assert v == x * 0x100 + v % 0x100;
    assert x / 0x100 == y && x == y * 0x100 + x % 0x100;
    assert y / 0x100 == v / 0x100_0000 && y == y / 0x100 * 0x100 + y % 0x100;
  }

  lemma WordOfBe32(v: nat, b: seq<byte>, off: nat)
    requires v < TWO32 && off + 4 <= |b| && b[off..off + 4] == Be32(v)
    ensures Word(b, off) == v
  {
    var s := Be32(v);
    var t := b[off..off + 4];
    assert b[off] == t[0] == s[0] && b[off + 1] == t[1] == s[1] && b[off + 2] == t[2] == s[2] &&
           b[off + 3] == t[3] == s[3];
    DigitsOfWord(v);
  }

  function Be64(v: nat): (s: seq<byte>)
    ensures |s| == 8
  {
    Be32(v / TWO32) + Be32(v % TWO32)
  }

  function Word64(b: seq<byte>, off: nat): (v: nat)
    requires off + 8 <= |b|
    ensures v < TWO64
  {
    Word(b, off) * TWO32 + Word(b, off + 4)
  }

  lemma Word64OfBe64(v: nat, b: seq<byte>, off: nat)
    requires v < TWO64 && off + 8 <= |b| && b[off..off + 8] == Be64(v)
    ensures Word64(b, off) == v
  {
    assert b[off..off + 4] == b[off..off + 8][..4] == Be32(v / TWO32);
    assert b[off + 4..off + 8] == b[off..off + 8][4..] == Be32(v % TWO32);
    WordOfBe32(v / TWO32, b, off);
    WordOfBe32(v % TWO32, b, off + 4);
  }

  function Align4(n: nat): (m: nat)
    ensures n <= m < n + 4 && m % 4 == 0
  {
    (n + 3) / 4 * 4
  }

  /** Nothing but [s0, s1) and [t0, t1) differs. */
  ghost predicate OnlyIn(a: seq<byte>, b: seq<byte>, s0: nat, s1: nat, t0: nat, t1: nat) {
    |a| == |b| && forall i :: 0 <= i < |a| && !(s0 <= i < s1) && !(t0 <= i < t1) ==> a[i] == b[i]
  }

  lemma OnlyInChain(a: seq<byte>, b: seq<byte>, c: seq<byte>, s0: nat, s1: nat, s2: nat, t0: nat, t1: nat, t2: nat)
    requires s0 <= s1 <= s2 && t0 <= t1 <= t2
    requires OnlyIn(a, b, s0, s1, t0, t1) && OnlyIn(b, c, s1, s2, t1, t2)
    ensures OnlyIn(a, c, s0, s2, t0, t2)
  {
  }

  /** The bytes s are at `off`. */
  ghost predicate Has(b: seq<byte>, off: nat, s: seq<byte>) {
    off + |s| <= |b| && b[off..off + |s|] == s
  }

  lemma HasKept(a: seq<byte>, b: seq<byte>, s0: nat, s1: nat, t0: nat, t1: nat, off: nat, s: seq<byte>)
    requires OnlyIn(a, b, s0, s1, t0, t1) && Has(a, off, s)
    requires (off + |s| <= s0 || s1 <= off) && (off + |s| <= t0 || t1 <= off)
    ensures Has(b, off, s)
  {
    assert a[off..off + |s|] == b[off..off + |s|];
  }

  lemma HasConcat(b: seq<byte>, off: nat, s: seq<byte>, t: seq<byte>)
    ensures Has(b, off, s + t) <==> Has(b, off, s) && Has(b, off + |s|, t)
  {
    if off + |s| + |t| <= |b| {
      var u := b[off..off + |s| + |t|];
      assert u == b[off..off + |s|] + b[off + |s|..off + |s| + |t|];
      assert u[..|s|] == b[off..off + |s|] && u[|s|..] == b[off + |s|..off + |s| + |t|];
      assert (s + t)[..|s|] == s && (s + t)[|s|..] == t;
    }
  }

  lemma HasWord(b: seq<byte>, off: nat, v: nat)
    requires Has(b, off, Be32(v)) && v < TWO32
    ensures off + 4 <= |b| && Word(b, off) == v
  {
    WordOfBe32(v, b, off);
  }

  /** `memcpy` */
  method Put(a: array<byte>, off: nat, s: seq<byte>)
    requires off + |s| <= a.Length
    modifies a
    ensures Has(a[..], off, s)
    ensures OnlyIn(old(a[..]), a[..], off, off + |s|, 0, 0)
  {
    for i := 0 to |s|
      invariant a[off..off + i] == s[..i]
      invariant forall k :: 0 <= k < a.Length && !(off <= k < off + i) ==> a[k] == old(a[k])
    {
      a[off + i] := s[i];
      assert a[off..off + i + 1] == a[off..off + i] + [s[i]];
    }
    assert a[..][off..off + |s|] == a[off..off + |s|];
  }

  method PutWord(a: array<byte>, off: nat, v: nat)
    requires off + 4 <= a.Length
    modifies a
    ensures Has(a[..], off, Be32(v))
    ensures OnlyIn(old(a[..]), a[..], off, off + 4, 0, 0)
  {
    Put(a, off, Be32(v));
  }
}

/**
 A flat memory of bytes with little-endian words, as the tables of the firmware see it.
 */
module Memory {
  import opened Bytes

  /** The low 32 bits of v as four bytes, least significant first. */
  function Le32(v: nat): (s: seq<byte>)
    ensures |s| == 4
  {
    [v % 0x100, v / 0x100 % 0x100, v / 0x1_0000 % 0x100, v / 0x100_0000 % 0x100]
  }

  /** A byte of memory; where there is no memory a read gives ones. */
  function Peek(m: seq<byte>, at: nat): byte {
    if at < |m| then m[at] else 0xFF
  }

  function Read32(m: seq<byte>, at: nat): (v: nat)
    ensures v < TWO32
  {
    var b0: int, b1: int, b2: int, b3: int := Peek(m, at), Peek(m, at + 1), Peek(m, at + 2), Peek(m, at + 3);
    b0 + b1 * 0x100 + b2 * 0x1_0000 + b3 * 0x100_0000
  }

  /** n bytes of memory. */
  function Slice(m: seq<byte>, at: nat, n: nat): (s: seq<byte>)
    ensures |s| == n
  {
    if n == 0 then [] else Slice(m, at, n - 1) + [Peek(m, at + n - 1)]
  }

  lemma {:induction false} SliceOfHas(m: seq<byte>, at: nat, s: seq<byte>)
    requires Has(m, at, s)
    ensures Slice(m, at, |s|) == s
  {
    if s != [] {
      var n := |s| - 1;
      var t := m[at..at + |s|];
      assert m[at..at + n] == t[..n] && m[at + n] == t[n];
      SliceOfHas(m, at, s[..n]);
      assert s == s[..n] + [s[n]];
    }
  }

  lemma ReadOfLe32(m: seq<byte>, at: nat, v: nat)
    requires Has(m, at, Le32(v)) && v < TWO32
    ensures Read32(m, at) == v
  {
    var s, t := Le32(v), m[at..at + 4];
    assert m[at] == t[0] == s[0] && m[at + 1] == t[1] == s[1] && m[at + 2] == t[2] == s[2] && m[at + 3] == t[3] == s[3];
    hide Has;
    DigitsOfWord(v);
  }

  lemma HasPart(m: seq<byte>, at: nat, a: seq<byte>, s: seq<byte>, b: seq<byte>)
    requires Has(m, at, a + s + b)
    ensures Has(m, at + |a|, s)
  {
    HasConcat(m, at, a + s, b);
    HasConcat(m, at, a, s);
  }

  // ----- Numbers in memory -----

  /** The number in n bytes, lowest byte first. */
  function Little(m: seq<byte>, at: int, n: nat): nat
    decreases n
  {
    if n == 0 || at < 0 || at >= |m| then 0 else m[at] + 256 * Little(m, at + 1, n - 1)
  }

  lemma Four(m: seq<byte>, at: nat)
    requires at + 4 <= |m|
    ensures Read32(m, at) == Little(m, at, 4)
  {
    assert Little(m, at + 3, 1) == m[at + 3] + 256 * Little(m, at + 4, 0);
    assert Little(m, at + 2, 2) == m[at + 2] + 256 * Little(m, at + 3, 1);
    assert Little(m, at + 1, 3) == m[at + 1] + 256 * Little(m, at + 2, 2);
  }

  lemma Eight(m: seq<byte>, at: nat)
    requires at + 8 <= |m|
    ensures Little(m, at, 8) == Little(m, at, 4) + TWO32 * Little(m, at + 4, 4)
  {
    hide Little;
    LittleStep(m, at, 8);
    LittleStep(m, at + 1, 7);
    LittleStep(m, at + 2, 6);
    LittleStep(m, at + 3, 5);
    LittleStep(m, at, 4);
    LittleStep(m, at + 1, 3);
    LittleStep(m, at + 2, 2);
    LittleStep(m, at + 3, 1);
    NoBytes(m, at + 4);
  }

  lemma LittleStep(m: seq<byte>, at: nat, n: nat)
    requires n > 0 && at < |m|
    ensures Little(m, at, n) == m[at] as int + 256 * Little(m, at + 1, n - 1)
  {
  }

  lemma NoBytes(m: seq<byte>, at: int)
    ensures Little(m, at, 0) == 0
  {
  }
}

/**
 The Internet checksum as RFC 1071 defines it: 16-bit words, added with the carry wrapped around.
 */
module ChecksumFormat {
  import opened Bytes
  import opened IpChecksum

  /** One's complement addition of words (section 2 of RFC 1071). */
  function AddOnes(a: nat, b: nat): nat {
    if a + b > 0xFFFF then a + b - 0xFFFF else a + b
  }

  /** The sum of the words of a text, low byte first, with a zero byte behind an odd one. */
  function SumOfWords(data: seq<byte>): nat {
    if data == [] then 0
    else if |data| == 1 then data[0]
    else AddOnes(data[0] + 256 * (data[1] as nat), SumOfWords(data[2..]))
  }

  lemma {:induction false} SumIsWord(data: seq<byte>)
    ensures SumOfWords(data) <= 0xFFFF
  {
    if |data| > 1 {
      SumIsWord(data[2..]);
    }
  }

  lemma OnesOfSum(a: nat, n: nat)
    requires a <= 0xFFFF
    ensures OnesOf(a + n) == AddOnes(a, OnesOf(n))
  {
    var q := OnesWraps(n);
    var r := AddOnes(a, OnesOf(n));
    var p := if a + OnesOf(n) > 0xFFFF then q + 1 else q;
    hide OnesOf;
    assert Wraps(a + n, r, p);
    OnesUnique(a + n, r, p);
  }

  lemma FirstWord(data: seq<byte>)
    requires |data| > 1
    ensures WordSum(data, 0) == data[0] + 256 * (data[1] as nat) + WordSum(data[2..], 0)
  {
    hide WordSum, OnesOf;
    var a, b := data[..2], data[2..];
    assert data == a + b;
    SumOfParts(a, b, 0);
    WordMore(data, 0);
    assert data[..0] == [] && data[..0 + 2] == a;
    EmptySum();
    EvenOffset(b, 2);
  }

  lemma {:induction false} EvenOffset(data: seq<byte>, off: nat)
    requires off % 2 == 0
    ensures WordSum(data, off) == WordSum(data, 0)
  {
    if data != [] {
      EvenOffset(data[..|data| - 1], off);
    }
  }

  lemma {:induction false} SumIsOnes(data: seq<byte>)
    ensures OnesOf(WordSum(data, 0)) == SumOfWords(data)
  {
    if data == [] {
    } else if |data| == 1 {
      assert data[..0] == [];
      assert WordSum(data, 0) == data[0];
    } else {
      SumIsOnes(data[2..]);
      FirstWord(data);
      hide WordSum, OnesOf;
      OnesOfSum(data[0] + 256 * (data[1] as nat), WordSum(data[2..], 0));
    }
  }

  /** The checksum is the complement of that sum, so that text and checksum together add up to ones. */
  lemma ChecksumIsComplement(data: seq<byte>)
    ensures Checksum(data) == 0xFFFF - SumOfWords(data)
    ensures AddOnes(SumOfWords(data), Checksum(data)) == 0xFFFF
  {
    SumIsWord(data);
    SumIsOnes(data);
    hide WordSum, OnesOf, SumOfWords;
  }
}

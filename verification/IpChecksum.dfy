/**
 The Internet checksum (section 2 of RFC 1071), as the firmware computes it byte by byte, as it
 adds the checksums of two pieces, and as the payload library computes it word by word.
 */
module IpChecksum {
  import opened Bytes
  import opened MachineInts

  const ONES := 0xFFFF

  // ----- Ones' complement sums -----

  /** The value of a byte at index i of a text that starts at offset `off`: low bytes are at even offsets. */
  function Weighted(b: byte, off: nat, i: nat): nat {
    if (off + i) % 2 == 1 then 256 * b else b
  }

  /** The sum of the 16-bit words of a text that starts at offset `off`, with a zero byte behind an odd one. */
  function WordSum(data: seq<byte>, off: nat): nat {
    if data == [] then 0 else
      var n := |data| - 1;
      WordSum(data[..n], off) + Weighted(data[n], off, n)
  }

  /** n as a ones' complement number: zero only for zero, else the residue among 1, ..., 0xFFFF. */
  function OnesOf(n: nat): (r: nat)
    ensures r <= ONES && (r == 0 <==> n == 0)
  {
    if n == 0 then 0 else (n - 1) % ONES + 1
  }

  function Checksum(data: seq<byte>): (c: nat)
    ensures c <= ONES
  {
    ONES - OnesOf(WordSum(data, 0))
  }

  /** q counts how often the carry was wrapped around. */
  ghost predicate Wraps(n: int, r: int, q: int) {
    n == q * ONES + r
  }

  function ByteSwapped(w: nat): (r: nat)
    requires w <= ONES
    ensures r <= ONES && Wraps(256 * w, r, w / 256) && (r == 0 <==> w == 0)
  {
    w / 256 + w % 256 * 256
  }

  /** A word as two bytes that were stored low byte first are read on a machine of either byte order. */
  function Native(w: nat, bigEndian: bool): (r: nat)
    requires w <= ONES
    ensures r <= ONES
  {
    if bigEndian then ByteSwapped(w) else w
  }

  lemma SwappedComplement(w: nat)
    requires w <= ONES
    ensures ByteSwapped(ONES - w) == ONES - ByteSwapped(w) && ByteSwapped(ByteSwapped(w)) == w
  {
    var h, l := w / 256, w % 256;
    assert ONES - w == (255 - h) * 256 + (255 - l);
    assert (ONES - w) / 256 == 255 - h && (ONES - w) % 256 == 255 - l;
    assert (h + l * 256) / 256 == l && (h + l * 256) % 256 == h;
  }

  lemma OnesWraps(n: nat) returns (q: nat)
    ensures Wraps(n, OnesOf(n), q)
  {
    q := if n == 0 then 0 else (n - 1) / ONES;
  }

  lemma OnesUnique(n: nat, r: nat, q: int)
    requires Wraps(n, r, q) && r <= ONES && (r == 0 <==> n == 0)
    ensures r == OnesOf(n)
  {
    hide OnesOf;
    var p := OnesWraps(n);
  }

  // ----- The firmware's checksum -----

  lemma OneByteMore(s: nat, v: nat)
    requires v <= 0xFF00
    ensures var t := OnesOf(s) + v;
            OnesOf(s + v) == if t > 0xFFFF then (t + t / 0x10000) % 0x10000 else t
  {
    hide OnesOf;
    var q := OnesWraps(s);
    var t := OnesOf(s) + v;
    if t > 0xFFFF {
      assert t / 0x10000 == 1;
      OnesUnique(s + v, t - ONES, q + 1);
    } else {
      OnesUnique(s + v, t, q);
    }
  }

  /** `compute_ip_checksum`: the two bytes of the sum are stored low byte first and read as a word of the machine. */
  method ComputeIpChecksum(data: seq<byte>, bigEndian: bool) returns (checksum: nat)
    ensures checksum == Native(Checksum(data), bigEndian)
  {
    hide OnesOf, WordSum, Native, ByteSwapped;
    var sum := SumBytes(data);
    var low, high := sum % 256, sum / 256 % 256;
    var word := if bigEndian then low * 256 + high else high * 256 + low;
    NativeWord(sum, bigEndian);
    NativeComplement(sum, bigEndian);
    checksum := 0xFFFF - word;
  }

  /** The two bytes of the sum, lower byte first, are this word to the machine. */
  lemma NativeWord(w: nat, bigEndian: bool)
    requires w <= ONES
    ensures Native(w, bigEndian) ==
            if bigEndian then w % 256 * 256 + w / 256 % 256 else w / 256 % 256 * 256 + w % 256
  {
  }

  lemma NativeComplement(w: nat, bigEndian: bool)
    requires w <= ONES
    ensures Native(ONES - w, bigEndian) == ONES - Native(w, bigEndian)
  {
    hide ByteSwapped;
    SwappedComplement(w);
  }

  method SumBytes(data: seq<byte>) returns (sum: nat)
    ensures sum == OnesOf(WordSum(data, 0))
  {
    sum := 0;
    for i := 0 to |data|
      invariant sum == OnesOf(WordSum(data[..i], 0))
    {
      hide OnesOf;
      var v: nat := data[i];
      if i % 2 == 1 {
        v := v * 256;
      }
      OneByteMore(WordSum(data[..i], 0), v);
      assert data[..i + 1][..i] == data[..i];
      sum := sum + v;
      if sum > 0xFFFF {
        sum := (sum + sum / 0x10000) % 0x10000;
      }
    }
    assert data[..|data|] == data;
  }

  // ----- Checksums of two pieces -----

  lemma {:induction false} SumOfParts(a: seq<byte>, b: seq<byte>, off: nat)
    ensures WordSum(a + b, off) == WordSum(a, off) + WordSum(b, off + |a|)
  {
    if b == [] {
      assert a + b == a;
    } else {
      var n := |b| - 1;
      assert (a + b)[..|a| + n] == a + b[..n];
      SumOfParts(a, b[..n], off);
    }
  }

  lemma OtherWeight(b: byte, off: nat, n: nat) returns (q: int)
    ensures off % 2 == 0 ==> Weighted(b, off, n) == Weighted(b, 0, n)
    ensures off % 2 == 1 ==> Wraps(256 * Weighted(b, 0, n), Weighted(b, off, n), q)
    ensures Weighted(b, off, n) == 0 <==> Weighted(b, 0, n) == 0
  {
    q := if n % 2 == 1 then b else 0;
    assert (off + n) % 2 == (off % 2 + n % 2) % 2;
  }

  /** A text at an odd offset has the sum of its bytes with high and low exchanged. */
  lemma {:induction false} OtherOffset(data: seq<byte>, off: nat) returns (q: int)
    ensures off % 2 == 0 ==> WordSum(data, off) == WordSum(data, 0)
    ensures off % 2 == 1 ==> Wraps(256 * WordSum(data, 0), WordSum(data, off), q)
    ensures WordSum(data, off) == 0 <==> WordSum(data, 0) == 0
  {
    hide Weighted;
    q := 0;
    if data != [] {
      var n := |data| - 1;
      q := OtherOffset(data[..n], off);
      var p := OtherWeight(data[n], off, n);
      q := q + p;
    }
  }

  lemma SwappedSum(data: seq<byte>, off: nat)
    ensures OnesOf(WordSum(data, off)) ==
            if off % 2 == 1 then ByteSwapped(OnesOf(WordSum(data, 0))) else OnesOf(WordSum(data, 0))
  {
    hide *;
    var q := OtherOffset(data, off);
    if off % 2 == 1 {
      var s := WordSum(data, 0);
      var p := OnesWraps(s);
      SwapUnique(s, WordSum(data, off), OnesOf(s), p, q);
    }
  }

  lemma SwapUnique(s: nat, t: nat, w: nat, p: int, q: int)
    requires Wraps(s, w, p) && Wraps(256 * s, t, q) && w <= ONES && (w == 0 <==> s == 0) && (t == 0 <==> s == 0)
    ensures OnesOf(t) == ByteSwapped(w)
  {
    hide OnesOf, ByteSwapped;
    OnesUnique(t, ByteSwapped(w), 256 * p + w / 256 - q);
  }

  lemma OnesAdd(m: nat, n: nat)
    ensures var t := OnesOf(m) + OnesOf(n);
            OnesOf(m + n) == if t > ONES then t - ONES else t
  {
    hide OnesOf;
    var p := OnesWraps(m);
    var q := OnesWraps(n);
    var t := OnesOf(m) + OnesOf(n);
    if t > ONES {
      OnesUnique(m + n, t - ONES, p + q + 1);
    } else {
      OnesUnique(m + n, t, p + q);
    }
  }

  /** The ones' complement sum of two pieces, the second from an odd offset or not. */
  function PartsSum(odd: bool, x: nat, y: nat): (r: nat)
    requires x <= ONES && y <= ONES
    ensures r <= ONES
  {
    var z := x + (if odd then ByteSwapped(y) else y);
    if z > ONES then z - ONES else z
  }

  /** The checksum of two pieces from the checksums of both. */
  lemma ChecksumOfParts(a: seq<byte>, b: seq<byte>)
    ensures Checksum(a + b) == ONES - PartsSum(|a| % 2 == 1, ONES - Checksum(a), ONES - Checksum(b))
  {
    hide OnesOf, WordSum, ByteSwapped;
    SumOfParts(a, b, 0);
    SwappedSum(b, |a|);
    OnesAdd(WordSum(a, 0), WordSum(b, |a|));
  }

  /** Residues among 0, ..., 0xFFFF that are zero together are equal. */
  lemma SameOnes(t: nat, u: nat, q: int)
    requires t <= ONES && u <= ONES && (t == 0 <==> u == 0) && t == u + q * ONES
    ensures t == u
  {
  }

  lemma PartsSumWraps(odd: bool, x: nat, y: nat) returns (q: int)
    requires x <= ONES && y <= ONES
    ensures PartsSum(odd, x, y) == x + (if odd then ByteSwapped(y) else y) - q * ONES
    ensures PartsSum(odd, x, y) == 0 <==> x == 0 && y == 0
  {
    hide ByteSwapped;
    q := if x + (if odd then ByteSwapped(y) else y) > ONES then 1 else 0;
  }

  /** Adding does not depend on the byte order. */
  lemma SwappedParts(odd: bool, x: nat, y: nat)
    requires x <= ONES && y <= ONES
    ensures ByteSwapped(PartsSum(odd, x, y)) == PartsSum(odd, ByteSwapped(x), ByteSwapped(y))
  {
    var t, u := PartsSum(odd, x, y), PartsSum(odd, ByteSwapped(x), ByteSwapped(y));
    var p := PartsSumWraps(odd, x, y);
    var q := PartsSumWraps(odd, ByteSwapped(x), ByteSwapped(y));
    hide ByteSwapped, PartsSum;
    var y' := if odd then ByteSwapped(y) else y;
    var y'' := if odd then ByteSwapped(ByteSwapped(y)) else ByteSwapped(y);
    assert Wraps(256 * y', y'', y' / 256);
    SameOnes(ByteSwapped(t), u, x / 256 + y' / 256 + q - t / 256 - 256 * p);
  }

  lemma PartsSumIsRight(a: seq<byte>, b: seq<byte>, bigEndian: bool)
    ensures var x, y := Native(Checksum(a), bigEndian), Native(Checksum(b), bigEndian);
            Native(Checksum(a + b), bigEndian) == ONES - PartsSum(|a| % 2 == 1, ONES - x, ONES - y)
  {
    ChecksumOfParts(a, b);
    hide Checksum, PartsSum, ByteSwapped;
    if bigEndian {
      SwappedComplement(Checksum(a));
      SwappedComplement(Checksum(b));
      SwappedParts(|a| % 2 == 1, ONES - Checksum(a), ONES - Checksum(b));
      SwappedComplement(PartsSum(|a| % 2 == 1, ONES - Checksum(a), ONES - Checksum(b)));
    }
  }

  /** `add_ip_checksums`, whatever the byte order of the machine that has computed the checksums of the pieces. */
  method AddIpChecksums(offset: nat, sum0: nat, new0: nat) returns (r: nat)
    ensures forall a, b, bigEndian ::
              |a| == offset && Native(Checksum(a), bigEndian) == sum0 && Native(Checksum(b), bigEndian) == new0 ==>
                r == Native(Checksum(a + b), bigEndian)
  {
    hide *;
    r := AddParts(offset, sum0, new0);
    forall a, b, bigEndian | |a| == offset && Native(Checksum(a), bigEndian) == sum0 &&
      Native(Checksum(b), bigEndian) == new0
      ensures r == Native(Checksum(a + b), bigEndian)
    {
      PartsSumIsRight(a, b, bigEndian);
    }
  }

  lemma SwapBytes(w: nat)
    requires w <= ONES
    ensures w / 256 % 256 + w * 256 % 0x10000 == ByteSwapped(w)
  {
    var h, l := w / 256, w % 256;
    assert w == 256 * h + l && w * 256 == h * 0x10000 + l * 256;
    assert h % 256 == h && (h * 0x10000 + l * 256) % 0x10000 == l * 256;
  }

  lemma LowHalf(w: nat)
    ensures w <= ONES ==> w % 0x10000 == w
  {
  }

  method AddParts(offset: nat, sum0: nat, new0: nat) returns (r: nat)
    ensures sum0 <= ONES && new0 <= ONES ==> r == ONES - PartsSum(offset % 2 == 1, ONES - sum0, ONES - new0)
  {
    hide ByteSwapped;
    LowHalf(sum0);
    LowHalf(new0);
    var sum: nat, new_: nat := 0xFFFF - sum0 % 0x10000, 0xFFFF - new0 % 0x10000;
    if offset % 2 == 1 {
      SwapBytes(new_);
      new_ := new_ / 256 % 256 + new_ * 256 % 0x10000;
    }
    var checksum := sum + new_;
    if checksum > 0xFFFF {
      checksum := checksum - 0xFFFF;
    }
    r := 0xFFFF - checksum;
  }

  /** A text that holds its own checksum in a word that was zero has the checksum zero. */
  lemma ChecksumInside(a: seq<byte>, z: seq<byte>, c: seq<byte>, b: seq<byte>)
    requires |z| == |c| && WordSum(z, |a|) == 0 && WordSum(c, |a|) == Checksum(a + z + b)
    ensures Checksum(a + c + b) == 0
  {
    hide OnesOf, WordSum;
    SumOfParts(a + z, b, 0);
    SumOfParts(a, z, 0);
    SumOfParts(a + c, b, 0);
    SumOfParts(a, c, 0);
    var s := WordSum(a + z + b, 0);
    var q := OnesWraps(s);
    OnesUnique(WordSum(a + c + b, 0), ONES, q);
  }

  /** A changed byte changes the sum, by less than 0xFFFF. */
  lemma {:induction false} ByteChanged(data: seq<byte>, i: nat, b: byte, off: nat)
    requires i < |data|
    ensures WordSum(data[i := b], off) == WordSum(data, off) - Weighted(data[i], off, i) + Weighted(b, off, i)
  {
    hide Weighted;
    var n := |data| - 1;
    if i < n {
      ByteChanged(data[..n], i, b, off);
      assert data[i := b][..n] == data[..n][i := b];
    } else {
      assert data[i := b][..n] == data[..n];
    }
  }

  lemma NearSums(m: nat, n: nat)
    requires m != n && -ONES < m - n < ONES
    ensures OnesOf(m) != OnesOf(n)
  {
    var p := OnesWraps(m);
    var q := OnesWraps(n);
    hide OnesOf;
    assert OnesOf(m) == OnesOf(n) ==> m - n == (p - q) * ONES;
  }

  /** No changed byte goes unnoticed. */
  lemma OneByteCounts(data: seq<byte>, i: nat, b: byte)
    requires i < |data| && data[i] != b
    ensures Checksum(data[i := b]) != Checksum(data)
  {
    hide OnesOf, WordSum;
    ByteChanged(data, i, b, 0);
    NearSums(WordSum(data[i := b], 0), WordSum(data, 0));
  }

  // ----- The payload library's checksum -----

  /** `ipchksum`, of the sum that it has added up: fold twice, complement and keep 16 bits. */
  function Folded(sum: int): (r: nat)
    ensures r <= ONES
  {
    var f := sum / 0x10000 + sum % 0x10000;
    0xFFFF - (f + f / 0x10000) % 0x10000
  }

  /** Two bytes at once. */
  lemma WordMore(data: seq<byte>, i: nat)
    requires i % 2 == 0 && i < |data|
    ensures WordSum(data[..i + 1], 0) == WordSum(data[..i], 0) + data[i]
    ensures i + 1 < |data| ==> WordSum(data[..i + 2], 0) == WordSum(data[..i], 0) + data[i] + 256 * (data[i + 1] as int)
  {
    assert data[..i + 1][..i] == data[..i];
    if i + 1 < |data| {
      assert data[..i + 2][..i + 1] == data[..i + 1];
    }
  }

  /** `ipchksum`, with an `int` of 32 bits that wraps around when it overflows. */
  method IpChksum(data: seq<byte>) returns (r: nat)
    ensures r == Folded(Int32(WordSum(data, 0)))
  {
    hide *;
    var sum := 0;
    var nbytes: nat, ptr: nat := |data|, 0;
    EmptySum();
    assert data[..0] == [];
    while nbytes > 1
      invariant ptr + nbytes == |data| && ptr % 2 == 0
      invariant sum == Int32(WordSum(data[..ptr], 0))
    {
      WordMore(data, ptr);
      var word := data[ptr] as int + 256 * (data[ptr + 1] as int);
      Int32Add(WordSum(data[..ptr], 0), word);
      sum := Int32(sum + word);
      ptr, nbytes := ptr + 2, nbytes - 2;
    }
    if nbytes == 1 {
      WordMore(data, ptr);
      Int32Add(WordSum(data[..ptr], 0), data[ptr]);
      sum := Int32(sum + data[ptr]);
      ptr := ptr + 1;
    }
    assert ptr == |data|;
    assert data[..|data|] == data;
    r := Fold(sum);
  }

  lemma EmptySum()
    ensures WordSum([], 0) == 0 && Int32(0) == 0
  {
  }

  method Fold(sum0: int) returns (r: nat)
    ensures r == Folded(sum0)
  {
    var sum := sum0 / 0x10000 + sum0 % 0x10000;
    sum := sum + sum / 0x10000;
    r := 0xFFFF - sum % 0x10000;
  }

  /** Folding gives the ones' complement number of the sum, negative or not. */
  lemma FoldedWraps(sum: int) returns (q: int)
    requires -0x8000_0000 <= sum < 0x8000_0000
    ensures Wraps(sum, ONES - Folded(sum), q)
    ensures sum >= 0 ==> (Folded(sum) == ONES <==> sum == 0)
  {
    var h, f := sum / 0x10000, sum / 0x10000 + sum % 0x10000;
    q := if f < 0 then h - 1 else if f >= 0x10000 then h + 1 else h;
  }

  lemma {:induction false} SumBound(data: seq<byte>)
    ensures WordSum(data, 0) <= 0xFFFF * (|data| / 2) + (if |data| % 2 == 1 then 0xFF else 0)
  {
    if data != [] {
      SumBound(data[..|data| - 1]);
    }
  }

  /** Below 2^31 nothing has been lost. */
  lemma FoldedIsChecksum(s: nat)
    requires s < 0x8000_0000
    ensures Folded(Int32(s)) == ONES - OnesOf(s)
  {
    hide Folded, OnesOf;
    assert Int32(s) == s;
    var q := FoldedWraps(s);
    OnesUnique(s, ONES - Folded(s), q);
  }

  /** From 2^31 on every carry out of the 32 bits is lost, and there are too few of them to cancel. */
  lemma FoldedIsWrong(s: nat)
    requires 0x8000_0000 <= s < 0x8000_0000_0000
    ensures Folded(Int32(s)) != ONES - OnesOf(s)
  {
    var k := (s + 0x8000_0000) / 0x1_0000_0000;
    assert Int32(s) == s - k * 0x1_0000_0000 && 1 <= k <= 0x8000;
    var p := OnesWraps(s);
    var q := FoldedWraps(Int32(s));
    hide Folded, OnesOf, Int32;
    assert Folded(Int32(s)) == ONES - OnesOf(s) ==> (p - q - k * 0x10001) * ONES == k;
  }

  /** The two programs agree exactly on the texts whose words add up to less than 2^31. */
  lemma ChecksumsAgreeIff(data: seq<byte>)
    requires |data| < 0x1_0000_0000
    ensures Folded(Int32(WordSum(data, 0))) == Checksum(data) <==> WordSum(data, 0) < 0x8000_0000
  {
    hide Folded, OnesOf, Int32, WordSum;
    SumBound(data);
    if WordSum(data, 0) < 0x8000_0000 {
      FoldedIsChecksum(WordSum(data, 0));
    } else {
      FoldedIsWrong(WordSum(data, 0));
    }
  }

  /** So they agree on all texts of up to 64 KiB. */
  lemma ChecksumsAgree(data: seq<byte>)
    requires |data| <= 0x10000
    ensures Folded(Int32(WordSum(data, 0))) == Checksum(data)
  {
    hide *;
    SumBound(data);
    ChecksumsAgreeIff(data);
  }

  lemma {:induction false} AllOnesSum(data: seq<byte>)
    requires forall i :: 0 <= i < |data| ==> data[i] == 0xFF
    ensures WordSum(data, 0) == 0xFFFF * (|data| / 2) + (if |data| % 2 == 1 then 0xFF else 0)
  {
    if data != [] {
      AllOnesSum(data[..|data| - 1]);
    }
  }

  /** One word more than 64 KiB can be too much. */
  lemma ChecksumsDiffer(data: seq<byte>)
    requires |data| == 0x10002 && forall i :: 0 <= i < |data| ==> data[i] == 0xFF
    ensures Folded(Int32(WordSum(data, 0))) != Checksum(data)
  {
    hide *;
    AllOnesSum(data);
    ChecksumsAgreeIff(data);
  }
}

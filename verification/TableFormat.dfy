/**
 The coreboot table in numbers: what stands where in a finished table.
 */
module TableFormat {
  import opened Bytes
  import opened Memory
  import opened MachineInts
  import opened IpChecksum
  import opened ChecksumFormat
  import opened CorebootTable
  import opened TableReader

  lemma NumberThere(m: seq<byte>, at: nat, v: nat)
    requires Has(m, at, Le32(v)) && v < TWO32
    ensures at + 4 <= |m| && Little(m, at, 4) == v
  {
    hide Le32, Read32, Little;
    ReadOfLe32(m, at, v);
    Four(m, at);
  }

  lemma SumsAreWords(rs: seq<seq<byte>>)
    requires Records(rs)
    ensures Sealed(rs).headerChecksum < TWO32 && Sealed(rs).tableChecksum < TWO32 && |rs| <= |Flat(rs)|
  {
    FlatLong(rs);
    hide Checksum, Flat, HeaderBytes;
  }

  /** The header: "LBIO", its own size, the size and the checksum of the records, and their number. */
  lemma HeaderByNumbers(m: seq<byte>, head: nat, rs: seq<seq<byte>>)
    requires Finished(m, head, rs)
    ensures head + 24 + |Flat(rs)| <= |m|
    ensures m[head..head + 4] == [0x4C, 0x42, 0x49, 0x4F] && Little(m, head + 4, 4) == 24
    ensures Little(m, head + 12, 4) == |Flat(rs)| && Little(m, head + 16, 4) == 0xFFFF - SumOfWords(Flat(rs))
    ensures Little(m, head + 20, 4) == |rs|
    ensures SumOfWords(m[head..head + 24]) == 0xFFFF && m[head + 24..head + 24 + |Flat(rs)|] == Flat(rs)
  {
    var h := Sealed(rs);
    SumsAreWords(rs);
    hide Le32, Little, Flat, Checksum, HeaderBytes, SumOfWords, Sealed;
    SealedIs(rs);
    HeaderWords(m, head, h);
    NumberThere(m, head + 4, 24);
    NumberThere(m, head + 12, h.tableBytes);
    NumberThere(m, head + 16, h.tableChecksum);
    NumberThere(m, head + 20, h.entries);
    ChecksumIsComplement(Flat(rs));
    HeaderSum(rs);
  }

  lemma SealedIs(rs: seq<seq<byte>>)
    ensures Sealed(rs).tableBytes == |Flat(rs)| && Sealed(rs).tableChecksum == Checksum(Flat(rs))
    ensures Sealed(rs).entries == |rs|
  {
    hide Checksum, Flat, HeaderBytes;
  }

  /** With its checksum in it, the header adds up to ones. */
  lemma HeaderSum(rs: seq<seq<byte>>)
    ensures SumOfWords(HeaderBytes(Sealed(rs))) == 0xFFFF
  {
    var h := Header(0, |Flat(rs)|, Checksum(Flat(rs)), |rs|);
    var c := Checksum(HeaderBytes(h));
    hide Le32, Flat, Checksum, WordSum;
    var a := SIGNATURE + Le32(HEADER_SIZE);
    var b := Le32(h.tableBytes) + Le32(h.tableChecksum) + Le32(h.entries);
    assert HeaderBytes(h) == a + Le32(0) + b && HeaderBytes(Sealed(rs)) == a + Le32(c) + b;
    ChecksumWord(0, |a|);
    ChecksumWord(c, |a|);
    ChecksumInside(a, Le32(0), Le32(c), b);
    ChecksumIsComplement(HeaderBytes(Sealed(rs)));
    SumIsWord(HeaderBytes(Sealed(rs)));
  }

  /** Where record i begins behind the header. */
  function PlaceOf(rs: seq<seq<byte>>, i: nat): nat
    requires i <= |rs|
  {
    if i == 0 then 0 else PlaceOf(rs, i - 1) + |rs[i - 1]|
  }

  lemma {:induction false} PlaceOfRest(rs: seq<seq<byte>>, i: nat)
    requires 0 < i <= |rs|
    ensures PlaceOf(rs, i) == |rs[0]| + PlaceOf(rs[1..], i - 1)
  {
    if i > 1 {
      PlaceOfRest(rs, i - 1);
    }
  }

  lemma {:induction false} FlatAt(rs: seq<seq<byte>>, i: nat)
    requires i < |rs|
    ensures PlaceOf(rs, i) + |rs[i]| <= |Flat(rs)|
    ensures Flat(rs)[PlaceOf(rs, i)..PlaceOf(rs, i) + |rs[i]|] == rs[i]
  {
    var rest := Flat(rs[1..]);
    assert Flat(rs) == rs[0] + rest;
    if i > 0 {
      FlatAt(rs[1..], i - 1);
      PlaceOfRest(rs, i);
      hide Flat, PlaceOf;
      var p, n := PlaceOf(rs[1..], i - 1), |rs[i]|;
      assert (rs[0] + rest)[|rs[0]| + p..|rs[0]| + p + n] == rest[p..p + n];
    }
  }

  /** The records stand behind each other behind the header, and each says in its second word how long it is. */
  lemma RecordByNumbers(m: seq<byte>, head: nat, rs: seq<seq<byte>>, i: nat)
    requires Finished(m, head, rs) && i < |rs|
    ensures var at := head + 24 + PlaceOf(rs, i);
            Has(m, at, rs[i]) && |rs[i]| >= 8 && Little(m, at + 4, 4) == |rs[i]|
  {
    hide Finished, Le32, Little, Flat, PlaceOf, Has;
    RecordsThere(m, head, rs, i);
    FlatAt(rs, i);
    var at := head + 24 + PlaceOf(rs, i);
    PartThere(m, head + 24, Flat(rs), PlaceOf(rs, i), rs[i]);
    PartThere(m, at, rs[i], 4, Le32(|rs[i]|));
    NumberThere(m, at + 4, |rs[i]|);
  }

  lemma RecordsThere(m: seq<byte>, head: nat, rs: seq<seq<byte>>, i: nat)
    requires Finished(m, head, rs) && i < |rs|
    ensures Has(m, head + 24, Flat(rs)) && 8 <= |rs[i]| < TWO32 && rs[i][4..8] == Le32(|rs[i]|)
  {
    hide Le32, Flat, Checksum, HeaderBytes, Sealed;
  }

  lemma PartThere(m: seq<byte>, at: nat, s: seq<byte>, p: nat, t: seq<byte>)
    requires Has(m, at, s) && p + |t| <= |s| && s[p..p + |t|] == t
    ensures Has(m, at + p, t)
  {
    hide Has;
    assert s == s[..p] + t + s[p + |t|..];
    HasPart(m, at, s[..p], t, s[p + |t|..]);
  }

  // ----- A byte that is wrong -----

  lemma {:induction false} SliceChanged(m: seq<byte>, at: nat, n: nat, k: nat, b: byte)
    requires k < |m|
    ensures Slice(m[k := b], at, n) == if at <= k < at + n then Slice(m, at, n)[k - at := b] else Slice(m, at, n)
  {
    if n > 0 {
      SliceChanged(m, at, n - 1, k, b);
    }
  }

  lemma WordUntouched(m: seq<byte>, at: nat, k: nat, b: byte)
    requires k < |m| && !(at <= k < at + 4)
    ensures Read32(m[k := b], at) == Read32(m, at)
  {
  }

  lemma {:induction false} SliceByte(m: seq<byte>, at: nat, n: nat, i: nat)
    requires i < n && at + n <= |m|
    ensures Slice(m, at, n)[i] == m[at + i]
  {
    if i < n - 1 {
      SliceByte(m, at, n - 1, i);
    }
  }

  /**
   The reader refuses a finished table with one wrong byte, wherever that is, as long as the words
   of the records add up to less than 2^31.
   */
  lemma OneByteOffIsRefused(m: seq<byte>, head: nat, rs: seq<seq<byte>>, k: nat, b: byte)
    requires Finished(m, head, rs) && head <= k < head + 24 + |Flat(rs)| <= |m| && b != m[k]
    requires WordSum(Slice(m[k := b], head + 24, |Flat(rs)|), 0) < 0x8000_0000
    ensures Verdict(m[k := b], head) != 1
  {
    hide Finished, Read32, Slice, Flat, HeaderBytes, Checksum, WordSum, Folded, Int32, SignatureAt, Sealed;
    var n := |Flat(rs)|;
    HeaderRead(m, head, rs);
    if k < head + 24 {
      HeaderAddsUp(rs);
      ChecksumsAgree(Slice(m, head, 24));
      ChecksumsAgree(Slice(m[k := b], head, 24));
      ChangedChecksum(m, head, 24, k, b);
    } else {
      WordUntouched(m, head + 12, k, b);
      WordUntouched(m, head + 16, k, b);
      ChecksumsAgreeIff(Slice(m[k := b], head + 24, n));
      ChangedChecksum(m, head + 24, n, k, b);
    }
  }

  lemma ChangedChecksum(m: seq<byte>, at: nat, n: nat, k: nat, b: byte)
    requires at <= k < at + n <= |m| && b != m[k]
    ensures Checksum(Slice(m[k := b], at, n)) != Checksum(Slice(m, at, n))
  {
    hide Slice, Checksum;
    SliceChanged(m, at, n, k, b);
    SliceByte(m, at, n, k - at);
    OneByteCounts(Slice(m, at, n), k - at, b);
  }

  /** A forward record has the address of the real table as a number of 64 bits. */
  lemma ForwardByNumbers(target: nat)
    requires target < TWO32
    ensures var r := ForwardRecord(target);
            Little(r, 0, 4) == 0x11 && Little(r, 4, 4) == |r| == 16 && Little(r, 8, 8) == target
  {
    var r := ForwardRecord(target);
    hide Le32, Little;
    assert r == Le32(0x11) + Le32(16) + Le32(target) + Le32(0);
    assert r[0..4] == Le32(0x11) && r[4..8] == Le32(16) && r[8..12] == Le32(target) && r[12..16] == Le32(0);
    NumberThere(r, 0, 0x11);
    NumberThere(r, 4, 16);
    NumberThere(r, 8, target);
    NumberThere(r, 12, 0);
    Eight(r, 8);
  }

  /** The tags and sizes of the two records that the writer makes itself. */
  lemma TagsByNumbers()
    ensures UNUSED == [0, 0, 0, 0, 8, 0, 0, 0] && FORWARD == 0x11
  {
  }
}

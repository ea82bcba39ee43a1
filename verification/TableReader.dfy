/**
 The reader of the coreboot table in the coreinfo payload: it looks for the header, checks both
 checksums, and walks the records; a forward record sends it to another table.
 */
module TableReader {
  import opened Bytes
  import opened Memory
  import opened IpChecksum
  import opened MachineInts
  import opened CorebootTable

  /** What `parse_header` returns and the records that it has handled; or it has run out of stack. */
  datatype Parsed = Parsed(ret: int, seen: seq<seq<byte>>) | TooDeep

  predicate SignatureAt(m: seq<byte>, at: nat) {
    Slice(m, at, 4) == SIGNATURE
  }

  /** The first place, in steps of 16 bytes, that has the signature and is less than len bytes away. */
  function Find(m: seq<byte>, at: nat, len: int): (r: int)
    ensures r == -1 || r >= at
    decreases if len > 0 then len else 0
  {
    if len <= 0 then -1 else if SignatureAt(m, at) then at else Find(m, at + 16, len - 16)
  }

  /** The records handled, and the table to go on with if there was a forward record. */
  datatype Walked = Walked(seen: seq<seq<byte>>, forward: int)

  function Walk(m: seq<byte>, at: nat, entries: nat): (r: Walked)
    ensures r.forward >= -1
    decreases entries
  {
    if entries == 0 then Walked([], -1)
    else if Read32(m, at) == FORWARD then Walked([], Read32(m, at + 8))
    else
      var size := Read32(m, at + 4);
      var r := Walk(m, at + size, entries - 1);
      Walked([Slice(m, at, size)] + r.seen, r.forward)
  }

  function PayloadChecksum(data: seq<byte>): nat {
    Folded(Int32(WordSum(data, 0)))
  }

  /** What is wrong with a header, as a return value, or 1. */
  function Verdict(m: seq<byte>, at: nat): int {
    if Read32(m, at + 12) == 0 then 0
    else if PayloadChecksum(Slice(m, at, HEADER_SIZE)) != 0 then -1
    else if PayloadChecksum(Slice(m, at + HEADER_SIZE, Read32(m, at + 12))) != Read32(m, at + 16) then -1
    else 1
  }

  /** `parse_header`, when the stack has room for `hops` nested calls. */
  function Parse(m: seq<byte>, addr: nat, len: int, hops: nat): Parsed
    decreases hops
  {
    var at := Find(m, addr, len);
    if at < 0 then Parsed(-1, [])
    else if Verdict(m, at) != 1 then Parsed(Verdict(m, at), [])
    else
      var w := Walk(m, at + Read32(m, at + 4), Read32(m, at + 20));
      if w.forward < 0 then Parsed(1, w.seen)
      else if hops == 0 then TooDeep
      else
        match Parse(m, w.forward, 1, hops - 1)
        case TooDeep => TooDeep
        case Parsed(ret, seen) => Parsed(ret, w.seen + seen)
  }

  // ----- The reader -----

  method FindHeader(m: seq<byte>, addr: nat, len: int) returns (at: int)
    ensures at == Find(m, addr, len)
  {
    hide SignatureAt;
    var ptr, i := addr, 0;
    while i < len
      invariant ptr >= addr && Find(m, addr, len) == Find(m, ptr, len - i)
      decreases len - i
    {
      if Slice(m, ptr, 4) == SIGNATURE {
        SignatureHere(m, ptr);
        return ptr;
      }
      SignatureHere(m, ptr);
      i, ptr := i + 16, ptr + 16;
    }
    at := -1;
  }

  lemma SignatureHere(m: seq<byte>, at: nat)
    ensures SignatureAt(m, at) <==> Slice(m, at, 4) == SIGNATURE
  {
  }

  method WalkRecords(m: seq<byte>, at: nat, entries: nat) returns (seen: seq<seq<byte>>, forward: int)
    ensures Walked(seen, forward) == Walk(m, at, entries)
  {
    hide *;
    var ptr, i := at, 0;
    seen, forward := [], -1;
    while i < entries
      invariant i <= entries
      invariant var rest := Walk(m, ptr, entries - i); Walk(m, at, entries) == Walked(seen + rest.seen, rest.forward)
    {
      WalkStep(m, ptr, entries - i);
      if Read32(m, ptr) == FORWARD {
        forward := Read32(m, ptr + 8);
        return;
      }
      var size := Read32(m, ptr + 4);
      ghost var rest := Walk(m, ptr + size, entries - (i + 1));
      assert seen + ([Slice(m, ptr, size)] + rest.seen) == seen + [Slice(m, ptr, size)] + rest.seen;
      seen := seen + [Slice(m, ptr, size)];
      ptr, i := ptr + size, i + 1;
    }
    WalkEnd(m, ptr);
  }

  lemma WalkStep(m: seq<byte>, at: nat, entries: nat)
    requires entries > 0
    ensures Walk(m, at, entries) ==
            if Read32(m, at) == FORWARD then Walked([], Read32(m, at + 8))
            else
              var size := Read32(m, at + 4);
              var r := Walk(m, at + size, entries - 1);
              Walked([Slice(m, at, size)] + r.seen, r.forward)
  {
    hide Slice, Read32;
  }

  lemma WalkEnd(m: seq<byte>, at: nat)
    ensures Walk(m, at, 0) == Walked([], -1)
  {
  }

  method Check(m: seq<byte>, at: nat) returns (verdict: int)
    ensures verdict == Verdict(m, at)
  {
    hide Slice, Read32, Folded, WordSum, Int32;
    if Read32(m, at + 12) == 0 {
      return 0;
    }
    var sum := IpChksum(Slice(m, at, HEADER_SIZE));
    if sum != 0 {
      return -1;
    }
    sum := IpChksum(Slice(m, at + HEADER_SIZE, Read32(m, at + 12)));
    if sum != Read32(m, at + 16) {
      return -1;
    }
    verdict := 1;
  }

  /** `parse_header` */
  method ParseHeader(m: seq<byte>, addr: nat, len: int, hops: nat) returns (r: Parsed)
    ensures r == Parse(m, addr, len, hops)
    decreases hops
  {
    hide Slice, Read32, Find, Walk, Verdict;
    var at := FindHeader(m, addr, len);
    if at < 0 {
      return Parsed(-1, []);
    }
    var verdict := Check(m, at);
    if verdict != 1 {
      return Parsed(verdict, []);
    }
    var seen, forward := WalkRecords(m, at + Read32(m, at + 4), Read32(m, at + 20));
    if forward < 0 {
      return Parsed(1, seen);
    }
    if hops == 0 {
      return TooDeep;
    }
    r := ParseHeader(m, forward, 1, hops - 1);
    if r.Parsed? {
      r := Parsed(r.ret, seen + r.seen);
    }
  }

  // ----- What is read of a table that was written -----

  /** A record that sends the reader elsewhere. */
  ghost predicate Forwards(r: seq<byte>) {
    Read32(r, 0) == FORWARD
  }

  ghost predicate NoForward(rs: seq<seq<byte>>) {
    forall i :: 0 <= i < |rs| ==> !Forwards(rs[i])
  }

  lemma PeekPart(m: seq<byte>, at: nat, r: seq<byte>, k: nat)
    requires Has(m, at, r) && k + 4 <= |r|
    ensures Read32(m, at + k) == Read32(r, k)
  {
    var t := m[at..at + |r|];
    assert m[at + k] == t[k] && m[at + k + 1] == t[k + 1] && m[at + k + 2] == t[k + 2] && m[at + k + 3] == t[k + 3];
  }

  lemma WalkOne(m: seq<byte>, at: nat, r: seq<byte>, n: nat)
    requires Has(m, at, r) && Record(r)
    ensures Forwards(r) ==> |r| >= 12 ==> Walk(m, at, n + 1) == Walked([], Read32(r, 8))
    ensures !Forwards(r) ==>
              var rest := Walk(m, at + |r|, n); Walk(m, at, n + 1) == Walked([r] + rest.seen, rest.forward)
  {
    RecordSize(m, at, r);
    SliceOfHas(m, at, r);
    hide Read32, Has, Slice, Le32;
    PeekPart(m, at, r, 0);
    if |r| >= 12 {
      PeekPart(m, at, r, 8);
    }
  }

  /** The walk handles the records one after the other, each as it was written. */
  lemma {:induction false} WalkRead(m: seq<byte>, at: nat, rs: seq<seq<byte>>, n: nat)
    requires Has(m, at, Flat(rs)) && Records(rs) && NoForward(rs)
    ensures var rest := Walk(m, at + |Flat(rs)|, n);
            Walk(m, at, |rs| + n) == Walked(rs + rest.seen, rest.forward)
    decreases |rs|
  {
    hide *;
    if rs == [] {
      FlatStep([], []);
      Prepended([], [], Walk(m, at, n));
    } else {
      var r, tail := rs[0], rs[1..];
      WalkParts(m, at, rs);
      WalkRead(m, at + |r|, tail, n);
      WalkOne(m, at, r, |tail| + n);
      var rest := Walk(m, at + |Flat(rs)|, n);
      assert rs + rest.seen == [r] + (tail + rest.seen);
    }
  }

  lemma Prepended(a: seq<seq<byte>>, b: seq<seq<byte>>, w: Walked)
    ensures a == [] ==> Walked(a + w.seen, w.forward) == w
  {
  }

  lemma WalkParts(m: seq<byte>, at: nat, rs: seq<seq<byte>>)
    requires Has(m, at, Flat(rs)) && Records(rs) && NoForward(rs) && rs != []
    ensures Has(m, at, rs[0]) && Has(m, at + |rs[0]|, Flat(rs[1..])) && Record(rs[0]) && !Forwards(rs[0])
    ensures Records(rs[1..]) && NoForward(rs[1..]) && |Flat(rs)| == |rs[0]| + |Flat(rs[1..])|
  {
    hide Has, Flat, Record, Forwards;
    FlatStep(rs[0], rs[1..]);
    assert rs == [rs[0]] + rs[1..];
    HasConcat(m, at, rs[0], Flat(rs[1..]));
  }

  // ----- Round trips -----

  /** The first of the places that are searched is found. */
  lemma {:induction false} FindsFirst(m: seq<byte>, addr: nat, len: int, k: nat)
    requires 16 * k < len && SignatureAt(m, addr + 16 * k)
    requires forall j :: 0 <= j < k ==> !SignatureAt(m, addr + 16 * j)
    ensures Find(m, addr, len) == addr + 16 * k
    decreases k
  {
    hide SignatureAt;
    if k > 0 {
      assert !SignatureAt(m, addr + 16 * 0);
      forall j | 0 <= j < k - 1 ensures !SignatureAt(m, (addr + 16) + 16 * j) {
        assert (addr + 16) + 16 * j == addr + 16 * (j + 1);
      }
      assert (addr + 16) + 16 * (k - 1) == addr + 16 * k;
      FindsFirst(m, addr + 16, len - 16, k - 1);
    }
  }

  /** The search fails exactly if there is none. */
  lemma {:induction false} FindsNoneIff(m: seq<byte>, addr: nat, len: int)
    ensures Find(m, addr, len) == -1 <==> forall k: nat :: 16 * k < len ==> !SignatureAt(m, addr + 16 * k)
    decreases if len > 0 then len else 0
  {
    hide SignatureAt;
    if len > 0 {
      assert addr + 16 * 0 == addr;
      if !SignatureAt(m, addr) {
        FindsNoneIff(m, addr + 16, len - 16);
        NoneFurther(m, addr, len);
      }
    }
  }

  lemma NoneFurther(m: seq<byte>, addr: nat, len: int)
    requires !SignatureAt(m, addr)
    ensures (forall k: nat :: 16 * k < len ==> !SignatureAt(m, addr + 16 * k)) <==>
            forall k: nat :: 16 * k < len - 16 ==> !SignatureAt(m, addr + 16 + 16 * k)
  {
    hide SignatureAt;
    if forall k: nat :: 16 * k < len - 16 ==> !SignatureAt(m, addr + 16 + 16 * k) {
      forall k: nat | 16 * k < len ensures !SignatureAt(m, addr + 16 * k) {
        assert k > 0 ==> addr + 16 + 16 * (k - 1) == addr + 16 * k;
      }
    }
    if forall k: nat :: 16 * k < len ==> !SignatureAt(m, addr + 16 * k) {
      forall k: nat | 16 * k < len - 16 ensures !SignatureAt(m, addr + 16 + 16 * k) {
        assert addr + 16 * (k + 1) == addr + 16 + 16 * k;
      }
    }
  }

  lemma ChecksumWord(c: nat, at: nat)
    requires c <= ONES && at % 2 == 0
    ensures WordSum(Le32(c), at) == c
  {
    hide *;
    LowBytes(c);
    FourBytes(c % 0x100, c / 0x100, at);
    assert c == c % 0x100 + 256 * (c / 0x100);
  }

  lemma LowBytes(c: nat)
    requires c <= ONES
    ensures c / 0x100 < 0x100 && Le32(c) == [c % 0x100, c / 0x100, 0, 0]
  {
  }

  lemma SumMore(data: seq<byte>, b: byte, off: nat)
    ensures WordSum([], off) == 0
    ensures WordSum(data + [b], off) == WordSum(data, off) + Weighted(b, off, |data|)
  {
    assert (data + [b])[..|data|] == data;
  }

  lemma FourBytes(a: byte, b: byte, at: nat)
    requires at % 2 == 0
    ensures WordSum([a, b, 0, 0], at) == a + 256 * (b as int)
  {
    hide WordSum;
    SumMore([], a, at);
    SumMore([a], b, at);
    SumMore([a, b], 0, at);
    SumMore([a, b, 0], 0, at);
    assert [] + [a] == [a] && [a] + [b] == [a, b] && [a, b] + [0] == [a, b, 0] && [a, b, 0] + [0] == [a, b, 0, 0];
  }

  /** A header that has been given its checksum adds up to nothing. */
  lemma HeaderAddsUp(rs: seq<seq<byte>>)
    ensures PayloadChecksum(HeaderBytes(Sealed(rs))) == 0
  {
    var h := Header(0, |Flat(rs)|, Checksum(Flat(rs)), |rs|);
    var c := Checksum(HeaderBytes(h));
    hide Le32, Flat, Checksum, WordSum, Folded, Int32;
    var a := SIGNATURE + Le32(HEADER_SIZE);
    var b := Le32(h.tableBytes) + Le32(h.tableChecksum) + Le32(h.entries);
    assert HeaderBytes(h) == a + Le32(0) + b && HeaderBytes(Sealed(rs)) == a + Le32(c) + b;
    ChecksumWord(0, |a|);
    ChecksumWord(c, |a|);
    ChecksumInside(a, Le32(0), Le32(c), b);
    ChecksumsAgree(HeaderBytes(Sealed(rs)));
  }

  lemma HeaderRead(m: seq<byte>, head: nat, rs: seq<seq<byte>>)
    requires Finished(m, head, rs)
    ensures Read32(m, head + 4) == HEADER_SIZE && Read32(m, head + 12) == |Flat(rs)| && Read32(m, head + 20) == |rs|
    ensures Read32(m, head + 16) == Checksum(Flat(rs)) && SignatureAt(m, head)
    ensures Slice(m, head, HEADER_SIZE) == HeaderBytes(Sealed(rs))
    ensures Slice(m, head + HEADER_SIZE, |Flat(rs)|) == Flat(rs) && (|Flat(rs)| == 0 <==> rs == [])
  {
    hide Read32, Slice, Has, Flat, HeaderBytes, Checksum;
    FlatLong(rs);
    FieldsRead(m, head, Sealed(rs), Flat(rs));
    SliceOfHas(m, head, SIGNATURE);
    SliceOfHas(m, head, HeaderBytes(Sealed(rs)));
    SliceOfHas(m, head + HEADER_SIZE, Flat(rs));
    if rs == [] {
      FlatStep([], []);
    }
  }

  /** Whether the reader takes a finished table: it has to have records, and their words may not add up to 2^31. */
  lemma VerdictOnFinished(m: seq<byte>, head: nat, rs: seq<seq<byte>>)
    requires Finished(m, head, rs)
    ensures Verdict(m, head) == if rs == [] then 0 else if WordSum(Flat(rs), 0) < 0x8000_0000 then 1 else -1
  {
    hide Read32, Slice, Has, Flat, HeaderBytes, Checksum, Folded, Int32, WordSum, Image;
    HeaderRead(m, head, rs);
    HeaderAddsUp(rs);
    ChecksumsAgreeIff(Flat(rs));
  }

  /** What is read of a finished table without forward records: its records, as they were written. */
  lemma ReadFinished(m: seq<byte>, addr: nat, len: int, hops: nat, head: nat, rs: seq<seq<byte>>)
    requires Finished(m, head, rs) && Find(m, addr, len) == head && NoForward(rs)
    ensures Parse(m, addr, len, hops) ==
            if rs == [] then Parsed(0, []) else if WordSum(Flat(rs), 0) < 0x8000_0000 then Parsed(1, rs)
              else Parsed(-1, [])
  {
    hide Read32, Slice, Has, Flat, HeaderBytes, Checksum, WordSum, Verdict, Find, Forwards, Record;
    VerdictOnFinished(m, head, rs);
    HeaderRead(m, head, rs);
    WalkRead(m, head + HEADER_SIZE, rs, 0);
  }

  /** A forward record sends the reader on; what is behind it is not read. */
  lemma ReadForwarded(m: seq<byte>, addr: nat, len: int, hops: nat, head: nat, rs: seq<seq<byte>>, f: seq<byte>,
                      more: seq<seq<byte>>)
    requires Finished(m, head, rs + [f] + more) && Find(m, addr, len) == head && NoForward(rs) && Forwards(f) &&
             |f| >= 12
    requires WordSum(Flat(rs + [f] + more), 0) < 0x8000_0000 && hops > 0
    ensures var r := Parse(m, Read32(f, 8), 1, hops - 1);
            Parse(m, addr, len, hops) == if r.TooDeep? then TooDeep else Parsed(r.ret, rs + r.seen)
  {
    hide *;
    ForwardedWalk(m, head, rs, f, more);
    VerdictOnFinished(m, head, rs + [f] + more);
    HeaderRead(m, head, rs + [f] + more);
    ParseStep(m, addr, len, hops);
  }

  lemma ParseStep(m: seq<byte>, addr: nat, len: int, hops: nat)
    requires Find(m, addr, len) >= 0 && Verdict(m, Find(m, addr, len)) == 1 && hops > 0
    ensures var at := Find(m, addr, len);
            var w := Walk(m, at + Read32(m, at + 4), Read32(m, at + 20));
            w.forward >= 0 ==>
              var r := Parse(m, w.forward, 1, hops - 1);
              Parse(m, addr, len, hops) == if r.TooDeep? then TooDeep else Parsed(r.ret, w.seen + r.seen)
  {
    hide Read32, Find, Verdict, Walk;
  }

  lemma ForwardedWalk(m: seq<byte>, head: nat, rs: seq<seq<byte>>, f: seq<byte>, more: seq<seq<byte>>)
    requires Finished(m, head, rs + [f] + more) && NoForward(rs) && Forwards(f) && |f| >= 12
    ensures Walk(m, head + HEADER_SIZE, |rs| + 1 + |more|) == Walked(rs, Read32(f, 8))
  {
    hide Read32, Has, Flat, HeaderBytes, Checksum, Record, Walk, Forwards;
    var at, all := head + HEADER_SIZE, rs + [f] + more;
    FlatConcat(rs + [f], more);
    FlatSnoc(rs, f);
    HasConcat(m, at, Flat(rs) + f, Flat(more));
    HasConcat(m, at, Flat(rs), f);
    assert forall i :: 0 <= i < |rs| ==> rs[i] == all[i];
    assert all[|rs|] == f;
    WalkRead(m, at, rs, 1 + |more|);
    WalkOne(m, at + |Flat(rs)|, f, |more|);
    assert rs + [] == rs;
  }

  /** What `lb_forward` writes. */
  function ForwardRecord(target: nat): (r: seq<byte>)
    ensures |r| == 16
  {
    Le32(FORWARD) + Le32(16) + Le32(target) + Le32(0)
  }

  lemma ForwardRecordIsOne(target: nat)
    requires target < TWO32
    ensures var r := ForwardRecord(target);
            Record(r) && Forwards(r) && Read32(r, 8) == target
  {
    var r := ForwardRecord(target);
    hide Le32, Read32;
    assert r[0..4] == Le32(FORWARD) && r[4..8] == Le32(16) && r[8..12] == Le32(target);
    ReadOfLe32(r, 0, FORWARD);
    ReadOfLe32(r, 8, target);
  }

  /** The table at a fixed address that only points to the real one: every record of that one is read. */
  lemma ReadThroughForward(m: seq<byte>, addr: nat, len: int, hops: nat, entry: nat, target: nat, rs: seq<seq<byte>>)
    requires target < TWO32 && hops > 0 && Find(m, addr, len) == entry
    requires Finished(m, entry, [ForwardRecord(target)]) && Finished(m, target, rs) && NoForward(rs) && rs != []
    ensures Parse(m, addr, len, hops) == if WordSum(Flat(rs), 0) < 0x8000_0000 then Parsed(1, rs) else Parsed(-1, [])
  {
    hide *;
    var f := ForwardRecord(target);
    ForwardRecordIsOne(target);
    assert [] + [f] + [] == [f];
    SmallSum([f]);
    NoneForward();
    ReadForwarded(m, addr, len, hops, entry, [], f, []);
    HeaderRead(m, target, rs);
    FindHere(m, target);
    ReadFinished(m, target, 1, hops - 1, target, rs);
  }

  lemma NoneForward()
    ensures NoForward([])
  {
  }

  lemma FindHere(m: seq<byte>, at: nat)
    requires SignatureAt(m, at)
    ensures Find(m, at, 1) == at
  {
  }

  lemma SmallSum(rs: seq<seq<byte>>)
    requires |rs| == 1 && |rs[0]| <= 0x10000
    ensures WordSum(Flat(rs), 0) < 0x8000_0000
  {
    hide Flat, WordSum;
    assert rs == [rs[0]] + [];
    FlatStep(rs[0], []);
    SumBound(Flat(rs));
  }
}

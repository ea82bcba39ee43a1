/**
 The writer of the coreboot table: a header, and records behind it of which the last one may
 still grow, so that its size is accounted for only when the next one is begun.
 */
module CorebootTable {
  import opened Bytes
  import opened Memory
  import opened IpChecksum

  /** "LBIO" */
  const SIGNATURE: seq<byte> := [0x4C, 0x42, 0x49, 0x4F]
  const HEADER_SIZE := 24
  const FORWARD := 0x11

  /** The fields after the signature, in the order in which they are stored. */
  datatype Header = Header(headerChecksum: nat, tableBytes: nat, tableChecksum: nat, entries: nat)

  function HeaderBytes(h: Header): (s: seq<byte>)
    ensures |s| == HEADER_SIZE
  {
    SIGNATURE + Le32(HEADER_SIZE) + Le32(h.headerChecksum) + Le32(h.tableBytes) + Le32(h.tableChecksum) +
      Le32(h.entries)
  }

  // ----- Records -----

  /** A record is its bytes: a tag, its size, and what the tag says. */
  ghost predicate Record(r: seq<byte>) {
    8 <= |r| < TWO32 && r[4..8] == Le32(|r|)
  }

  ghost predicate Records(rs: seq<seq<byte>>) {
    forall i :: 0 <= i < |rs| ==> Record(rs[i])
  }

  function Flat(rs: seq<seq<byte>>): seq<byte> {
    if rs == [] then [] else rs[0] + Flat(rs[1..])
  }

  lemma FlatStep(r: seq<byte>, rs: seq<seq<byte>>)
    ensures Flat([]) == [] && Flat([r] + rs) == r + Flat(rs)
  {
    assert ([r] + rs)[1..] == rs;
  }

  lemma {:induction false} FlatConcat(a: seq<seq<byte>>, b: seq<seq<byte>>)
    ensures Flat(a + b) == Flat(a) + Flat(b)
  {
    hide Flat;
    if a == [] {
      assert a + b == b;
      FlatStep([], []);
    } else {
      var r, rest := a[0], a[1..];
      FlatConcat(rest, b);
      FlatStep(r, rest);
      FlatStep(r, rest + b);
      assert a == [r] + rest && a + b == [r] + (rest + b);
    }
  }

  lemma FlatSnoc(rs: seq<seq<byte>>, r: seq<byte>)
    ensures Flat(rs + [r]) == Flat(rs) + r
  {
    hide Flat;
    FlatConcat(rs, [r]);
    FlatStep(r, []);
    assert [r] == [r] + [];
  }

  /** All records but the last, whose size is not yet known. */
  function Earlier(rs: seq<seq<byte>>): seq<seq<byte>> {
    if rs == [] then [] else rs[..|rs| - 1]
  }

  lemma {:induction false} FlatLong(rs: seq<seq<byte>>)
    requires Records(rs)
    ensures |Flat(rs)| >= 8 * |rs|
  {
    if rs != [] {
      FlatLong(rs[1..]);
    }
  }

  // ----- The table in memory -----

  ghost predicate Image(m: seq<byte>, head: nat, h: Header, body: seq<byte>) {
    Has(m, head, HeaderBytes(h)) && Has(m, head + HEADER_SIZE, body)
  }

  /** The header of a table that is still being written. */
  function Unsealed(rs: seq<seq<byte>>): Header {
    Header(0, |Flat(Earlier(rs))|, 0, |rs|)
  }

  /** The header of a table that is complete. */
  function Sealed(rs: seq<seq<byte>>): Header {
    var h := Header(0, |Flat(rs)|, Checksum(Flat(rs)), |rs|);
    h.(headerChecksum := Checksum(HeaderBytes(h)))
  }

  ghost predicate Finished(m: seq<byte>, head: nat, rs: seq<seq<byte>>) {
    Records(rs) && |Flat(rs)| < TWO32 && Image(m, head, Sealed(rs), Flat(rs))
  }

  /** The words of a header, where they are. */
  lemma HeaderWords(m: seq<byte>, head: nat, h: Header)
    requires Has(m, head, HeaderBytes(h))
    ensures Has(m, head, SIGNATURE) && Has(m, head + 4, Le32(HEADER_SIZE)) && Has(m, head + 8, Le32(h.headerChecksum))
    ensures Has(m, head + 12, Le32(h.tableBytes)) && Has(m, head + 16, Le32(h.tableChecksum)) &&
            Has(m, head + 20, Le32(h.entries))
  {
    hide Le32;
    var a, b, c, d, e := Le32(HEADER_SIZE), Le32(h.headerChecksum), Le32(h.tableBytes), Le32(h.tableChecksum),
      Le32(h.entries);
    HasConcat(m, head, SIGNATURE + a + b + c + d, e);
    HasConcat(m, head, SIGNATURE + a + b + c, d);
    HasConcat(m, head, SIGNATURE + a + b, c);
    HasConcat(m, head, SIGNATURE + a, b);
    HasConcat(m, head, SIGNATURE, a);
  }

  lemma HeaderFromWords(m: seq<byte>, head: nat, h: Header)
    requires Has(m, head, SIGNATURE) && Has(m, head + 4, Le32(HEADER_SIZE)) && Has(m, head + 8, Le32(h.headerChecksum))
    requires Has(m, head + 12, Le32(h.tableBytes)) && Has(m, head + 16, Le32(h.tableChecksum)) &&
             Has(m, head + 20, Le32(h.entries))
    ensures Has(m, head, HeaderBytes(h))
  {
    hide Le32;
    var a, b, c, d, e := Le32(HEADER_SIZE), Le32(h.headerChecksum), Le32(h.tableBytes), Le32(h.tableChecksum),
      Le32(h.entries);
    HasConcat(m, head, SIGNATURE, a);
    HasConcat(m, head, SIGNATURE + a, b);
    HasConcat(m, head, SIGNATURE + a + b, c);
    HasConcat(m, head, SIGNATURE + a + b + c, d);
    HasConcat(m, head, SIGNATURE + a + b + c + d, e);
  }

  // ----- The writer -----

  function RoundUp16(addr: nat): (r: nat)
    ensures addr <= r < addr + 16 && r % 16 == 0
  {
    (addr + 15) / 16 * 16
  }

  /** The record that `lb_new_record` begins. */
  const UNUSED: seq<byte> := Le32(0) + Le32(8)

  lemma LastSplit(rs: seq<seq<byte>>)
    requires rs != []
    ensures rs == Earlier(rs) + [rs[|rs| - 1]] && Flat(rs) == Flat(Earlier(rs)) + rs[|rs| - 1]
  {
    hide *;
    LastApart(rs);
    FlatSnoc(Earlier(rs), rs[|rs| - 1]);
  }

  lemma LastApart(rs: seq<seq<byte>>)
    requires rs != []
    ensures rs == Earlier(rs) + [rs[|rs| - 1]]
  {
    hide Flat;
  }

  lemma FlatShorter(rs: seq<seq<byte>>)
    ensures |Flat(Earlier(rs))| <= |Flat(rs)|
  {
    if rs != [] {
      LastSplit(rs);
    }
  }

  lemma RecordSize(m: seq<byte>, at: nat, r: seq<byte>)
    requires Has(m, at, r) && Record(r)
    ensures Read32(m, at + 4) == |r|
  {
    hide Le32, Read32;
    assert r == r[..4] + r[4..8] + r[8..];
    HasPart(m, at, r[..4], r[4..8], r[8..]);
    ReadOfLe32(m, at + 4, |r|);
  }

  /** The header with one of its fields, named by its offset, replaced. */
  function WithField(h: Header, field: nat, v: nat): Header {
    if field == 8 then h.(headerChecksum := v)
    else if field == 12 then h.(tableBytes := v)
    else if field == 16 then h.(tableChecksum := v)
    else h.(entries := v)
  }

  predicate IsField(field: nat) {
    field == 8 || field == 12 || field == 16 || field == 20
  }

  lemma FieldPut(a: seq<byte>, b: seq<byte>, head: nat, h: Header, body: seq<byte>, field: nat, v: nat)
    requires Image(a, head, h, body) && IsField(field)
    requires OnlyIn(a, b, head + field, head + field + 4, 0, 0) && Has(b, head + field, Le32(v))
    ensures Image(b, head, WithField(h, field, v), body)
  {
    hide Le32, OnlyIn, HeaderBytes, Has;
    HeaderWords(a, head, h);
    var s0, s1 := head + field, head + field + 4;
    HasKept(a, b, s0, s1, 0, 0, head, SIGNATURE);
    HasKept(a, b, s0, s1, 0, 0, head + 4, Le32(HEADER_SIZE));
    HasKept(a, b, s0, s1, 0, 0, head + HEADER_SIZE, body);
    OtherField(a, b, head, field, 8, h.headerChecksum);
    OtherField(a, b, head, field, 12, h.tableBytes);
    OtherField(a, b, head, field, 16, h.tableChecksum);
    OtherField(a, b, head, field, 20, h.entries);
    HeaderFromWords(b, head, WithField(h, field, v));
  }

  lemma OtherField(a: seq<byte>, b: seq<byte>, head: nat, field: nat, other: nat, v: nat)
    requires OnlyIn(a, b, head + field, head + field + 4, 0, 0) && Has(a, head + other, Le32(v))
    requires IsField(field) && IsField(other)
    ensures other != field ==> Has(b, head + other, Le32(v))
  {
    hide Le32, OnlyIn, Has;
    if other != field {
      HasKept(a, b, head + field, head + field + 4, 0, 0, head + other, Le32(v));
    }
  }

  /** The records up to some point stay when something is put behind them. */
  lemma TailPut(a: seq<byte>, b: seq<byte>, head: nat, h: Header, body: seq<byte>, tail: seq<byte>, s: seq<byte>)
    requires Image(a, head, h, body + tail)
    requires var end := head + HEADER_SIZE + |body|;
             OnlyIn(a, b, end, end + |s|, 0, 0) && Has(b, end, s)
    ensures Image(b, head, h, body + s)
  {
    hide Le32, OnlyIn, HeaderBytes, Has;
    var end := head + HEADER_SIZE + |body|;
    HasConcat(a, head + HEADER_SIZE, body, tail);
    HasKept(a, b, end, end + |s|, 0, 0, head, HeaderBytes(h));
    HasKept(a, b, end, end + |s|, 0, 0, head + HEADER_SIZE, body);
    HasConcat(b, head + HEADER_SIZE, body, s);
  }

  /** What is read back from a header. */
  lemma FieldsRead(m: seq<byte>, head: nat, h: Header, body: seq<byte>)
    requires Image(m, head, h, body)
    ensures h.headerChecksum < TWO32 ==> Read32(m, head + 8) == h.headerChecksum
    ensures h.tableBytes < TWO32 ==> Read32(m, head + 12) == h.tableBytes
    ensures h.tableChecksum < TWO32 ==> Read32(m, head + 16) == h.tableChecksum
    ensures h.entries < TWO32 ==> Read32(m, head + 20) == h.entries
    ensures Read32(m, head + 4) == HEADER_SIZE && Has(m, head, SIGNATURE)
  {
    hide Le32, Read32, HeaderBytes, Has;
    HeaderWords(m, head, h);
    ReadOfLe32(m, head + 4, HEADER_SIZE);
    if h.headerChecksum < TWO32 { ReadOfLe32(m, head + 8, h.headerChecksum); }
    if h.tableBytes < TWO32 { ReadOfLe32(m, head + 12, h.tableBytes); }
    if h.tableChecksum < TWO32 { ReadOfLe32(m, head + 16, h.tableChecksum); }
    if h.entries < TWO32 { ReadOfLe32(m, head + 20, h.entries); }
  }

  lemma LastSizeRead(m: seq<byte>, head: nat, h: Header, rs: seq<seq<byte>>)
    requires Image(m, head, h, Flat(rs)) && Records(rs) && rs != []
    ensures Read32(m, head + HEADER_SIZE + |Flat(Earlier(rs))| + 4) == |rs[|rs| - 1]|
  {
    hide Le32, Read32, HeaderBytes, Has, Flat, Record;
    LastSplit(rs);
    HasConcat(m, head + HEADER_SIZE, Flat(Earlier(rs)), rs[|rs| - 1]);
    RecordSize(m, head + HEADER_SIZE + |Flat(Earlier(rs))|, rs[|rs| - 1]);
  }

  lemma ImageFits(m: seq<byte>, head: nat, h: Header, rs: seq<seq<byte>>)
    requires Image(m, head, h, Flat(rs)) && Records(rs)
    ensures head + HEADER_SIZE + |Flat(rs)| <= |m| && |rs| <= |m| && |Flat(Earlier(rs))| <= |Flat(rs)|
  {
    FlatLong(rs);
    FlatShorter(rs);
  }

  lemma UnusedRecord()
    ensures Record(UNUSED) && |UNUSED| == 8
  {
    hide Le32;
  }

  lemma RecordsMore(rs: seq<seq<byte>>, r: seq<byte>)
    requires Records(rs) && Record(r)
    ensures Records(rs + [r]) && Earlier(rs + [r]) == rs
  {
    hide Record;
    assert (rs + [r])[..|rs|] == rs;
  }

  lemma EarlierRecords(rs: seq<seq<byte>>)
    requires Records(rs)
    ensures Records(Earlier(rs))
  {
  }

  class Table {
    const mem: array<byte>
    const head: nat
    ghost var records: seq<seq<byte>>

    ghost predicate Valid()
      reads this, mem
    {
      mem.Length < TWO32 && Records(records) && Image(mem[..], head, Unsealed(records), Flat(records))
    }

    /** `lb_table_init` */
    constructor (mem: array<byte>, addr: nat)
      requires RoundUp16(addr) + HEADER_SIZE <= mem.Length < TWO32
      modifies mem
      ensures Valid() && this.mem == mem && head == RoundUp16(addr) && records == []
      ensures OnlyIn(old(mem[..]), mem[..], head, head + HEADER_SIZE, 0, 0)
    {
      this.mem, head, records := mem, RoundUp16(addr), [];
      new;
      hide Le32, OnlyIn, HeaderBytes, Record;
      Put(mem, head, HeaderBytes(Header(0, 0, 0, 0)));
      assert Flat([]) == [] && Unsealed([]) == Header(0, 0, 0, 0);
      assert mem[..][head + HEADER_SIZE..head + HEADER_SIZE] == [];
    }

    /** `lb_last_record` */
    method LastRecord() returns (at: nat)
      ensures at == head + HEADER_SIZE + Read32(mem[..], head + 12)
    {
      at := head + HEADER_SIZE + Read32(mem[..], head + 12);
    }

    /** Writes one field of the header. */
    method SetField(field: nat, v: nat, ghost h: Header, ghost body: seq<byte>)
      requires IsField(field) && Image(mem[..], head, h, body)
      modifies mem
      ensures Image(mem[..], head, WithField(h, field, v), body)
      ensures OnlyIn(old(mem[..]), mem[..], head, head + HEADER_SIZE, 0, 0)
    {
      ghost var before := mem[..];
      assert head + HEADER_SIZE <= mem.Length;
      hide Le32, HeaderBytes, Image, WithField;
      Put(mem, head + field, Le32(v));
      FieldPut(before, mem[..], head, h, body, field, v);
    }

    /** `table_bytes` is made to include the last record, if there is one. */
    method AccountForLast()
      requires Valid()
      modifies mem
      ensures Image(mem[..], head, Unsealed(records).(tableBytes := |Flat(records)|), Flat(records))
      ensures OnlyIn(old(mem[..]), mem[..], head, head + HEADER_SIZE, 0, 0)
    {
      hide Le32, Read32, HeaderBytes, Image, OnlyIn, Has, Flat, Record, Records, WithField;
      ghost var h := Unsealed(records);
      ImageFits(mem[..], head, h, records);
      FieldsRead(mem[..], head, h, Flat(records));
      var at := LastRecord();
      if Read32(mem[..], head + 20) != 0 {
        LastSplit(records);
        LastSizeRead(mem[..], head, h, records);
        SetField(12, Read32(mem[..], head + 12) + Read32(mem[..], at + 4), h, Flat(records));
        FieldsNamed(h, |Flat(records)|);
      } else {
        NothingYet(mem[..], head);
      }
    }

    /** `lb_new_record` */
    method NewRecord() returns (at: nat)
      requires Valid() && head + HEADER_SIZE + |Flat(records)| + 8 <= mem.Length
      modifies this, mem
      ensures Valid() && records == old(records) + [UNUSED] && at == head + HEADER_SIZE + |Flat(old(records))|
      ensures OnlyIn(old(mem[..]), mem[..], head, at + 8, 0, 0)
    {
      hide Le32, Read32, HeaderBytes, Image, OnlyIn, Has, Flat, Record, Records, WithField;
      ghost var rs, first := records, mem[..];
      ghost var h := Unsealed(rs).(tableBytes := |Flat(rs)|);
      ImageFits(mem[..], head, Unsealed(rs), rs);
      AccountForLast();
      ghost var second := mem[..];
      FieldsRead(mem[..], head, h, Flat(rs));
      at := LastRecord();
      SetField(20, Read32(mem[..], head + 20) + 1, h, Flat(rs));
      FieldsNamed(h, |rs| + 1);
      ghost var third := mem[..];
      PutUnused(at, h.(entries := |rs| + 1));
      UnusedRecord();
      RecordsMore(rs, UNUSED);
      FlatSnoc(rs, UNUSED);
      records := rs + [UNUSED];
      OnlyInTwice(first, second, third, mem[..], head, head + HEADER_SIZE, at, at + 8);
    }

    method PutUnused(at: nat, ghost h: Header)
      requires at == head + HEADER_SIZE + |Flat(records)| && at + 8 <= mem.Length
      requires Image(mem[..], head, h, Flat(records))
      modifies mem
      ensures Image(mem[..], head, h, Flat(records) + UNUSED)
      ensures OnlyIn(old(mem[..]), mem[..], at, at + 8, 0, 0)
    {
      hide Le32, HeaderBytes, Image, OnlyIn, Has, Flat;
      ghost var a := mem[..];
      UnusedRecord();
      Put(mem, at, UNUSED);
      assert Flat(records) + [] == Flat(records);
      TailPut(a, mem[..], head, h, Flat(records), [], UNUSED);
    }

    /** What the caller of `lb_new_record` does with the record that it has begun: it may become longer. */
    method Fill(r: seq<byte>)
      requires Valid() && records != [] && Record(r)
      requires head + HEADER_SIZE + |Flat(Earlier(records))| + |r| <= mem.Length
      modifies this, mem
      ensures Valid() && records == Earlier(old(records)) + [r]
      ensures OnlyIn(old(mem[..]), mem[..], head + HEADER_SIZE + |Flat(Earlier(records))|,
                     head + HEADER_SIZE + |Flat(records)|, 0, 0)
    {
      hide Le32, HeaderBytes, Image, OnlyIn, Has, Flat, Record, Records;
      ghost var a, rs := mem[..], records;
      ghost var before := Earlier(rs);
      LastSplit(rs);
      EarlierRecords(rs);
      var at := LastRecord();
      FieldsRead(a, head, Unsealed(rs), Flat(rs));
      ImageFits(a, head, Unsealed(rs), rs);
      Put(mem, at, r);
      TailPut(a, mem[..], head, Unsealed(rs), Flat(before), rs[|rs| - 1], r);
      RecordsMore(before, r);
      FlatSnoc(before, r);
      records := before + [r];
    }

    /** `lb_table_fini`; the size that it adds for a table without records is whatever is in memory there. */
    method Fini() returns (end: nat)
      requires Valid()
      modifies mem
      ensures Finished(mem[..], head, records)
      ensures records != [] ==> end == head + HEADER_SIZE + |Flat(records)|
      ensures records == [] ==> end == head + HEADER_SIZE + Read32(mem[..], head + HEADER_SIZE + 4)
      ensures OnlyIn(old(mem[..]), mem[..], head, head + HEADER_SIZE, 0, 0)
    {
      hide Le32, Read32, HeaderBytes, Image, OnlyIn, Has, Flat, Record, Records, WithField;
      ghost var rs, first := records, mem[..];
      ghost var h := Unsealed(rs).(tableBytes := |Flat(rs)|);
      ImageFits(mem[..], head, Unsealed(rs), rs);
      FieldsRead(mem[..], head, Unsealed(rs), Flat(rs));
      var rec := LastRecord();
      AccountForLast();
      ghost var second := mem[..];
      FieldsRead(mem[..], head, h, Flat(rs));
      SealTable(h);
      OnlyInTwice(first, second, mem[..], mem[..], head, head + HEADER_SIZE, head + HEADER_SIZE, head + HEADER_SIZE);
      if rs != [] {
        LastSizeRead(mem[..], head, Sealed(rs), rs);
        LastSplit(rs);
      } else {
        FlatStep([], []);
      }
      end := rec + Read32(mem[..], rec + 4);
    }

    /** The checksums of the records and then of the header. */
    method SealTable(ghost h: Header)
      requires h == Header(0, |Flat(records)|, 0, |records|) && |Flat(records)| < TWO32
      requires Image(mem[..], head, h, Flat(records))
      modifies mem
      ensures Image(mem[..], head, Sealed(records), Flat(records))
      ensures OnlyIn(old(mem[..]), mem[..], head, head + HEADER_SIZE, 0, 0)
    {
      hide Le32, Read32, Slice, HeaderBytes, OnlyIn, Has, Flat, WithField, Checksum;
      ghost var rs, first := records, mem[..];
      FieldsRead(mem[..], head, h, Flat(rs));
      SliceOfHas(mem[..], head + HEADER_SIZE, Flat(rs));
      var sum := ComputeIpChecksum(Slice(mem[..], head + HEADER_SIZE, Read32(mem[..], head + 12)), false);
      SetField(16, sum, h, Flat(rs));
      ghost var second := mem[..];
      ghost var h1 := h.(tableChecksum := sum);
      FieldsNamed(h, sum);
      SetField(8, 0, h1, Flat(rs));
      FieldsNamed(h1, 0);
      ghost var third := mem[..];
      SliceOfHas(mem[..], head, HeaderBytes(h1));
      sum := ComputeIpChecksum(Slice(mem[..], head, HEADER_SIZE), false);
      FieldsNamed(h1, sum);
      SetField(8, sum, h1, Flat(rs));
      OnlyInThrice(first, second, third, mem[..], head, head + HEADER_SIZE);
    }
  }

  lemma NothingYet(m: seq<byte>, head: nat)
    ensures Unsealed([]).(tableBytes := |Flat([])|) == Unsealed([])
    ensures OnlyIn(m, m, head, head + HEADER_SIZE, 0, 0)
  {
  }

  lemma OnlyInTwice(a: seq<byte>, b: seq<byte>, c: seq<byte>, d: seq<byte>, s0: nat, s1: nat, t: nat, s2: nat)
    requires s0 <= s1 <= t <= s2 && OnlyIn(a, b, s0, s1, 0, 0) && OnlyIn(b, c, s0, s1, 0, 0) &&
             OnlyIn(c, d, t, s2, 0, 0)
    ensures OnlyIn(a, d, s0, s2, 0, 0)
  {
  }

  lemma OnlyInThrice(a: seq<byte>, b: seq<byte>, c: seq<byte>, d: seq<byte>, s0: nat, s1: nat)
    requires OnlyIn(a, b, s0, s1, 0, 0) && OnlyIn(b, c, s0, s1, 0, 0) && OnlyIn(c, d, s0, s1, 0, 0)
    ensures OnlyIn(a, d, s0, s1, 0, 0)
  {
  }

  lemma FieldsNamed(h: Header, v: nat)
    ensures WithField(h, 8, v) == h.(headerChecksum := v) && WithField(h, 12, v) == h.(tableBytes := v)
    ensures WithField(h, 16, v) == h.(tableChecksum := v) && WithField(h, 20, v) == h.(entries := v)
  {
  }
}

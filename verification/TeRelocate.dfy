/**
 Relocation of a TE image in place (PI Specification, volume 1): the relocation directory is a
 list of blocks, each with a list of 16-bit entries that name words of the image.
 */
module TeRelocate {
  import opened Bytes
  import opened Memory

  const HEADER_SIZE := 40
  const ABSOLUTE := 0
  const HIGHLOW := 3

  /** `Astray`: the directory led out of the image. */
  datatype Status = Done | Failed | Astray

  function Read16(m: seq<byte>, at: nat): (v: nat)
    ensures v < 0x1_0000
  {
    var b0: int, b1: int := Peek(m, at), Peek(m, at + 1);
    b0 + b1 * 0x100
  }

  /** The image with the bytes s at `at`. */
  function Stored(m: seq<byte>, at: nat, s: seq<byte>): (r: seq<byte>)
    requires at + |s| <= |m|
    ensures |r| == |m| && Has(r, at, s) && OnlyIn(m, r, at, at + |s|, 0, 0)
  {
    m[..at] + s + m[at + |s|..]
  }

  /** The image with adj added to the word at `at`. */
  function Bumped(m: seq<byte>, at: nat, adj: int): (r: seq<byte>)
    requires at + 4 <= |m|
    ensures |r| == |m| && OnlyIn(m, r, at, at + 4, 0, 0)
  {
    Stored(m, at, Le32((Read32(m, at) + adj) % TWO32))
  }

  // ----- What the walk does to an image -----

  /** One entry; `base` is where the offsets of its block start in the image. */
  function Entry(m: seq<byte>, reloc: nat, base: int, adj: int): (r: (seq<byte>, Status))
    ensures |r.0| == |m|
  {
    var at := base + reloc % 0x1000;
    if reloc / 0x1000 == HIGHLOW then
      if 0 <= at && at + 4 <= |m| then (Bumped(m, at, adj), Done) else (m, Astray)
    else if reloc / 0x1000 == ABSOLUTE then (m, Done)
    else (m, Failed)
  }

  function Entries(m: seq<byte>, at: nat, n: nat, base: int, adj: int): (r: (seq<byte>, Status))
    ensures |r.0| == |m|
    ensures r.1.Done? ==> n == 0 || at + 2 * n <= |m|
    decreases n
  {
    if n == 0 then (m, Done)
    else if at + 2 > |m| then (m, Astray)
    else
      var (t, status) := Entry(m, Read16(m, at), base, adj);
      if status.Done? then Entries(t, at + 2, n - 1, base, adj) else (t, status)
  }

  /** The number of entries in a block of `size` bytes, as an unsigned difference of 64 bits. */
  function EntryCount(size: nat): (n: nat)
    ensures size == 0 ==> 8 + 2 * n == TWO64
  {
    (if size >= 8 then size - 8 else TWO64 + size - 8) / 2
  }

  /**
   The blocks from `at` on, when `offset` bytes of the directory have been gone through. A block
   that has patched its own size to nothing is gone through again, and then has more entries than
   any image.
   */
  function Blocks(m: seq<byte>, at: int, offset: nat, fixup: int, adj: int): (r: (seq<byte>, Status))
    requires |m| < TWO64
    ensures |r.0| == |m|
    decreases TWO32 - offset, if at >= 0 && Read32(m, at + 4) == 0 then 0 else 1
  {
    if offset >= Read32(m, 28) then (m, Done)
    else if at < 0 || at + 8 > |m| then (m, Astray)
    else
      var (t, status) := Entries(m, at + 8, EntryCount(Read32(m, at + 4)), Read32(m, at) - fixup, adj);
      var size := Read32(t, at + 4);
      if !status.Done? then (t, status)
      else Blocks(t, at + size, offset + size, fixup, adj)
  }

  // ----- The header -----

  /** "VZ" */
  const SIGNATURE := 0x5A56

  /** How much further back the image would start if nothing had been stripped from it. */
  function Fixup(m: seq<byte>): int {
    Read16(m, 6) - HEADER_SIZE
  }

  function ImageBase(m: seq<byte>): nat {
    Read32(m, 16) + TWO32 * Read32(m, 20)
  }

  /** By how much the words change when the image moves to `newAddr`. */
  function Adjustment(m: seq<byte>, newAddr: nat): (adj: nat)
    ensures adj < TWO32
  {
    (newAddr - (ImageBase(m) + Fixup(m))) % TWO32
  }

  function Rebased(m: seq<byte>, newAddr: nat): (r: seq<byte>)
    requires |m| >= HEADER_SIZE
    ensures |r| == |m|
  {
    Stored(m, 16, Le32((ImageBase(m) + Adjustment(m, newAddr)) % TWO32) + Le32(0))
  }

  /** Where the relocation directory starts in the image. */
  function Directory(m: seq<byte>): int {
    Read32(m, 24) - Fixup(m)
  }

  function Relocated(m: seq<byte>, newAddr: nat): (r: (seq<byte>, Status))
    requires HEADER_SIZE <= |m| < TWO64
    ensures |r.0| == |m|
  {
    if Read16(m, 0) != SIGNATURE then (m, Failed)
    else
      var t := Rebased(m, newAddr);
      Blocks(t, Directory(t), 0, Fixup(m), Adjustment(m, newAddr))
  }

  // ----- In place -----

  lemma StoredUnique(m: seq<byte>, r: seq<byte>, at: nat, s: seq<byte>)
    requires at + |s| <= |m| && Has(r, at, s) && OnlyIn(m, r, at, at + |s|, 0, 0)
    ensures r == Stored(m, at, s)
  {
    var t := Stored(m, at, s);
    forall i | 0 <= i < |m| ensures r[i] == t[i] {
      if at <= i < at + |s| {
        assert r[at..at + |s|][i - at] == t[at..at + |s|][i - at];
      }
    }
  }

  method Store(te: array<byte>, at: nat, s: seq<byte>)
    requires at + |s| <= te.Length
    modifies te
    ensures te[..] == Stored(old(te[..]), at, s)
  {
    hide *;
    ghost var m := te[..];
    Put(te, at, s);
    StoredUnique(m, te[..], at, s);
  }

  method Bump(te: array<byte>, at: nat, adj: int)
    requires at + 4 <= te.Length
    modifies te
    ensures te[..] == Bumped(old(te[..]), at, adj)
  {
    hide Stored, Le32, Read32;
    var val := Read32(te[..], at);
    Store(te, at, Le32((val + adj) % TWO32));
  }

  lemma EntriesStep(m: seq<byte>, at: nat, n: nat, base: int, adj: int)
    ensures n == 0 ==> Entries(m, at, n, base, adj) == (m, Done)
    ensures n > 0 && at + 2 > |m| ==> Entries(m, at, n, base, adj) == (m, Astray)
    ensures n > 0 && at + 2 <= |m| ==>
              var r := Entry(m, Read16(m, at), base, adj);
              Entries(m, at, n, base, adj) == if r.1.Done? then Entries(r.0, at + 2, n - 1, base, adj) else r
  {
    hide Entry, Read16;
  }

  method RelocateEntry(te: array<byte>, val: nat, base: int, adj: int) returns (status: Status)
    modifies te
    ensures (te[..], status) == Entry(old(te[..]), val, base, adj)
  {
    hide Bumped;
    var kind, offset := val / 0x1000, val % 0x1000;
    if kind == HIGHLOW {
      var at := offset + base;
      if at < 0 || at + 4 > te.Length {
        return Astray;
      }
      Bump(te, at, adj);
    } else if kind != ABSOLUTE {
      return Failed;
    }
    return Done;
  }

  /** The inner loop of `te_relocate` */
  method RelocateEntries(te: array<byte>, at: nat, n: nat, base: int, adj: int) returns (status: Status)
    modifies te
    ensures (te[..], status) == Entries(old(te[..]), at, n, base, adj)
  {
    hide *;
    ghost var m := te[..];
    var reloc: nat, left: nat := at, n;
    while left > 0
      invariant Entries(m, at, n, base, adj) == Entries(te[..], reloc, left, base, adj)
    {
      EntriesStep(te[..], reloc, left, base, adj);
      if reloc + 2 > te.Length {
        return Astray;
      }
      status := RelocateEntry(te, Read16(te[..], reloc), base, adj);
      if status != Done {
        return;
      }
      left, reloc := left - 1, reloc + 2;
    }
    EntriesStep(te[..], reloc, left, base, adj);
    return Done;
  }

  lemma BlocksStep(m: seq<byte>, at: int, offset: nat, fixup: int, adj: int)
    requires |m| < TWO64
    ensures offset >= Read32(m, 28) ==> Blocks(m, at, offset, fixup, adj) == (m, Done)
    ensures offset < Read32(m, 28) && (at < 0 || at + 8 > |m|) ==> Blocks(m, at, offset, fixup, adj) == (m, Astray)
    ensures offset < Read32(m, 28) && 0 <= at && at + 8 <= |m| ==>
              var r := Entries(m, at + 8, EntryCount(Read32(m, at + 4)), Read32(m, at) - fixup, adj);
              var size := Read32(r.0, at + 4);
              Blocks(m, at, offset, fixup, adj) ==
                if !r.1.Done? then r else Blocks(r.0, at + size, offset + size, fixup, adj)
  {
    hide Entries, Read32, EntryCount;
  }

  /** The outer loop of `te_relocate` */
  method RelocateBlocks(te: array<byte>, at: int, fixup: int, adj: int) returns (status: Status)
    requires te.Length < TWO64
    modifies te
    ensures (te[..], status) == Blocks(old(te[..]), at, 0, fixup, adj)
  {
    hide *;
    ghost var m := te[..];
    var relocb: int, offset: nat := at, 0;
    while offset < Read32(te[..], 28)
      invariant Blocks(m, at, 0, fixup, adj) == Blocks(te[..], relocb, offset, fixup, adj)
      decreases TWO32 - offset, if relocb >= 0 && Read32(te[..], relocb + 4) == 0 then 0 else 1
    {
      BlocksStep(te[..], relocb, offset, fixup, adj);
      if relocb < 0 || relocb + 8 > te.Length {
        return Astray;
      }
      var n := EntryCount(Read32(te[..], relocb + 4));
      status := RelocateEntries(te, relocb + 8, n, Read32(te[..], relocb) - fixup, adj);
      if status != Done {
        return;
      }
      var size := Read32(te[..], relocb + 4);
      offset, relocb := offset + size, relocb + size;
    }
    BlocksStep(te[..], relocb, offset, fixup, adj);
    return Done;
  }

  /** `te_relocate` */
  method TeRelocateImage(te: array<byte>, newAddr: nat) returns (status: Status)
    requires HEADER_SIZE <= te.Length < TWO64
    modifies te
    ensures (te[..], status) == Relocated(old(te[..]), newAddr)
  {
    hide Stored, Le32, Read32, Read16, Blocks, Fixup, ImageBase, Adjustment, Directory;
    if Read16(te[..], 0) != SIGNATURE {
      return Failed;
    }
    var fixup, imageBase := Fixup(te[..]), ImageBase(te[..]);
    var adj := Adjustment(te[..], newAddr);
    Store(te, 16, Le32((imageBase + adj) % TWO32) + Le32(0));
    status := RelocateBlocks(te, Directory(te[..]), fixup, adj);
  }

  // ----- Which words an image lists -----

  /** Where the words named by n entries from `at` on are. */
  function SitesOf(m: seq<byte>, at: nat, n: nat, base: int): seq<int>
    decreases n
  {
    if n == 0 then [] else
      var v := Read16(m, at);
      (if v / 0x1000 == HIGHLOW then [base + v % 0x1000] else []) + SitesOf(m, at + 2, n - 1, base)
  }

  /** Every entry names a word, or is only there to fill its block. */
  ghost predicate Known(m: seq<byte>, at: nat, n: nat)
    decreases n
  {
    n > 0 ==>
      && (Read16(m, at) / 0x1000 == HIGHLOW || Read16(m, at) / 0x1000 == ABSOLUTE)
      && Known(m, at + 2, n - 1)
  }

  /** Where the words of all blocks are, the directory ending at `end`. */
  function AllSites(m: seq<byte>, at: nat, end: nat, fixup: int): seq<int>
    decreases end - at
  {
    if at >= end || Read32(m, at + 4) < 8 then [] else
      var size := Read32(m, at + 4);
      SitesOf(m, at + 8, EntryCount(size), Read32(m, at) - fixup) + AllSites(m, at + size, end, fixup)
  }

  /** The blocks fill the directory, and all their entries are known. */
  ghost predicate GoodBlocks(m: seq<byte>, at: nat, end: nat)
    decreases end - at
  {
    at < end ==>
      var size := Read32(m, at + 4);
      && 8 <= size && at + size <= end
      && Known(m, at + 8, EntryCount(size))
      && GoodBlocks(m, at + size, end)
  }

  /** A word inside the image and outside [lo, hi). */
  predicate Outside(m: seq<byte>, site: int, lo: nat, hi: nat) {
    0 <= site && site + 4 <= |m| && (site + 4 <= lo || hi <= site)
  }

  ghost predicate AllOutside(m: seq<byte>, sites: seq<int>, lo: nat, hi: nat) {
    forall i :: 0 <= i < |sites| ==> Outside(m, sites[i], lo, hi)
  }

  ghost predicate Apart(sites: seq<int>) {
    forall i, j :: 0 <= i < j < |sites| ==> sites[i] + 4 <= sites[j] || sites[j] + 4 <= sites[i]
  }

  /** The image with adj added to all the words. */
  function Patched(m: seq<byte>, sites: seq<int>, adj: int): (r: seq<byte>)
    requires AllOutside(m, sites, 0, 0)
    ensures |r| == |m|
    decreases |sites|
  {
    if sites == [] then m else
      var s := sites[0];
      assert Outside(m, s, 0, 0);
      assert forall i :: 0 <= i < |sites[1..]| ==> Outside(m, sites[1..][i], 0, 0);
      Patched(Bumped(m, s, adj), sites[1..], adj)
  }

  // ----- What is read does not depend on the words that are patched -----

  ghost predicate Agree(m: seq<byte>, t: seq<byte>, lo: nat, hi: nat) {
    |m| == |t| && hi <= |m| && forall i :: lo <= i < hi ==> m[i] == t[i]
  }

  lemma ReadsAgree(m: seq<byte>, t: seq<byte>, lo: nat, hi: nat, at: nat)
    requires Agree(m, t, lo, hi) && lo <= at
    ensures at + 2 <= hi ==> Read16(m, at) == Read16(t, at)
    ensures at + 4 <= hi ==> Read32(m, at) == Read32(t, at)
  {
  }

  lemma {:induction false} SitesAgree(m: seq<byte>, t: seq<byte>, lo: nat, hi: nat, at: nat, n: nat, base: int)
    requires Agree(m, t, lo, hi) && lo <= at && at + 2 * n <= hi
    ensures SitesOf(m, at, n, base) == SitesOf(t, at, n, base) && (Known(m, at, n) <==> Known(t, at, n))
    decreases n
  {
    hide Agree, Read16;
    if n > 0 {
      ReadsAgree(m, t, lo, hi, at);
      SitesAgree(m, t, lo, hi, at + 2, n - 1, base);
    }
  }

  lemma EntriesFit(size: nat)
    requires size >= 8
    ensures 8 + 2 * EntryCount(size) <= size
  {
  }

  lemma {:induction false} BlocksAgree(m: seq<byte>, t: seq<byte>, lo: nat, hi: nat, at: nat, end: nat, fixup: int)
    requires Agree(m, t, lo, hi) && lo <= at && end <= hi && GoodBlocks(m, at, end)
    ensures AllSites(m, at, end, fixup) == AllSites(t, at, end, fixup) && GoodBlocks(t, at, end)
    decreases end - at
  {
    hide Agree, Read16, Read32, EntryCount, SitesOf, Known;
    if at < end {
      var size := Read32(m, at + 4);
      EntriesFit(size);
      ReadsAgree(m, t, lo, hi, at);
      ReadsAgree(m, t, lo, hi, at + 4);
      SitesAgree(m, t, lo, hi, at + 8, EntryCount(size), Read32(m, at) - fixup);
      BlocksAgree(m, t, lo, hi, at + size, end, fixup);
    }
  }

  lemma BumpAgrees(m: seq<byte>, site: int, adj: int, lo: nat, hi: nat)
    requires Outside(m, site, lo, hi) && hi <= |m|
    ensures Agree(m, Bumped(m, site, adj), lo, hi)
  {
    hide Bumped;
  }

  lemma AgreeChain(a: seq<byte>, b: seq<byte>, c: seq<byte>, lo: nat, hi: nat)
    requires Agree(a, b, lo, hi) && Agree(b, c, lo, hi)
    ensures Agree(a, c, lo, hi)
  {
  }

  lemma OutsideAnyway(m: seq<byte>, sites: seq<int>, lo: nat, hi: nat)
    requires AllOutside(m, sites, lo, hi)
    ensures AllOutside(m, sites, 0, 0)
  {
  }

  /** The first of the words, and the others. */
  lemma PatchStep(m: seq<byte>, site: int, sites: seq<int>, adj: int)
    requires AllOutside(m, [site] + sites, 0, 0)
    ensures Outside(m, site, 0, 0) && AllOutside(Bumped(m, site, adj), sites, 0, 0)
    ensures Patched(m, [site] + sites, adj) == Patched(Bumped(m, site, adj), sites, adj)
  {
    var all := [site] + sites;
    assert Outside(m, all[0], 0, 0) && all[1..] == sites;
    forall i | 0 <= i < |sites| ensures Outside(m, sites[i], 0, 0) {
      assert Outside(m, all[i + 1], 0, 0);
    }
    hide Bumped;
  }

  lemma NoPatch(m: seq<byte>, adj: int)
    ensures Patched(m, [], adj) == m
  {
  }

  lemma OutsideParts(m: seq<byte>, a: seq<int>, b: seq<int>, lo: nat, hi: nat)
    ensures AllOutside(m, a + b, lo, hi) <==> AllOutside(m, a, lo, hi) && AllOutside(m, b, lo, hi)
  {
    if AllOutside(m, a + b, lo, hi) {
      forall i | 0 <= i < |a| ensures Outside(m, a[i], lo, hi) {
        assert Outside(m, (a + b)[i], lo, hi);
      }
      forall i | 0 <= i < |b| ensures Outside(m, b[i], lo, hi) {
        assert Outside(m, (a + b)[|a| + i], lo, hi);
      }
    }
  }

  lemma OutsideSame(m: seq<byte>, t: seq<byte>, sites: seq<int>, lo: nat, hi: nat)
    requires AllOutside(m, sites, lo, hi) && |t| == |m|
    ensures AllOutside(t, sites, lo, hi)
  {
  }

  /** The words can be patched in two lots. */
  lemma {:induction false} PatchParts(m: seq<byte>, a: seq<int>, b: seq<int>, adj: int)
    requires AllOutside(m, a + b, 0, 0)
    ensures AllOutside(m, a, 0, 0) && AllOutside(Patched(m, a, adj), b, 0, 0)
    ensures Patched(m, a + b, adj) == Patched(Patched(m, a, adj), b, adj)
    decreases |a|
  {
    hide Patched, AllOutside, Bumped;
    OutsideParts(m, a, b, 0, 0);
    if a == [] {
      assert a + b == b;
      NoPatch(m, adj);
    } else {
      var s, rest := a[0], a[1..];
      assert a == [s] + rest && a + b == [s] + (rest + b);
      PatchStep(m, s, rest + b, adj);
      PatchStep(m, s, rest, adj);
      PatchParts(Bumped(m, s, adj), rest, b, adj);
    }
  }

  lemma {:induction false} PatchAgrees(m: seq<byte>, sites: seq<int>, adj: int, lo: nat, hi: nat)
    requires AllOutside(m, sites, lo, hi) && hi <= |m|
    ensures AllOutside(m, sites, 0, 0) && Agree(m, Patched(m, sites, adj), lo, hi)
    decreases |sites|
  {
    hide Patched, AllOutside, Bumped, Agree;
    OutsideAnyway(m, sites, lo, hi);
    if sites == [] {
      NoPatch(m, adj);
      AgreeSelf(m, lo, hi);
    } else {
      var s, rest := sites[0], sites[1..];
      assert sites == [s] + rest;
      OutsideParts(m, [s], rest, lo, hi);
      PatchStep(m, s, rest, adj);
      OneOutside(m, s, lo, hi);
      BumpAgrees(m, s, adj, lo, hi);
      OutsideSame(m, Bumped(m, s, adj), rest, lo, hi);
      PatchAgrees(Bumped(m, s, adj), rest, adj, lo, hi);
      AgreeChain(m, Bumped(m, s, adj), Patched(m, sites, adj), lo, hi);
    }
  }

  lemma AgreeSelf(m: seq<byte>, lo: nat, hi: nat)
    requires hi <= |m|
    ensures Agree(m, m, lo, hi)
  {
  }

  lemma OneOutside(m: seq<byte>, site: int, lo: nat, hi: nat)
    ensures AllOutside(m, [site], lo, hi) <==> Outside(m, site, lo, hi)
  {
    assert [site][0] == site;
  }

  // ----- The walk patches exactly the words that the directory lists -----

  lemma {:induction false} EntriesPatch(m: seq<byte>, at: nat, n: nat, base: int, adj: int, lo: nat, hi: nat)
    requires Known(m, at, n) && lo <= at && at + 2 * n <= hi <= |m| && AllOutside(m, SitesOf(m, at, n, base), lo, hi)
    ensures AllOutside(m, SitesOf(m, at, n, base), 0, 0)
    ensures Entries(m, at, n, base, adj) == (Patched(m, SitesOf(m, at, n, base), adj), Done)
    decreases n
  {
    hide Patched, AllOutside, Agree, Bumped, Entries, Read16;
    EntriesStep(m, at, n, base, adj);
    OutsideAnyway(m, SitesOf(m, at, n, base), lo, hi);
    if n == 0 {
      NoPatch(m, adj);
    } else {
      var rest := SitesOf(m, at + 2, n - 1, base);
      if Read16(m, at) / 0x1000 == HIGHLOW {
        var s := base + Read16(m, at) % 0x1000;
        OutsideParts(m, [s], rest, lo, hi);
        OneOutside(m, s, lo, hi);
        BumpAgrees(m, s, adj, lo, hi);
        var t := Bumped(m, s, adj);
        SitesAgree(m, t, lo, hi, at + 2, n - 1, base);
        OutsideSame(m, t, rest, lo, hi);
        PatchStep(m, s, rest, adj);
        EntriesPatch(t, at + 2, n - 1, base, adj, lo, hi);
      } else {
        assert [] + rest == rest;
        EntriesPatch(m, at + 2, n - 1, base, adj, lo, hi);
      }
    }
  }

  lemma {:induction false} BlocksPatch(m: seq<byte>, at: nat, offset: nat, fixup: int, adj: int, lo: nat, end: nat)
    requires GoodBlocks(m, at, end) && HEADER_SIZE <= lo <= at <= end <= |m| < TWO64
    requires end - at == Read32(m, 28) - offset
    requires AllOutside(m, AllSites(m, at, end, fixup), lo, end)
    requires AllOutside(m, AllSites(m, at, end, fixup), 0, HEADER_SIZE)
    ensures AllOutside(m, AllSites(m, at, end, fixup), 0, 0)
    ensures Blocks(m, at, offset, fixup, adj) == (Patched(m, AllSites(m, at, end, fixup), adj), Done)
    decreases end - at
  {
    hide Patched, AllOutside, Agree, Bumped, Entries, Read16, Read32, Blocks, SitesOf, Known, EntryCount;
    BlocksStep(m, at, offset, fixup, adj);
    OutsideAnyway(m, AllSites(m, at, end, fixup), lo, end);
    if at == end {
      NoPatch(m, adj);
    } else {
      var size, base := Read32(m, at + 4), Read32(m, at) - fixup;
      var n := EntryCount(size);
      EntriesFit(size);
      var a, b := SitesOf(m, at + 8, n, base), AllSites(m, at + size, end, fixup);
      OutsideParts(m, a, b, lo, end);
      OutsideParts(m, a, b, 0, HEADER_SIZE);
      EntriesPatch(m, at + 8, n, base, adj, lo, end);
      var t := Patched(m, a, adj);
      PatchAgrees(m, a, adj, lo, end);
      PatchAgrees(m, a, adj, 0, HEADER_SIZE);
      ReadsAgree(m, t, lo, end, at + 4);
      ReadsAgree(m, t, 0, HEADER_SIZE, 28);
      BlocksAgree(m, t, lo, end, at + size, end, fixup);
      OutsideSame(m, t, b, lo, end);
      OutsideSame(m, t, b, 0, HEADER_SIZE);
      PatchParts(m, a, b, adj);
      BlocksPatch(t, at + size, offset + size, fixup, adj, lo, end);
    }
  }

  /** An entry of another type stops the walk; the words named before it have been patched by then. */
  lemma {:induction false} EntriesStop(m: seq<byte>, at: nat, n: nat, k: nat, base: int, adj: int, lo: nat, hi: nat)
    requires k < n && Known(m, at, k) && Read16(m, at + 2 * k) / 0x1000 !in {0, 3}
    requires lo <= at && at + 2 * (k + 1) <= hi <= |m| && AllOutside(m, SitesOf(m, at, k, base), lo, hi)
    ensures AllOutside(m, SitesOf(m, at, k, base), 0, 0)
    ensures Entries(m, at, n, base, adj) == (Patched(m, SitesOf(m, at, k, base), adj), Failed)
    decreases k
  {
    hide Patched, AllOutside, Agree, Bumped, Entries, Read16;
    EntriesStep(m, at, n, base, adj);
    OutsideAnyway(m, SitesOf(m, at, k, base), lo, hi);
    if k == 0 {
      NoPatch(m, adj);
    } else {
      assert at + 2 + 2 * (k - 1) == at + 2 * k;
      var rest := SitesOf(m, at + 2, k - 1, base);
      if Read16(m, at) / 0x1000 == HIGHLOW {
        var s := base + Read16(m, at) % 0x1000;
        OutsideParts(m, [s], rest, lo, hi);
        OneOutside(m, s, lo, hi);
        BumpAgrees(m, s, adj, lo, hi);
        var t := Bumped(m, s, adj);
        SitesAgree(m, t, lo, hi, at + 2, k - 1, base);
        ReadsAgree(m, t, lo, hi, at + 2 * k);
        OutsideSame(m, t, rest, lo, hi);
        PatchStep(m, s, rest, adj);
        EntriesStop(t, at + 2, n - 1, k - 1, base, adj, lo, hi);
      } else {
        assert [] + rest == rest;
        EntriesStop(m, at + 2, n - 1, k - 1, base, adj, lo, hi);
      }
    }
  }

  /** So does one in a later block. */
  lemma {:induction false} BlocksStop(m: seq<byte>, at: nat, offset: nat, fixup: int, adj: int, lo: nat, bad: nat,
                                      k: nat, hi: nat)
    requires GoodBlocks(m, at, bad) && HEADER_SIZE <= lo <= at <= bad && bad + 8 + 2 * (k + 1) <= hi <= |m| < TWO64
    requires offset + (bad - at) < Read32(m, 28)
    requires k < EntryCount(Read32(m, bad + 4)) && Known(m, bad + 8, k)
    requires Read16(m, bad + 8 + 2 * k) / 0x1000 !in {0, 3}
    requires var sites := AllSites(m, at, bad, fixup) + SitesOf(m, bad + 8, k, Read32(m, bad) - fixup);
             AllOutside(m, sites, lo, hi) && AllOutside(m, sites, 0, HEADER_SIZE)
    ensures Blocks(m, at, offset, fixup, adj).1 == Failed
    decreases bad - at
  {
    hide Patched, AllOutside, Agree, Bumped, Entries, Read16, Read32, Blocks, SitesOf, Known, EntryCount;
    BlocksStep(m, at, offset, fixup, adj);
    var last := SitesOf(m, bad + 8, k, Read32(m, bad) - fixup);
    if at == bad {
      assert [] + last == last;
      EntriesStop(m, at + 8, EntryCount(Read32(m, at + 4)), k, Read32(m, at) - fixup, adj, lo, hi);
    } else {
      var size, base := Read32(m, at + 4), Read32(m, at) - fixup;
      var n := EntryCount(size);
      EntriesFit(size);
      var a, b := SitesOf(m, at + 8, n, base), AllSites(m, at + size, bad, fixup);
      assert a + b + last == a + (b + last);
      OutsideParts(m, a, b + last, lo, hi);
      OutsideParts(m, a, b + last, 0, HEADER_SIZE);
      EntriesPatch(m, at + 8, n, base, adj, lo, hi);
      var t := Patched(m, a, adj);
      PatchAgrees(m, a, adj, lo, hi);
      PatchAgrees(m, a, adj, 0, HEADER_SIZE);
      ReadsAgree(m, t, lo, hi, at + 4);
      ReadsAgree(m, t, 0, HEADER_SIZE, 28);
      BlocksAgree(m, t, lo, hi, at + size, bad, fixup);
      ReadsAgree(m, t, lo, hi, bad);
      ReadsAgree(m, t, lo, hi, bad + 4);
      ReadsAgree(m, t, lo, hi, bad + 8 + 2 * k);
      SitesAgree(m, t, lo, hi, bad + 8, k, Read32(m, bad) - fixup);
      OutsideSame(m, t, b + last, lo, hi);
      OutsideSame(m, t, b + last, 0, HEADER_SIZE);
      BlocksStop(t, at + size, offset + size, fixup, adj, lo, bad, k, hi);
    }
  }

  // ----- Relocation as a whole -----

  function Sites(m: seq<byte>): seq<int> {
    if Directory(m) < 0 then [] else AllSites(m, Directory(m), Directory(m) + Read32(m, 28), Fixup(m))
  }

  /**
   An image that can be relocated: its blocks fill the directory, and the words that they name
   are apart from each other, from the header and from the directory itself.
   */
  ghost predicate Relocatable(m: seq<byte>) {
    && HEADER_SIZE <= |m| < TWO64 && Read16(m, 0) == SIGNATURE && Directory(m) >= HEADER_SIZE
    && Directory(m) + Read32(m, 28) <= |m| && GoodBlocks(m, Directory(m), Directory(m) + Read32(m, 28))
    && AllOutside(m, Sites(m), 0, HEADER_SIZE)
    && AllOutside(m, Sites(m), Directory(m), Directory(m) + Read32(m, 28))
    && Apart(Sites(m))
  }

  ghost predicate Covered(sites: seq<int>, i: int) {
    exists k :: 0 <= k < |sites| && sites[k] <= i < sites[k] + 4
  }

  /** r is m with adj added to the words at the sites, and another image base. */
  ghost predicate Moved(m: seq<byte>, r: seq<byte>, sites: seq<int>, base: nat, adj: int) {
    && |r| == |m| && AllOutside(m, sites, 0, HEADER_SIZE) && Has(r, 16, Le32(base) + Le32(0))
    && (forall k :: 0 <= k < |sites| ==> WordAt(r, sites[k], (WordIn(m, sites[k]) + adj) % TWO32))
    && (forall i :: 0 <= i < |m| && !(16 <= i < 24) && !Covered(sites, i) ==> r[i] == m[i])
  }

  ghost predicate WordAt(m: seq<byte>, site: int, v: nat) {
    site >= 0 && Has(m, site, Le32(v))
  }

  function WordIn(m: seq<byte>, site: int): nat {
    if site < 0 then 0 else Read32(m, site)
  }

  lemma BumpedWord(m: seq<byte>, site: nat, adj: int)
    requires site + 4 <= |m|
    ensures WordAt(Bumped(m, site, adj), site, (WordIn(m, site) + adj) % TWO32)
  {
    hide Stored, Le32, Read32;
  }

  lemma WordKept(m: seq<byte>, t: seq<byte>, lo: nat, hi: nat, site: nat, v: nat)
    requires Agree(m, t, lo, hi) && lo <= site && site + 4 <= hi
    ensures WordIn(t, site) == WordIn(m, site) && (WordAt(m, site, v) ==> WordAt(t, site, v))
  {
    hide Le32;
    ReadsAgree(m, t, lo, hi, site);
    assert m[site..site + 4] == t[site..site + 4];
  }

  lemma TailApart(s: int, rest: seq<int>)
    requires Apart([s] + rest)
    ensures Apart(rest) && forall k :: 0 <= k < |rest| ==> rest[k] + 4 <= s || s + 4 <= rest[k]
  {
    var all := [s] + rest;
    forall i, j | 0 <= i < j < |rest| ensures rest[i] + 4 <= rest[j] || rest[j] + 4 <= rest[i] {
      assert all[i + 1] + 4 <= all[j + 1] || all[j + 1] + 4 <= all[i + 1];
    }
    forall k | 0 <= k < |rest| ensures rest[k] + 4 <= s || s + 4 <= rest[k] {
      assert all[0] + 4 <= all[k + 1] || all[k + 1] + 4 <= all[0];
    }
  }

  /** Every word has been changed once, and nothing else has. */
  lemma {:induction false} PatchWords(m: seq<byte>, sites: seq<int>, adj: int)
    requires AllOutside(m, sites, 0, 0) && Apart(sites)
    ensures forall k :: 0 <= k < |sites| ==> WordAt(Patched(m, sites, adj), sites[k],
            (WordIn(m, sites[k]) + adj) % TWO32)
    ensures forall i :: 0 <= i < |m| && !Covered(sites, i) ==> Patched(m, sites, adj)[i] == m[i]
    decreases |sites|
  {
    hide Patched, Bumped, WordAt, WordIn, Apart, AllOutside;
    if sites == [] {
      NoPatch(m, adj);
    } else {
      var s, rest := sites[0], sites[1..];
      assert sites == [s] + rest;
      PatchStep(m, s, rest, adj);
      TailApart(s, rest);
      var t := Bumped(m, s, adj);
      PatchWords(t, rest, adj);
      FirstWord(m, s, rest, adj);
      OtherWords(m, s, rest, adj);
      OtherBytes(m, s, rest, adj);
    }
  }

  lemma FirstWord(m: seq<byte>, s: int, rest: seq<int>, adj: int)
    requires Outside(m, s, 0, 0) && AllOutside(Bumped(m, s, adj), rest, 0, 0)
    requires forall k :: 0 <= k < |rest| ==> rest[k] + 4 <= s || s + 4 <= rest[k]
    ensures WordAt(Patched(Bumped(m, s, adj), rest, adj), s, (WordIn(m, s) + adj) % TWO32)
  {
    hide Patched, Bumped, WordAt, WordIn, Agree;
    var t := Bumped(m, s, adj);
    BumpedWord(m, s, adj);
    forall k | 0 <= k < |rest| ensures Outside(t, rest[k], s, s + 4) {
      assert Outside(t, rest[k], 0, 0);
    }
    PatchAgrees(t, rest, adj, s, s + 4);
    WordKept(t, Patched(t, rest, adj), s, s + 4, s, (WordIn(m, s) + adj) % TWO32);
  }

  lemma OtherWords(m: seq<byte>, s: int, rest: seq<int>, adj: int)
    requires Outside(m, s, 0, 0) && AllOutside(Bumped(m, s, adj), rest, 0, 0)
    requires forall k :: 0 <= k < |rest| ==> rest[k] + 4 <= s || s + 4 <= rest[k]
    ensures forall k :: 0 <= k < |rest| ==> WordIn(Bumped(m, s, adj), rest[k]) == WordIn(m, rest[k])
  {
    hide Bumped, WordIn, Agree;
    forall k | 0 <= k < |rest| ensures WordIn(Bumped(m, s, adj), rest[k]) == WordIn(m, rest[k]) {
      assert Outside(Bumped(m, s, adj), rest[k], 0, 0);
      BumpAgrees(m, s, adj, rest[k], rest[k] + 4);
      WordKept(m, Bumped(m, s, adj), rest[k], rest[k] + 4, rest[k], 0);
    }
  }

  lemma OtherBytes(m: seq<byte>, s: int, rest: seq<int>, adj: int)
    requires Outside(m, s, 0, 0)
    ensures forall i :: 0 <= i < |m| && !Covered([s] + rest, i) ==> Bumped(m, s, adj)[i] == m[i] && !Covered(rest, i)
  {
    hide Bumped;
    var all := [s] + rest;
    forall i | 0 <= i < |m| && !Covered(all, i) ensures Bumped(m, s, adj)[i] == m[i] && !Covered(rest, i) {
      assert !(all[0] <= i < all[0] + 4);
      forall k | 0 <= k < |rest| ensures !(rest[k] <= i < rest[k] + 4) {
        assert !(all[k + 1] <= i < all[k + 1] + 4);
      }
    }
  }

  /** The base that an image has when it has been relocated to `newAddr`. */
  function NewBase(m: seq<byte>, newAddr: nat): (b: nat)
    ensures b < TWO32
  {
    (newAddr - Fixup(m)) % TWO32
  }

  lemma BaseIs(m: seq<byte>, newAddr: nat)
    ensures (ImageBase(m) + Adjustment(m, newAddr)) % TWO32 == NewBase(m, newAddr)
  {
    hide Fixup, ImageBase;
    var x := newAddr - (ImageBase(m) + Fixup(m));
    var q := x / TWO32;
    assert x % TWO32 == x - q * TWO32;
    assert (ImageBase(m) + x - q * TWO32) % TWO32 == (ImageBase(m) + x) % TWO32;
  }

  /** The image base is all of the header that is written. */
  lemma RebasedAgrees(m: seq<byte>, newAddr: nat)
    requires |m| >= HEADER_SIZE
    ensures var t := Rebased(m, newAddr);
            Agree(m, t, 0, 16) && Agree(m, t, 24, |m|) && Has(t, 16, Le32(NewBase(m, newAddr)) + Le32(0))
  {
    hide Le32, ImageBase, Adjustment, Fixup, NewBase;
    BaseIs(m, newAddr);
  }

  /** What the header says, but for the image base. */
  lemma SameHeader(m: seq<byte>, t: seq<byte>)
    requires Agree(m, t, 0, 16) && Agree(m, t, 24, HEADER_SIZE)
    ensures Fixup(t) == Fixup(m) && Directory(t) == Directory(m)
    ensures Read32(t, 28) == Read32(m, 28) && Read16(t, 0) == Read16(m, 0)
  {
    hide Agree, Read16, Read32;
    ReadsAgree(m, t, 0, 16, 0);
    ReadsAgree(m, t, 0, 16, 6);
    ReadsAgree(m, t, 24, HEADER_SIZE, 24);
    ReadsAgree(m, t, 24, HEADER_SIZE, 28);
  }

  /** And what the directory lists. */
  lemma SameDirectory(m: seq<byte>, t: seq<byte>)
    requires Relocatable(m) && Agree(m, t, 0, 16) && Agree(m, t, 24, HEADER_SIZE)
    requires Agree(m, t, Directory(m), Directory(m) + Read32(m, 28))
    ensures Fixup(t) == Fixup(m) && Directory(t) == Directory(m) && Read32(t, 28) == Read32(m, 28) &&
            Sites(t) == Sites(m)
    ensures Relocatable(t)
  {
    hide Agree, Read16, Read32, AllSites, GoodBlocks, AllOutside, Fixup, Directory;
    SameHeader(m, t);
    var d, end := Directory(m), Directory(m) + Read32(m, 28);
    BlocksAgree(m, t, d, end, d, end, Fixup(m));
    SameSize(m, t, d, end);
    OutsideSame(m, t, Sites(m), 0, HEADER_SIZE);
    OutsideSame(m, t, Sites(m), d, end);
  }

  lemma SameSize(m: seq<byte>, t: seq<byte>, lo: nat, hi: nat)
    requires Agree(m, t, lo, hi)
    ensures |m| == |t|
  {
  }

  lemma Narrower(m: seq<byte>, t: seq<byte>, lo: nat, hi: nat, lo': nat, hi': nat)
    requires Agree(m, t, lo, hi) && lo <= lo' && hi' <= hi
    ensures Agree(m, t, lo', hi')
  {
  }

  /** Relocation succeeds and patches the words that the image lists. */
  lemma RelocatedIsPatched(m: seq<byte>, newAddr: nat)
    requires Relocatable(m)
    ensures AllOutside(Rebased(m, newAddr), Sites(m), 0, 0)
    ensures Relocated(m, newAddr) == (Patched(Rebased(m, newAddr), Sites(m), Adjustment(m, newAddr)), Done)
  {
    hide Agree, Read16, Read32, AllSites, GoodBlocks, AllOutside, Patched, Blocks, Adjustment, Fixup, Directory;
    hide Rebased, Apart;
    var t := Rebased(m, newAddr);
    RebasedAgrees(m, newAddr);
    var d, end := Directory(m), Directory(m) + Read32(m, 28);
    Narrower(m, t, 24, |m|, 24, HEADER_SIZE);
    Narrower(m, t, 24, |m|, d, end);
    SameDirectory(m, t);
    BlocksPatch(t, d, 0, Fixup(m), Adjustment(m, newAddr), d, end);
  }

  /** Entry k of the block at `bad` is the first one of the directory that is of another type. */
  ghost predicate FirstUnknown(m: seq<byte>, bad: nat, k: nat) {
    && HEADER_SIZE <= |m| < TWO64 && Read16(m, 0) == SIGNATURE
    && var d, end := Directory(m), Directory(m) + Read32(m, 28);
       && HEADER_SIZE <= d <= bad && GoodBlocks(m, d, bad) && bad + 8 + 2 * (k + 1) <= end <= |m|
       && k < EntryCount(Read32(m, bad + 4)) && Known(m, bad + 8, k)
       && Read16(m, bad + 8 + 2 * k) / 0x1000 !in {0, 3}
       && var sites := AllSites(m, d, bad, Fixup(m)) + SitesOf(m, bad + 8, k, Read32(m, bad) - Fixup(m));
          AllOutside(m, sites, d, end) && AllOutside(m, sites, 0, HEADER_SIZE)
  }

  /** Relocation fails without the signature, and at an entry of another type. */
  lemma RelocationFails(m: seq<byte>, newAddr: nat, bad: nat, k: nat)
    requires HEADER_SIZE <= |m| < TWO64
    ensures !(m[0] == 0x56 && m[1] == 0x5A) ==> Relocated(m, newAddr) == (m, Failed)
    ensures FirstUnknown(m, bad, k) ==> Relocated(m, newAddr).1 == Failed
  {
    if FirstUnknown(m, bad, k) {
      UnknownFails(m, newAddr, bad, k);
    }
    hide Rebased, Blocks, Directory, Fixup, Adjustment, FirstUnknown;
  }

  lemma UnknownFails(m: seq<byte>, newAddr: nat, bad: nat, k: nat)
    requires FirstUnknown(m, bad, k)
    ensures Relocated(m, newAddr).1 == Failed
  {
    hide Agree, Read16, Read32, AllSites, GoodBlocks, AllOutside, Patched, Blocks, Adjustment, Fixup, Directory;
    hide Rebased, EntryCount, SitesOf, Known;
    var t := Rebased(m, newAddr);
    RebasedAgrees(m, newAddr);
    var d, end := Directory(m), Directory(m) + Read32(m, 28);
    Narrower(m, t, 24, |m|, 24, HEADER_SIZE);
    Narrower(m, t, 24, |m|, d, end);
    SameHeader(m, t);
    SameSize(m, t, 24, |m|);
    BlocksAgree(m, t, d, end, d, bad, Fixup(m));
    ReadsAgree(m, t, d, end, bad);
    ReadsAgree(m, t, d, end, bad + 4);
    ReadsAgree(m, t, d, end, bad + 8 + 2 * k);
    SitesAgree(m, t, d, end, bad + 8, k, Read32(m, bad) - Fixup(m));
    var sites := AllSites(m, d, bad, Fixup(m)) + SitesOf(m, bad + 8, k, Read32(m, bad) - Fixup(m));
    OutsideSame(m, t, sites, d, end);
    OutsideSame(m, t, sites, 0, HEADER_SIZE);
    BlocksStop(t, d, 0, Fixup(m), Adjustment(m, newAddr), d, bad, k, end);
  }

  lemma RelocatedMoves(m: seq<byte>, newAddr: nat)
    requires Relocatable(m)
    ensures Relocated(m, newAddr).1.Done?
    ensures Moved(m, Relocated(m, newAddr).0, Sites(m), NewBase(m, newAddr), Adjustment(m, newAddr))
    ensures Agree(m, Relocated(m, newAddr).0, Directory(m), Directory(m) + Read32(m, 28))
    ensures Agree(m, Relocated(m, newAddr).0, 0, 16) && Agree(m, Relocated(m, newAddr).0, 24, HEADER_SIZE)
  {
    hide Agree, Read16, Read32, AllSites, GoodBlocks, AllOutside, Patched, Adjustment, Fixup, Directory, Rebased;
    hide Le32, Sites;
    hide Relocated, NewBase, Has, WordAt, WordIn, Covered, Apart;
    var t, sites, adj, r := Rebased(m, newAddr), Sites(m), Adjustment(m, newAddr), Relocated(m, newAddr).0;
    var d, end := Directory(m), Directory(m) + Read32(m, 28);
    RelocatedIsPatched(m, newAddr);
    RebasedAgrees(m, newAddr);
    OutsideSame(m, t, sites, 0, HEADER_SIZE);
    OutsideSame(m, t, sites, d, end);
    PatchAgrees(t, sites, adj, 0, HEADER_SIZE);
    PatchAgrees(t, sites, adj, d, end);
    PatchWords(t, sites, adj);
    HeaderAgrees(m, t, r, d, end);
    HasAgrees(t, r, 0, HEADER_SIZE, 16, Le32(NewBase(m, newAddr)) + Le32(0));
    SameWords(m, t, sites);
    SameBytes(m, t);
  }

  lemma HeaderAgrees(m: seq<byte>, t: seq<byte>, r: seq<byte>, d: nat, end: nat)
    requires Agree(m, t, 0, 16) && Agree(m, t, 24, |m|) && Agree(t, r, 0, HEADER_SIZE) && Agree(t, r, d, end)
    requires HEADER_SIZE <= d && HEADER_SIZE <= |m|
    ensures Agree(m, r, 0, 16) && Agree(m, r, 24, HEADER_SIZE) && Agree(m, r, d, end)
  {
  }

  lemma HasAgrees(m: seq<byte>, t: seq<byte>, lo: nat, hi: nat, at: nat, s: seq<byte>)
    requires Agree(m, t, lo, hi) && lo <= at && at + |s| <= hi && Has(m, at, s)
    ensures Has(t, at, s)
  {
    assert m[at..at + |s|] == t[at..at + |s|];
  }

  lemma SameWords(m: seq<byte>, t: seq<byte>, sites: seq<int>)
    requires Agree(m, t, 24, |m|) && AllOutside(m, sites, 0, HEADER_SIZE)
    ensures forall k :: 0 <= k < |sites| ==> WordIn(t, sites[k]) == WordIn(m, sites[k])
  {
    hide Agree, WordIn;
    forall k | 0 <= k < |sites| ensures WordIn(t, sites[k]) == WordIn(m, sites[k]) {
      assert Outside(m, sites[k], 0, HEADER_SIZE);
      WordKept(m, t, 24, |m|, sites[k], 0);
    }
  }

  lemma SameBytes(m: seq<byte>, t: seq<byte>)
    requires Agree(m, t, 0, 16) && Agree(m, t, 24, |m|)
    ensures |t| == |m| && forall i :: 0 <= i < |m| && !(16 <= i < 24) ==> t[i] == m[i]
  {
  }

  /** There is only one image that has been moved in a given way. */
  lemma MovedUnique(m: seq<byte>, r: seq<byte>, q: seq<byte>, sites: seq<int>, base: nat, a: int, b: int)
    requires Moved(m, r, sites, base, a) && Moved(m, q, sites, base, b) && a % TWO32 == b % TWO32 && |m| >= HEADER_SIZE
    ensures r == q
  {
    hide Le32, WordIn, AllOutside;
    forall i | 0 <= i < |m| ensures r[i] == q[i] {
      if 16 <= i < 24 {
        assert r[16..24][i - 16] == q[16..24][i - 16];
      } else if Covered(sites, i) {
        var k :| 0 <= k < |sites| && sites[k] <= i < sites[k] + 4;
        SameSum(WordIn(m, sites[k]), a, b);
        assert WordAt(r, sites[k], (WordIn(m, sites[k]) + a) % TWO32);
        assert WordAt(q, sites[k], (WordIn(m, sites[k]) + b) % TWO32);
        SameAt(r, q, sites[k], (WordIn(m, sites[k]) + a) % TWO32, i);
      }
    }
  }

  lemma SameAt(r: seq<byte>, q: seq<byte>, site: nat, v: nat, i: nat)
    requires WordAt(r, site, v) && WordAt(q, site, v) && site <= i < site + 4
    ensures i < |r| && i < |q| && r[i] == q[i]
  {
    hide Le32;
    assert r[site..site + 4][i - site] == q[site..site + 4][i - site];
  }

  lemma SameSum(v: int, a: int, b: int)
    requires a % TWO32 == b % TWO32
    ensures (v + a) % TWO32 == (v + b) % TWO32
  {
    var k := a / TWO32 - b / TWO32;
    assert v + a == v + b + k * TWO32;
  }

  lemma SumTwice(v: int, a: int, b: int)
    ensures ((v + a) % TWO32 + b) % TWO32 == (v + (a + b)) % TWO32
  {
    var k := (v + a) / TWO32;
    assert (v + a) % TWO32 + b == v + (a + b) - k * TWO32;
  }

  lemma MovedTwice(m: seq<byte>, r: seq<byte>, q: seq<byte>, sites: seq<int>, base: nat, base': nat, a: int, b: int)
    requires Moved(m, r, sites, base, a) && Moved(r, q, sites, base', b)
    ensures Moved(m, q, sites, base', a + b)
  {
    hide Le32, AllOutside, Has, Covered;
    forall k | 0 <= k < |sites| ensures WordAt(q, sites[k], (WordIn(m, sites[k]) + (a + b)) % TWO32) {
      var v := (WordIn(m, sites[k]) + a) % TWO32;
      assert WordAt(r, sites[k], v);
      assert WordAt(q, sites[k], (WordIn(r, sites[k]) + b) % TWO32);
      ReadOfLe32(r, sites[k], v);
      SumTwice(WordIn(m, sites[k]), a, b);
    }
  }

  lemma BaseRead(r: seq<byte>, base: nat)
    requires Has(r, 16, Le32(base) + Le32(0)) && base < TWO32
    ensures ImageBase(r) == base
  {
    hide Le32, Read32, Has;
    HasConcat(r, 16, Le32(base), Le32(0));
    ReadOfLe32(r, 16, base);
    ReadOfLe32(r, 20, 0);
  }

  lemma AdjustmentsAdd(base: int, fixup: int, a: int, b: int)
    ensures ((a - (base + fixup)) % TWO32 + (b - ((a - fixup) % TWO32 + fixup)) % TWO32) % TWO32 ==
            (b - (base + fixup)) % TWO32 % TWO32
  {
    var x, y, z := a - (base + fixup), b - ((a - fixup) % TWO32 + fixup), b - (base + fixup);
    Quotient(a - fixup);
    RestsAdd(x, y, z, (a - fixup) / TWO32);
    RestOfRest(z);
  }

  lemma Quotient(x: int)
    ensures x == x / TWO32 * TWO32 + x % TWO32
  {
  }

  lemma RestOfRest(x: int)
    ensures x % TWO32 % TWO32 == x % TWO32
  {
  }

  lemma RestShifted(x: int, k: int)
    ensures (x + k * TWO32) % TWO32 == x % TWO32
  {
  }

  lemma RestsAdd(x: int, y: int, z: int, k: int)
    requires x + y == z + k * TWO32
    ensures (x % TWO32 + y % TWO32) % TWO32 == z % TWO32
  {
    Quotient(x);
    Quotient(y);
    var j := k - x / TWO32 - y / TWO32;
    assert x % TWO32 + y % TWO32 == z + j * TWO32;
    RestShifted(z, j);
  }

  /** An image that has been relocated can be relocated again, as if it had not been relocated before. */
  lemma RelocationComposes(m: seq<byte>, first: nat, second: nat)
    requires Relocatable(m)
    ensures Relocatable(Relocated(m, first).0)
    ensures Relocated(Relocated(m, first).0, second) == Relocated(m, second)
  {
    hide Agree, Read16, Read32, AllSites, GoodBlocks, AllOutside, Directory, Rebased, Le32, Sites, Relocated, Has;
    hide Moved, ImageBase, Fixup;
    hide Apart, Relocatable;
    LongEnough(m);
    var r := Relocated(m, first).0;
    RelocatedMoves(m, first);
    RelocatedMoves(m, second);
    SameDirectory(m, r);
    RelocatedMoves(r, second);
    var q := Relocated(r, second).0;
    MovedTwice(m, r, q, Sites(m), NewBase(m, first), NewBase(r, second), Adjustment(m, first), Adjustment(r, second));
    MovedBase(m, r, Sites(m), NewBase(m, first), Adjustment(m, first));
    AdjustmentsAdd(ImageBase(m), Fixup(m), first, second);
    MovedUnique(m, q, Relocated(m, second).0, Sites(m), NewBase(m, second),
      Adjustment(m, first) + Adjustment(r, second),
                Adjustment(m, second));
  }

  lemma LongEnough(m: seq<byte>)
    requires Relocatable(m)
    ensures HEADER_SIZE <= |m| < TWO64 && Directory(m) >= 0 && AllOutside(m, Sites(m), 0, HEADER_SIZE)
  {
  }

  lemma MovedBase(m: seq<byte>, r: seq<byte>, sites: seq<int>, base: nat, adj: int)
    requires Moved(m, r, sites, base, adj) && base < TWO32
    ensures ImageBase(r) == base
  {
    BaseRead(r, base);
  }

  lemma LeOfRead(m: seq<byte>, at: nat)
    requires at + 4 <= |m|
    ensures Has(m, at, Le32(Read32(m, at)))
  {
    var b0: int, b1: int, b2: int, b3: int := m[at], m[at + 1], m[at + 2], m[at + 3];
    BytesOf(b0, b1, b2, b3);
    assert m[at..at + 4] == [m[at], m[at + 1], m[at + 2], m[at + 3]];
  }

  lemma BytesOf(b0: byte, b1: byte, b2: byte, b3: byte)
    ensures Le32(b0 as int + b1 as int * 0x100 + b2 as int * 0x1_0000 + b3 as int * 0x100_0000) == [b0, b1, b2, b3]
  {
    var y: nat := b2 as int + b3 as int * 0x100;
    var x: nat := b1 as int + y * 0x100;
    var v: nat := b0 as int + x * 0x100;
    assert v / 0x100 == x && v % 0x100 == b0;
    assert x / 0x100 == y && x % 0x100 == b1;
    assert y / 0x100 == b3 && y % 0x100 == b2;
    assert v / 0x1_0000 == y && v / 0x100_0000 == b3;
  }

  lemma HomeIs(m: seq<byte>)
    requires ImageBase(m) + Fixup(m) >= 0
    ensures Adjustment(m, ImageBase(m) + Fixup(m)) == 0
    ensures NewBase(m, ImageBase(m) + Fixup(m)) == ImageBase(m) % TWO32
  {
    hide ImageBase, Fixup;
  }

  /** Relocating an image to where it is linked, or back to there, gives the image if its base has only 32 bits. */
  lemma RelocatingBack(m: seq<byte>, away: nat)
    requires Relocatable(m) && ImageBase(m) + Fixup(m) >= 0
    ensures HEADER_SIZE <= |m| < TWO64
    ensures Relocated(Relocated(m, away).0, ImageBase(m) + Fixup(m)).0 == m <==> ImageBase(m) < TWO32
  {
    hide *;
    LongEnough(m);
    var home := ImageBase(m) + Fixup(m);
    HomeIs(m);
    RelocationComposes(m, away, home);
    RelocatedMoves(m, home);
    MovedBase(m, Relocated(m, home).0, Sites(m), NewBase(m, home), Adjustment(m, home));
    if ImageBase(m) < TWO32 {
      NotMoved(m, Sites(m));
      MovedUnique(m, m, Relocated(m, home).0, Sites(m), ImageBase(m), 0, Adjustment(m, home));
    }
  }

  lemma NotMoved(m: seq<byte>, sites: seq<int>)
    requires |m| >= HEADER_SIZE && AllOutside(m, sites, 0, HEADER_SIZE) && ImageBase(m) < TWO32
    ensures Moved(m, m, sites, ImageBase(m), 0)
  {
    hide Le32, Has, Covered, ImageBase, WordAt, WordIn, Outside, AllOutside, Read32;
    BaseKept(m);
    forall k | 0 <= k < |sites| ensures WordAt(m, sites[k], (WordIn(m, sites[k]) + 0) % TWO32) {
      SiteOutside(m, sites, k);
      SiteKept(m, sites[k]);
    }
  }

  lemma BaseKept(m: seq<byte>)
    requires |m| >= HEADER_SIZE && ImageBase(m) < TWO32
    ensures Has(m, 16, Le32(ImageBase(m)) + Le32(0))
  {
    hide Le32, Has, Read32;
    LeOfRead(m, 16);
    LeOfRead(m, 20);
    HasConcat(m, 16, Le32(Read32(m, 16)), Le32(Read32(m, 20)));
  }

  lemma SiteOutside(m: seq<byte>, sites: seq<int>, k: nat)
    requires k < |sites| && AllOutside(m, sites, 0, HEADER_SIZE)
    ensures Outside(m, sites[k], 0, HEADER_SIZE)
  {
  }

  lemma SiteKept(m: seq<byte>, site: int)
    requires Outside(m, site, 0, HEADER_SIZE)
    ensures WordAt(m, site, (WordIn(m, site) + 0) % TWO32)
  {
    hide Le32, Has;
    LeOfRead(m, site);
  }
}

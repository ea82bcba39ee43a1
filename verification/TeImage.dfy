/**
 Relocation as the TE format explains it: the image is a PE image whose first StrippedSize bytes
 have been replaced by the header, and addresses in it (RVAs) still count from the start of what
 was stripped (PI Specification, volume 1).
 */
module TeImage {
  import opened Bytes
  import opened Memory
  import opened TeRelocate

  /** Where the byte at an RVA is in the image. */
  function OffsetOf(m: seq<byte>, rva: nat): int {
    var strippedSize := Little(m, 6, 2);
    40 + rva - strippedSize
  }

  /** The blocks of the directory up to one of them, each as far behind the one before as that says. */
  ghost predicate Follow(m: seq<byte>, blocks: seq<int>, first: int) {
    && blocks != [] && blocks[0] == first
    && forall i :: 0 < i < |blocks| ==> blocks[i] == blocks[i - 1] + Little(m, blocks[i - 1] + 4, 4)
  }

  /** A block of the relocation directory. */
  ghost predicate IsBlock(m: seq<byte>, block: int) {
    var directory, size := OffsetOf(m, Little(m, 24, 4)), Little(m, 28, 4);
    block < directory + size && exists blocks :: Follow(m, blocks, directory) && blocks[|blocks| - 1] == block
  }

  /** Entry e of a block names the word at this RVA. */
  predicate Names(m: seq<byte>, block: int, e: nat, rva: nat) {
    && 8 + 2 * (e + 1) <= Little(m, block + 4, 4)
    && var entry := Little(m, block + 8 + 2 * e, 2);
       entry / 0x1000 == 3 && rva == Little(m, block, 4) + entry % 0x1000
  }

  /** The relocation directory lists the word at this RVA. */
  ghost predicate Listed(m: seq<byte>, rva: nat) {
    exists block, e :: IsBlock(m, block) && Names(m, block, e, rva)
  }

  // ----- Numbers in the image -----

  lemma Two(m: seq<byte>, at: nat)
    requires at + 2 <= |m|
    ensures Read16(m, at) == Little(m, at, 2)
  {
    assert Little(m, at + 1, 1) == m[at + 1] + 256 * Little(m, at + 2, 0);
  }

  lemma {:induction false} LittleSmall(m: seq<byte>, at: int)
    ensures Little(m, at, 2) < 0x1_0000 && Little(m, at, 4) < TWO32
  {
    if 0 <= at < |m| {
      LittleBound(m, at, 2);
      LittleBound(m, at, 4);
    }
  }

  lemma {:induction false} LittleBound(m: seq<byte>, at: int, n: nat)
    requires n <= 4
    ensures Little(m, at, n) < if n == 0 then 1 else if n == 1 then 0x100 else if n == 2 then 0x1_0000
                               else if n == 3 then 0x100_0000 else TWO32
    decreases n
  {
    if n > 0 && 0 <= at < |m| {
      LittleBound(m, at + 1, n - 1);
    }
  }

  // ----- The walk finds what is listed -----

  lemma {:induction false} SitesOfIff(m: seq<byte>, at: nat, n: nat, base: int, site: int)
    ensures site in SitesOf(m, at, n, base) <==>
            exists e ::
              0 <= e < n && Read16(m, at + 2 * e) / 0x1000 == 3 && site == base + Read16(m, at + 2 * e) % 0x1000
    decreases n
  {
    hide Read16;
    if n > 0 {
      SitesOfIff(m, at + 2, n - 1, base, site);
      var v := Read16(m, at);
      if site in SitesOf(m, at + 2, n - 1, base) {
        var e :| 0 <= e < n - 1 && Read16(m, at + 2 + 2 * e) / 0x1000 == 3 &&
                 site == base + Read16(m, at + 2 + 2 * e) % 0x1000;
        assert at + 2 + 2 * e == at + 2 * (e + 1);
      }
      if e :| 0 <= e < n && Read16(m, at + 2 * e) / 0x1000 == 3 && site == base + Read16(m, at + 2 * e) % 0x1000 {
        if e > 0 {
          assert at + 2 + 2 * (e - 1) == at + 2 * e;
        }
      }
      if v / 0x1000 == 3 && site == base + v % 0x1000 {
        assert at + 2 * 0 == at;
      }
    }
  }

  /** The blocks from one on, as the walk goes through them. */
  ghost predicate Steps(m: seq<byte>, blocks: seq<nat>, first: nat, last: nat) {
    && blocks != [] && blocks[0] == first && blocks[|blocks| - 1] == last
    && forall i :: 0 < i < |blocks| ==> blocks[i] == blocks[i - 1] + Read32(m, blocks[i - 1] + 4)
  }

  lemma FirstStep(m: seq<byte>, blocks: seq<nat>, first: nat, last: nat)
    requires Steps(m, blocks, first, last) && |blocks| > 1
    ensures Steps(m, blocks[1..], first + Read32(m, first + 4), last)
  {
    hide Read32;
    var rest := blocks[1..];
    forall i | 0 < i < |rest| ensures rest[i] == rest[i - 1] + Read32(m, rest[i - 1] + 4) {
      assert rest[i] == blocks[i + 1] && rest[i - 1] == blocks[i];
    }
  }

  lemma OneMoreStep(m: seq<byte>, first: nat, rest: seq<nat>, last: nat)
    requires Steps(m, rest, first + Read32(m, first + 4), last)
    ensures Steps(m, [first] + rest, first, last)
  {
    hide Read32;
    var blocks := [first] + rest;
    forall i | 0 < i < |blocks| ensures blocks[i] == blocks[i - 1] + Read32(m, blocks[i - 1] + 4) {
      assert i > 1 ==> blocks[i] == rest[i - 1] && blocks[i - 1] == rest[i - 2];
    }
  }

  ghost predicate SiteOfBlock(m: seq<byte>, block: nat, fixup: int, site: int) {
    site in SitesOf(m, block + 8, EntryCount(Read32(m, block + 4)), Read32(m, block) - fixup)
  }

  lemma {:induction false} AllSitesIff(m: seq<byte>, at: nat, end: nat, fixup: int, site: int)
    requires GoodBlocks(m, at, end)
    ensures site in AllSites(m, at, end, fixup) <==>
            exists blocks, last: nat :: Steps(m, blocks, at, last) && last < end && SiteOfBlock(m, last, fixup, site)
    decreases end - at
  {
    hide Read32, SitesOf, Known;
    if at < end {
      var next := at + Read32(m, at + 4);
      AllSitesIff(m, next, end, fixup, site);
      hide GoodBlocks, AllSites;
      AllSitesStep(m, at, end, fixup);
      assert Steps(m, [at], at, at);
      if site in AllSites(m, next, end, fixup) {
        var blocks, last: nat :| Steps(m, blocks, next, last) && last < end && SiteOfBlock(m, last, fixup, site);
        OneMoreStep(m, at, blocks, last);
      }
      if blocks, last: nat :| Steps(m, blocks, at, last) && last < end && SiteOfBlock(m, last, fixup, site) {
        if |blocks| > 1 {
          FirstStep(m, blocks, at, last);
        }
      }
    } else {
      forall blocks, last: nat | Steps(m, blocks, at, last) ensures last >= at {
        StepsGoOn(m, blocks, at, last);
      }
    }
  }

  lemma AllSitesStep(m: seq<byte>, at: nat, end: nat, fixup: int)
    requires GoodBlocks(m, at, end) && at < end
    ensures AllSites(m, at, end, fixup) ==
            SitesOf(m, at + 8, EntryCount(Read32(m, at + 4)), Read32(m, at) - fixup) +
            AllSites(m, at + Read32(m, at + 4), end, fixup)
  {
    hide Read32, SitesOf, Known;
  }

  lemma StepsGoOn(m: seq<byte>, blocks: seq<nat>, first: nat, last: nat)
    requires Steps(m, blocks, first, last)
    ensures first <= last
    decreases |blocks|
  {
    if |blocks| > 1 {
      FirstStep(m, blocks, first, last);
      StepsGoOn(m, blocks[1..], first + Read32(m, first + 4), last);
    }
  }

  /** Every block that is reached lies within the directory. */
  lemma {:induction false} BlocksInside(m: seq<byte>, blocks: seq<nat>, at: nat, last: nat, end: nat)
    requires GoodBlocks(m, at, end) && Steps(m, blocks, at, last) && last < end
    ensures at <= last && 8 <= Read32(m, last + 4) && last + Read32(m, last + 4) <= end
    ensures Known(m, last + 8, EntryCount(Read32(m, last + 4)))
    decreases |blocks|
  {
    hide Read32, Known;
    if |blocks| > 1 {
      FirstStep(m, blocks, at, last);
      StepsGoOn(m, blocks[1..], at + Read32(m, at + 4), last);
      BlocksInside(m, blocks[1..], at + Read32(m, at + 4), last, end);
    }
  }

  // ----- The same blocks, in the terms of the format -----

  lemma HeaderNumbers(m: seq<byte>)
    requires Relocatable(m)
    ensures |m| >= 40 && m[0] == 0x56 && m[1] == 0x5A
    ensures Read32(m, 24) == Little(m, 24, 4) && Read32(m, 28) == Little(m, 28, 4)
    ensures Fixup(m) == Little(m, 6, 2) - 40 && Directory(m) == OffsetOf(m, Little(m, 24, 4))
    ensures ImageBase(m) == Little(m, 16, 8)
    ensures Directory(m) >= 40 && Directory(m) + Read32(m, 28) <= |m|
    ensures GoodBlocks(m, Directory(m), Directory(m) + Read32(m, 28))
  {
    hide Little, Read32, Read16, GoodBlocks, AllOutside, Apart, Sites;
    SignatureBytes(m);
    Two(m, 6);
    Four(m, 24);
    Four(m, 28);
    BaseNumber(m);
  }

  lemma BaseNumber(r: seq<byte>)
    requires |r| >= 24
    ensures ImageBase(r) == Little(r, 16, 8)
  {
    Four(r, 16);
    Four(r, 20);
    Eight(r, 16);
  }

  lemma SignatureBytes(m: seq<byte>)
    requires |m| >= 2 && Read16(m, 0) == SIGNATURE
    ensures m[0] == 0x56 && m[1] == 0x5A
  {
    assert m[0] + 256 * (m[1] as int) == 0x5A56;
  }

  lemma {:induction false} FollowedSteps(m: seq<byte>, blocks: seq<int>, at: nat, end: nat) returns (steps: seq<nat>)
    requires GoodBlocks(m, at, end) && end <= |m| && Follow(m, blocks, at) && blocks[|blocks| - 1] < end
    ensures steps == blocks && Steps(m, steps, at, blocks[|blocks| - 1])
    decreases |blocks|
  {
    hide Read32, Little, Known;
    var n := |blocks| - 1;
    if n == 0 {
      steps := [at];
    } else {
      var front := blocks[..n];
      LittleNonnegative(m, blocks, n);
      steps := FollowedSteps(m, front, at, end);
      BlocksInside(m, steps, at, steps[n - 1], end);
      Four(m, steps[n - 1] + 4);
      assert blocks[n] == steps[n - 1] + Read32(m, steps[n - 1] + 4);
      steps := steps + [blocks[n]];
    }
  }

  lemma LittleNonnegative(m: seq<byte>, blocks: seq<int>, n: nat)
    requires 0 < n < |blocks| && blocks[n] == blocks[n - 1] + Little(m, blocks[n - 1] + 4, 4)
    ensures blocks[n - 1] <= blocks[n]
  {
  }

  lemma {:induction false} StepsFollowed(m: seq<byte>, steps: seq<nat>, at: nat, last: nat, end: nat)
    requires GoodBlocks(m, at, end) && end <= |m| && Steps(m, steps, at, last) && last < end
    ensures Follow(m, steps, at)
  {
    hide Read32, Little, Known, GoodBlocks;
    forall i | 0 < i < |steps| ensures steps[i] == steps[i - 1] + Little(m, steps[i - 1] + 4, 4) {
      StepsStart(m, steps, at, last, i - 1);
      StepsMonotone(m, steps, i - 1);
      BlocksInside(m, steps[..i], at, steps[i - 1], end);
      Four(m, steps[i - 1] + 4);
    }
  }

  lemma StepsStart(m: seq<byte>, steps: seq<nat>, at: nat, last: nat, i: nat)
    requires Steps(m, steps, at, last) && i < |steps|
    ensures Steps(m, steps[..i + 1], at, steps[i])
  {
    hide Read32;
  }

  lemma StepsMonotone(m: seq<byte>, steps: seq<nat>, i: nat)
    requires i < |steps| && steps != []
    requires forall j :: 0 < j < |steps| ==> steps[j] == steps[j - 1] + Read32(m, steps[j - 1] + 4)
    ensures steps[i] <= steps[|steps| - 1]
    decreases |steps| - i
  {
    hide Read32;
    if i < |steps| - 1 {
      StepsMonotone(m, steps, i + 1);
    }
  }

  /** A block is where the walk gets to. */
  lemma BlockIff(m: seq<byte>, block: int)
    requires Relocatable(m)
    ensures IsBlock(m, block) <==>
            exists steps :: block >= 0 && Steps(m, steps, Directory(m), block) && block < Directory(m) + Read32(m, 28)
    ensures IsBlock(m, block) ==>
              && 40 <= block && 8 <= Read32(m, block + 4) && block + Read32(m, block + 4) <= |m|
              && Known(m, block + 8, EntryCount(Read32(m, block + 4)))
  {
    HeaderNumbers(m);
    hide Read32, Little, GoodBlocks, Directory, Relocatable, Fixup;
    var d, end := Directory(m), Directory(m) + Read32(m, 28);
    if IsBlock(m, block) {
      var blocks :| Follow(m, blocks, d) && blocks[|blocks| - 1] == block;
      var steps := FollowedSteps(m, blocks, d, end);
      BlocksInside(m, steps, d, block, end);
    }
    if steps :| block >= 0 && Steps(m, steps, d, block) && block < end {
      StepsFollowed(m, steps, d, block, end);
    }
  }

  lemma BlockSites(m: seq<byte>, block: nat, rva: nat)
    requires |m| >= 40 && Fixup(m) == Little(m, 6, 2) - 40
    requires 8 <= Read32(m, block + 4) && block + Read32(m, block + 4) <= |m|
    ensures SiteOfBlock(m, block, Fixup(m), OffsetOf(m, rva)) <==> exists e: nat :: Names(m, block, e, rva)
  {
    hide Read32, Read16, Little, SitesOf, Fixup;
    var size := Read32(m, block + 4);
    var base := Read32(m, block) - Fixup(m);
    Four(m, block);
    Four(m, block + 4);
    SitesOfIff(m, block + 8, EntryCount(size), base, OffsetOf(m, rva));
    forall e: nat | e < EntryCount(size) ensures Read16(m, block + 8 + 2 * e) == Little(m, block + 8 + 2 * e, 2) {
      Two(m, block + 8 + 2 * e);
    }
    if SiteOfBlock(m, block, Fixup(m), OffsetOf(m, rva)) {
      var e :| 0 <= e < EntryCount(size) && Read16(m, block + 8 + 2 * e) / 0x1000 == 3 &&
               OffsetOf(m, rva) == base + Read16(m, block + 8 + 2 * e) % 0x1000;
      assert Names(m, block, e, rva);
    }
    if e: nat :| Names(m, block, e, rva) {
      assert 8 + 2 * (e + 1) <= size;
    }
  }

  /** The walk patches exactly the words at the RVAs that the directory lists. */
  lemma ListedIff(m: seq<byte>, rva: nat)
    requires Relocatable(m)
    ensures Listed(m, rva) <==> OffsetOf(m, rva) in Sites(m)
  {
    HeaderNumbers(m);
    hide Read32, Little, GoodBlocks, Directory, Relocatable, Fixup, IsBlock, Names, SiteOfBlock, OffsetOf, AllSites;
    var d, end := Directory(m), Directory(m) + Read32(m, 28);
    AllSitesIff(m, d, end, Fixup(m), OffsetOf(m, rva));
    if OffsetOf(m, rva) in Sites(m) {
      var steps, block: nat :| Steps(m, steps, d, block) && block < end &&
                               SiteOfBlock(m, block, Fixup(m), OffsetOf(m, rva));
      BlockIff(m, block);
      BlockSites(m, block, rva);
    }
    if Listed(m, rva) {
      var block, e :| IsBlock(m, block) && Names(m, block, e, rva);
      BlockIff(m, block);
      BlockSites(m, block, rva);
    }
  }

  lemma {:induction false} KnownAt(m: seq<byte>, at: nat, n: nat, e: nat)
    requires Known(m, at, n) && e < n
    ensures Read16(m, at + 2 * e) / 0x1000 in {0, 3}
    decreases n
  {
    hide Read16;
    if e > 0 {
      KnownAt(m, at + 2, n - 1, e - 1);
      assert at + 2 + 2 * (e - 1) == at + 2 * e;
    }
  }

  /** Every entry of an image that can be relocated names a word or fills its block. */
  lemma EntryTypes(m: seq<byte>, block: int, e: nat)
    requires Relocatable(m) && IsBlock(m, block) && 8 + 2 * (e + 1) <= Little(m, block + 4, 4)
    ensures 40 <= block && Little(m, block + 8 + 2 * e, 2) / 0x1000 in {0, 3}
  {
    hide Read32, Read16, Little, Known, Relocatable, IsBlock;
    BlockIff(m, block);
    Four(m, block + 4);
    KnownAt(m, block + 8, EntryCount(Read32(m, block + 4)), e);
    Two(m, block + 8 + 2 * e);
  }

  // ----- Relocation -----

  lemma SumWraps(v: int, x: int)
    ensures (v + x % TWO32) % TWO32 == (v + x) % TWO32
  {
    SumTwice(x, 0, v);
  }

  /**
   Every listed word is increased, in 32 bits, by how far its own address has moved: from where its RVA was linked to
   where the byte at that RVA is now.
   */
  lemma WordMoved(m: seq<byte>, newAddr: nat, rva: nat)
    requires Relocatable(m) && Listed(m, rva)
    ensures |m| < TWO64
    ensures var s, r := OffsetOf(m, rva), Relocated(m, newAddr).0;
            && 40 <= s && s + 4 <= |m| == |r|
            && Little(r, s, 4) == (Little(m, s, 4) + (newAddr + s - (Little(m, 16, 8) + rva))) % TWO32
  {
    hide *;
    ListedIff(m, rva);
    HeaderNumbers(m);
    LongEnough(m);
    RelocatedMoves(m, newAddr);
    OffsetIs(m, rva);
    var s, r, adj := OffsetOf(m, rva), Relocated(m, newAddr).0, Adjustment(m, newAddr);
    SiteMoved(m, r, Sites(m), NewBase(m, newAddr), adj, s);
    AdjustmentIs(m, newAddr);
    SumWraps(Little(m, s, 4), newAddr - (ImageBase(m) + Fixup(m)));
  }

  lemma AdjustmentIs(m: seq<byte>, newAddr: nat)
    ensures Adjustment(m, newAddr) == (newAddr - (ImageBase(m) + Fixup(m))) % TWO32 && TWO32 == 0x1_0000_0000
  {
  }

  lemma SiteMoved(m: seq<byte>, r: seq<byte>, sites: seq<int>, base: nat, adj: int, site: int)
    requires Moved(m, r, sites, base, adj) && site in sites
    ensures 40 <= site && site + 4 <= |m| == |r| && Little(r, site, 4) == (Little(m, site, 4) + adj) % TWO32
  {
    hide Read32, Little, AllOutside, Le32, Has, Covered;
    var k :| 0 <= k < |sites| && sites[k] == site;
    SiteOutside(m, sites, k);
    assert WordAt(r, sites[k], (WordIn(m, site) + adj) % TWO32);
    ReadOfLe32(r, site, (WordIn(m, site) + adj) % TWO32);
    Four(r, site);
    Four(m, site);
  }

  /** The image base afterwards says where every RVA is, in 32 bits. */
  lemma BaseMoved(m: seq<byte>, newAddr: nat, rva: nat)
    requires Relocatable(m)
    ensures |m| < TWO64
    ensures var r := Relocated(m, newAddr).0;
            Little(r, 16, 8) < TWO32 && (Little(r, 16, 8) + rva) % TWO32 == (newAddr + OffsetOf(m, rva)) % TWO32
  {
    hide *;
    HeaderNumbers(m);
    LongEnough(m);
    RelocatedMoves(m, newAddr);
    var r := Relocated(m, newAddr).0;
    MovedBase(m, r, Sites(m), NewBase(m, newAddr), Adjustment(m, newAddr));
    BaseNumber(r);
    OffsetIs(m, rva);
    NewBaseTells(m, newAddr, rva);
  }

  lemma NewBaseTells(m: seq<byte>, newAddr: nat, rva: nat)
    ensures (NewBase(m, newAddr) + rva) % TWO32 == (newAddr + (rva - Fixup(m))) % TWO32
  {
    hide Fixup;
    SumWraps(rva, newAddr - Fixup(m));
  }

  /** Every word that the walk patches is at an RVA. */
  lemma SiteHasRva(m: seq<byte>, site: int)
    requires Relocatable(m) && site in Sites(m)
    ensures site + Fixup(m) >= 0 && OffsetOf(m, site + Fixup(m)) == site && Listed(m, site + Fixup(m))
  {
    hide *;
    HeaderNumbers(m);
    SitesInBlocks(m);
    var d, end := Directory(m), Directory(m) + Read32(m, 28);
    AllSitesIff(m, d, end, Fixup(m), site);
    var steps, block: nat :| Steps(m, steps, d, block) && block < end && SiteOfBlock(m, block, Fixup(m), site);
    SiteNotBelow(m, block, Fixup(m), site);
    OffsetIs(m, site + Fixup(m));
    ListedIff(m, site + Fixup(m));
  }

  lemma SitesInBlocks(m: seq<byte>)
    requires Directory(m) >= 0
    ensures Sites(m) == AllSites(m, Directory(m), Directory(m) + Read32(m, 28), Fixup(m))
  {
    hide AllSites, Read32, Fixup;
  }

  lemma OffsetIs(m: seq<byte>, rva: nat)
    requires Fixup(m) == Little(m, 6, 2) - 40
    ensures OffsetOf(m, rva) == rva - Fixup(m)
  {
    hide Fixup, Little;
  }

  lemma SiteNotBelow(m: seq<byte>, block: nat, fixup: int, site: int)
    requires SiteOfBlock(m, block, fixup, site)
    ensures site + fixup >= 0
  {
    hide Read32, Read16, SitesOf;
    SitesOfIff(m, block + 8, EntryCount(Read32(m, block + 4)), Read32(m, block) - fixup, site);
  }

  /** Nothing else changes. */
  lemma OthersKept(m: seq<byte>, newAddr: nat, i: nat)
    requires Relocatable(m) && i < |m| && !(16 <= i < 24)
    requires forall rva :: Listed(m, rva) ==> !(OffsetOf(m, rva) <= i < OffsetOf(m, rva) + 4)
    ensures |m| < TWO64 && |Relocated(m, newAddr).0| == |m| && Relocated(m, newAddr).0[i] == m[i]
  {
    hide Read32, Little, Relocatable, Sites, AllOutside, Le32, Has, Relocated, Listed, Fixup, OffsetOf;
    LongEnough(m);
    RelocatedMoves(m, newAddr);
    forall k | 0 <= k < |Sites(m)| ensures !(Sites(m)[k] <= i < Sites(m)[k] + 4) {
      SiteHasRva(m, Sites(m)[k]);
    }
  }
}

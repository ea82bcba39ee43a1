/**
 The numbers in a flattened tree, as its format has them: big-endian, with these tokens at these
 places (Devicetree Specification, sections 5.2 to 5.5).
 */
module FdtFormat {
  import opened Bytes
  import opened Streams
  import opened DeviceTree
  import opened FdtWriter

  /** The number in n bytes, highest byte first. */
  function Big(b: seq<byte>, at: nat, n: nat): nat
    requires at + n <= |b|
  {
    if n == 0 then 0 else 256 * Big(b, at, n - 1) + b[at + n - 1]
  }

  lemma BigStep(b: seq<byte>, at: nat, n: nat)
    requires 0 < n && at + n <= |b|
    ensures Big(b, at, n) == 256 * Big(b, at, n - 1) + b[at + n - 1]
  {
  }

  lemma BigNothing(b: seq<byte>, at: nat)
    requires at <= |b|
    ensures Big(b, at, 0) == 0
  {
  }

  /** What the reader takes for a word is the big-endian number there. */
  lemma WordIsBig(b: seq<byte>, at: nat)
    requires at + 4 <= |b|
    ensures Word(b, at) == Big(b, at, 4)
  {
    BigNothing(b, at);
    BigStep(b, at, 1);
    BigStep(b, at, 2);
    BigStep(b, at, 3);
    BigStep(b, at, 4);
    hide Big;
  }

  lemma Word64IsBig(b: seq<byte>, at: nat)
    requires at + 8 <= |b|
    ensures Word64(b, at) == Big(b, at, 8)
  {
    WordIsBig(b, at);
    WordIsBig(b, at + 4);
    BigStep(b, at, 8);
    BigStep(b, at, 7);
    BigStep(b, at, 6);
    BigStep(b, at, 5);
    BigNothing(b, at + 4);
    BigStep(b, at + 4, 1);
    BigStep(b, at + 4, 2);
    BigStep(b, at + 4, 3);
    BigStep(b, at + 4, 4);
    hide Big, Word;
  }

  /** What the writer writes for a word. */
  lemma WordWritten(b: seq<byte>, at: nat, v: nat)
    requires Has(b, at, Be32(v)) && v < TWO32
    ensures at + 4 <= |b| && Big(b, at, 4) == v
  {
    WordOfBe32(v, b, at);
    WordIsBig(b, at);
  }

  lemma Word64Written(b: seq<byte>, at: nat, v: nat)
    requires Has(b, at, Be64(v)) && v < TWO64
    ensures at + 8 <= |b| && Big(b, at, 8) == v
  {
    Word64OfBe64(v, b, at);
    Word64IsBig(b, at);
  }

  /** Entry i of the memory reservation block, behind the header; an entry of zeros ends it. */
  lemma EntryByNumbers(b: seq<byte>, t: Tree, i: nat)
    requires FlatAt(b, t) && i <= |t.reserveMap|
    requires i < |t.reserveMap| ==> t.reserveMap[i].start < TWO64 && t.reserveMap[i].size < TWO64
    ensures var at, e := |t.header| + 16 * i, if i < |t.reserveMap| then t.reserveMap[i] else Entry(0, 0);
            at + 16 <= |b| && Big(b, at, 8) == e.start && Big(b, at + 8, 8) == e.size
  {
    hide FlatAt, LaidOut, FlatSize, EntriesBytes, Be64, Has, Big;
    var es, h := t.reserveMap, |t.header|;
    EntriesThere(b, t);
    if i < |es| {
      assert es[..|es|] == es;
      EntryWithin(b, h, es, i, |es|);
      PairWritten(b, h + 16 * i, es[i].start, es[i].size);
    } else {
      PairWritten(b, h + 16 * i, 0, 0);
    }
  }

  lemma EntriesThere(b: seq<byte>, t: Tree)
    requires FlatAt(b, t)
    ensures var end := |t.header| + 16 * |t.reserveMap|;
            && Has(b, |t.header|, EntriesBytes(t.reserveMap)) && Has(b, end, Be64(0)) && Has(b, end + 8, Be64(0))
  {
    hide Be64, Be32, NodeSize, StringsSize, Chunks, Tokens, StreamAt, EntriesBytes, Has;
    var end := |t.header| + 16 * |t.reserveMap|;
    HasConcat(b, |t.header|, EntriesBytes(t.reserveMap), TERMINATOR);
    HasConcat(b, end, Be64(0), Be64(0));
  }

  lemma PairWritten(b: seq<byte>, at: nat, x: nat, y: nat)
    requires Has(b, at, Be64(x)) && Has(b, at + 8, Be64(y)) && x < TWO64 && y < TWO64
    ensures at + 16 <= |b| && Big(b, at, 8) == x && Big(b, at + 8, 8) == y
  {
    hide Be64, Has, Big;
    Word64Written(b, at, x);
    Word64Written(b, at + 8, y);
  }

  lemma {:induction false} EntryWithin(b: seq<byte>, at: nat, es: seq<Entry>, i: nat, n: nat)
    requires i < n <= |es| && Has(b, at, EntriesBytes(es[..n]))
    ensures Has(b, at + 16 * i, Be64(es[i].start)) && Has(b, at + 16 * i + 8, Be64(es[i].size))
    decreases n
  {
    hide Be64, EntriesBytes;
    var last := Be64(es[n - 1].start) + Be64(es[n - 1].size);
    EntriesSnoc(es, n - 1);
    HasConcat(b, at, EntriesBytes(es[..n - 1]), last);
    if i < n - 1 {
      EntryWithin(b, at, es, i, n - 1);
    } else {
      HasConcat(b, at + 16 * i, Be64(es[i].start), Be64(es[i].size));
    }
  }

  /**
   One token of the structure block, at `at`, and the property name that it refers to, at offset `names` of the
   strings block and `text` of the blob.
   */
  ghost predicate TokenAt(b: seq<byte>, at: nat, t: Token, names: nat, text: nat) {
    match t
    case Begin(name) =>
      at + 4 <= |b| && Big(b, at, 4) == 1 && Has(b, at + 4, name + [0])
    case Prop(p) =>
      && at + 12 <= |b| && Big(b, at, 4) == 3 && Big(b, at + 4, 4) == |p.data| && Big(b, at + 8, 4) == names
      && Has(b, at + 12, p.data) && Has(b, text, p.name + [0])
    case End =>
      at + 4 <= |b| && Big(b, at, 4) == 2
  }

  lemma TokenByNumbers(b: seq<byte>, at: nat, t: Token, names: nat, text: nat)
    requires ChunkAt(b, at, ChunkOf(t, names), text) && names < TWO32 && (t.Prop? ==> |t.p.data| < TWO32)
    ensures TokenAt(b, at, t, names, text)
  {
    hide Be32, Big;
    match t
    case Begin(name) =>
      HasConcat(b, at, Be32(1), name + [0]);
      WordWritten(b, at, 1);
    case Prop(p) =>
      HasConcat(b, at, Be32(3) + Be32(|p.data|) + Be32(names), p.data);
      HasConcat(b, at, Be32(3) + Be32(|p.data|), Be32(names));
      HasConcat(b, at, Be32(3), Be32(|p.data|));
      WordWritten(b, at, 3);
      WordWritten(b, at + 4, |p.data|);
      WordWritten(b, at + 8, names);
    case End =>
      WordWritten(b, at, 2);
  }

  /** The sizes of the tokens, each padded to a multiple of four. */
  function SpaceOf(t: Token): nat {
    match t
    case Begin(name) => 4 + (|name| + 4) / 4 * 4
    case Prop(p) => 12 + (|p.data| + 3) / 4 * 4
    case End => 4
  }

  function NameOf(t: Token): nat {
    if t.Prop? then |t.p.name| + 1 else 0
  }

  /** Where token i of a list begins, and how much of the strings block the ones before it take. */
  function PlaceOf(ts: seq<Token>, i: nat): nat
    requires i <= |ts|
  {
    if i == 0 then 0 else PlaceOf(ts, i - 1) + SpaceOf(ts[i - 1])
  }

  function NamesBefore(ts: seq<Token>, i: nat): nat
    requires i <= |ts|
  {
    if i == 0 then 0 else NamesBefore(ts, i - 1) + NameOf(ts[i - 1])
  }

  lemma SpaceIs(t: Token)
    ensures TokenSize(t) == SpaceOf(t) && TokenStrings(t) == NameOf(t)
  {
  }

  lemma {:induction false} PlaceIs(ts: seq<Token>, i: nat)
    requires i <= |ts|
    ensures StreamSize(ts[..i]) == PlaceOf(ts, i) && StreamStrings(ts[..i]) == NamesBefore(ts, i)
  {
    hide TokenSize, TokenStrings, SpaceOf, NameOf;
    if i > 0 {
      PlaceIs(ts, i - 1);
      assert ts[..i][..i - 1] == ts[..i - 1];
      SpaceIs(ts[i - 1]);
    }
  }

  lemma {:induction false} TokenWithin(b: seq<byte>, at: nat, ts: seq<Token>, strings: nat, i: nat, n: nat)
    requires i < n <= |ts| && StreamAt(b, at, Chunks(ts[..n], 0), strings)
    ensures ChunkAt(b, at + StreamSize(ts[..i]), ChunkOf(ts[i], StreamStrings(ts[..i])),
                    strings + StreamStrings(ts[..i]))
    decreases n
  {
    hide ChunkOf, ChunkAt, StreamSize, StreamStrings;
    assert ts[..n] == ts[..n - 1] + [ts[n - 1]];
    ChunksSnoc(ts[..n - 1], ts[n - 1], 0);
    ChunksSize(ts[..n - 1], 0);
    var cs := Chunks(ts[..n], 0);
    assert cs[..|cs| - 1] == Chunks(ts[..n - 1], 0);
    hide Chunks;
    if i < n - 1 {
      TokenWithin(b, at, ts, strings, i, n - 1);
    }
  }

  /** All tokens of the tree stand behind each other in the structure block. */
  lemma StructureByNumbers(b: seq<byte>, t: Tree, i: nat)
    requires FlatAt(b, t) && FlatSize(t) < TWO32 && i < |Tokens(t.root)|
    requires var token := Tokens(t.root)[i]; token.Prop? ==> |token.p.data| < TWO32
    ensures var ts := Tokens(t.root);
            var reserved := |t.header| + 16 * (|t.reserveMap| + 1);
            NamesBefore(ts, i) < TWO32 &&
            TokenAt(b, reserved + PlaceOf(ts, i), ts[i], NamesBefore(ts, i), StringsFrom(t) + NamesBefore(ts, i))
  {
    hide Be32, NodeSize, StringsSize, Chunks, Tokens, StreamAt, EntriesBytes, TokenAt, ChunkAt, ChunkOf, StreamStrings;
    hide StreamSize, PlaceOf, NamesBefore, StringsFrom, StringsOffset;
    var ts := Tokens(t.root);
    assert ts[..|ts|] == ts;
    SizesByPlace(t);
    TokenWithin(b, StructOffset(t), ts, StringsOffset(t), i, |ts|);
    PlaceIs(ts, i);
    NamesFit(t, i);
    var names := NamesBefore(ts, i);
    TokenByNumbers(b, StructOffset(t) + PlaceOf(ts, i), ts[i], names, StringsOffset(t) + names);
  }

  lemma NamesFit(t: Tree, i: nat)
    requires FlatSize(t) < TWO32 && i <= |Tokens(t.root)|
    ensures StreamStrings(Tokens(t.root)[..i]) < TWO32
  {
    hide Tokens, NodeSize, StringsSize, StreamStrings, StreamSize;
    var ts := Tokens(t.root);
    TokensSize(t.root);
    assert ts == ts[..i] + ts[i..];
    StreamConcat(ts[..i], ts[i..]);
  }

  /** Where the strings block begins, and where it ends. */
  function StringsFrom(t: Tree): nat {
    |t.header| + 16 * (|t.reserveMap| + 1) + PlaceOf(Tokens(t.root), |Tokens(t.root)|) + 4
  }

  function StringsTo(t: Tree): nat {
    StringsFrom(t) + NamesBefore(Tokens(t.root), |Tokens(t.root)|)
  }

  lemma SizesByPlace(t: Tree)
    ensures StringsOffset(t) == StringsFrom(t) && FlatSize(t) == StringsTo(t)
  {
    hide Tokens, NodeSize, StringsSize, StreamSize, StreamStrings, PlaceOf, NamesBefore;
    var ts := Tokens(t.root);
    assert ts[..|ts|] == ts;
    TokensSize(t.root);
    PlaceIs(ts, |ts|);
  }

  /** The header: total size, offsets of the blocks, and their sizes. */
  lemma HeaderByNumbers(b: seq<byte>, t: Tree)
    requires FlatAt(b, t) && FlatSize(t) < TWO32
    ensures var reserved, strings, total := |t.header| + 16 * (|t.reserveMap| + 1), StringsFrom(t), StringsTo(t);
            && 40 <= reserved && reserved + 4 <= strings <= total <= |b|
            && Big(b, 4, 4) == total
            && Big(b, 8, 4) == reserved
            && Big(b, 12, 4) == strings
            && Big(b, 32, 4) == total - strings
            && Big(b, 36, 4) == strings - 4 - reserved
            && Big(b, strings - 4, 4) == 9
  {
    hide *;
    SizesByPlace(t);
    HeaderThere(b, t);
    var reserved, strings, total := |t.header| + 16 * (|t.reserveMap| + 1), StringsFrom(t), StringsTo(t);
    WordWritten(b, 4, total);
    WordWritten(b, 8, reserved);
    WordWritten(b, 12, strings);
    WordWritten(b, 32, total - strings);
    WordWritten(b, 36, strings - 4 - reserved);
    WordWritten(b, strings - 4, 9);
  }

  lemma HeaderThere(b: seq<byte>, t: Tree)
    requires FlatAt(b, t)
    ensures var reserved, strings, total := |t.header| + 16 * (|t.reserveMap| + 1), StringsOffset(t), FlatSize(t);
            && 40 <= reserved && reserved + 4 <= strings <= total <= |b|
            && Has(b, 4, Be32(total)) && Has(b, 8, Be32(reserved)) && Has(b, 12, Be32(strings))
            && Has(b, 32, Be32(total - strings)) && Has(b, 36, Be32(strings - 4 - reserved))
            && Has(b, strings - 4, Be32(9))
  {
    hide Be32, NodeSize, StringsSize, Chunks, Tokens, StreamAt, EntriesBytes, Has;
  }
}

/**
 Reading back what the writer wrote gives the tree that was written.
 */
module FdtRoundTrip {
  import opened Bytes
  import opened Streams
  import opened DeviceTree
  import opened FdtWriter
  import opened FdtReader

  // ----- One token -----

  lemma {:induction false} ReadString(b: seq<byte>, off: nat, s: CString)
    requires Has(b, off, s + [0])
    ensures StringFrom(b, off) == Found(s, |s| + 1)
    decreases |s|
  {
    var u := b[off..off + |s| + 1];
    assert u[0] == b[off];
    if s == [] {
      assert b[off] == 0;
    } else {
      var t: CString := s[1..];
      assert s + [0] == [s[0]] + (t + [0]);
      HasConcat(b, off, [s[0]], t + [0]);
      ReadString(b, off + 1, t);
      assert b[off] == s[0] && s[0] in s;
      assert [s[0]] + t == s;
    }
  }

  lemma ReadBegin(b: seq<byte>, off: nat, name: CString)
    requires |b| >= 40 && Has(b, off, Be32(TOKEN_BEGIN_NODE) + (name + [0]))
    ensures NodeName(b, off) == Found(name, TokenSize(Begin(name))) && NextProperty(b, off) == Stop
  {
    HasConcat(b, off, Be32(TOKEN_BEGIN_NODE), name + [0]);
    HasWord(b, off, TOKEN_BEGIN_NODE);
    ReadString(b, off + 4, name);
  }

  lemma ReadEnd(b: seq<byte>, off: nat)
    requires |b| >= 40 && Has(b, off, Be32(TOKEN_END_NODE))
    ensures NodeName(b, off) == Stop && NextProperty(b, off) == Stop
  {
    HasWord(b, off, TOKEN_END_NODE);
  }

  lemma ReadPropertyWords(b: seq<byte>, off: nat, size: nat, names: nat, data: seq<byte>)
    requires Has(b, off, Be32(TOKEN_PROPERTY) + Be32(size) + Be32(names) + data) && size < TWO32 && names < TWO32
    ensures off + 12 <= |b| && Word(b, off) == TOKEN_PROPERTY && Word(b, off + 4) == size && Word(b, off + 8) == names
    ensures Has(b, off + 12, data)
  {
    var w0, w1, w2 := Be32(TOKEN_PROPERTY), Be32(size), Be32(names);
    HasConcat(b, off, w0 + w1 + w2, data);
    HasConcat(b, off, w0 + w1, w2);
    HasConcat(b, off, w0, w1);
    HasWord(b, off, TOKEN_PROPERTY);
    HasWord(b, off + 4, size);
    HasWord(b, off + 8, names);
  }

  lemma ReadProperty(b: seq<byte>, off: nat, p: Property, strings: nat, names: nat)
    requires |b| >= 40 && Word(b, 12) == strings && strings + names < TWO32 && |p.data| < TWO32
    requires Has(b, off, Be32(TOKEN_PROPERTY) + Be32(|p.data|) + Be32(names) + p.data)
    requires Has(b, strings + names, p.name + [0])
    ensures NextProperty(b, off) == Found(p, PropertySize(p)) && NodeName(b, off) == Stop
  {
    hide Be32;
    ReadPropertyWords(b, off, |p.data|, names, p.data);
    ReadString(b, strings + names, p.name);
    PropertyOf(b, off, p, strings + names);
  }

  lemma PropertyOf(b: seq<byte>, off: nat, p: Property, name: nat)
    requires |b| >= 40 && off + 12 <= |b| && Word(b, off) == TOKEN_PROPERTY
    requires Word(b, off + 4) == |p.data| && Has(b, off + 12, p.data)
    requires (Word(b, off + 8) + Word(b, 12)) % TWO32 == name && StringFrom(b, name) == Found(p.name, |p.name| + 1)
    ensures NextProperty(b, off) == Found(p, PropertySize(p)) && NodeName(b, off) == Stop
  {
  }

  // ----- One token of the stream -----

  /** The blob's structure block holds ts, and 32-bit offsets suffice. */
  ghost predicate Holds(b: seq<byte>, start: nat, strings: nat, ts: seq<Token>) {
    && |b| >= 40 && Word(b, 12) == strings
    && StreamAt(b, start, Chunks(ts, 0), strings)
    && StreamSize(ts) < TWO32 && strings + StreamStrings(ts) < TWO32
  }

  lemma {:induction false} StreamPrefix(ts: seq<Token>, k: nat)
    requires k < |ts|
    ensures StreamSize(ts[..k + 1]) == StreamSize(ts[..k]) + TokenSize(ts[k])
    ensures StreamStrings(ts[..k + 1]) == StreamStrings(ts[..k]) + TokenStrings(ts[k])
    ensures StreamSize(ts[..k + 1]) <= StreamSize(ts) && StreamStrings(ts[..k + 1]) <= StreamStrings(ts)
  {
    assert ts[..k + 1][..k] == ts[..k];
    StreamConcat(ts[..k + 1], ts[k + 1..]);
    assert ts[..k + 1] + ts[k + 1..] == ts;
  }

  lemma {:induction false} ChunkAtIndex(ts: seq<Token>, k: nat)
    requires k < |ts|
    ensures |Chunks(ts, 0)| == |ts| && Chunks(ts, 0)[k] == ChunkOf(ts[k], StreamStrings(ts[..k]))
    ensures Chunks(ts, 0)[..k] == Chunks(ts[..k], 0)
  {
    var n := |ts| - 1;
    ChunksSize(ts, 0);
    ChunksSize(ts[..n], 0);
    if k < n {
      ChunkAtIndex(ts[..n], k);
      assert ts[..n][..k] == ts[..k];
    }
  }

  lemma TokenHere(b: seq<byte>, start: nat, strings: nat, ts: seq<Token>, k: nat)
    requires Holds(b, start, strings, ts) && k < |ts|
    ensures Has(b, start + StreamSize(ts[..k]), TokenBytes(ts[k], StreamStrings(ts[..k])))
    ensures Has(b, strings + StreamStrings(ts[..k]), TokenName(ts[k]))
  {
    hide Chunks, StreamSize, StreamStrings, TokenBytes, TokenName, Size, TextSize, StreamAt;
    ChunkAtIndex(ts, k);
    ChunksSize(ts[..k], 0);
    ChunkInStream(b, start, Chunks(ts, 0), strings, k);
  }

  /** What the two token readers say at a token. */
  ghost predicate Reads(b: seq<byte>, off: nat, t: Token)
    requires |b| >= 40
  {
    match t
    case Begin(name) => NodeName(b, off) == Found(name, TokenSize(t)) && NextProperty(b, off) == Stop
    case Prop(p) => NextProperty(b, off) == Found(p, TokenSize(t)) && NodeName(b, off) == Stop
    case End => NodeName(b, off) == Stop && NextProperty(b, off) == Stop
  }

  /** The offsets of the tokens, when the first one is at `start`, and of the end of the last. */
  function Offsets(start: nat, ts: seq<Token>): (at: seq<nat>)
    ensures |at| == |ts| + 1
  {
    if ts == [] then [start] else
      var before := Offsets(start, ts[..|ts| - 1]);
      before + [before[|ts| - 1] + TokenSize(ts[|ts| - 1])]
  }

  lemma {:induction false} OffsetOf(start: nat, ts: seq<Token>, k: nat)
    requires k <= |ts|
    ensures Offsets(start, ts)[k] == start + StreamSize(ts[..k])
    ensures k < |ts| ==> Offsets(start, ts)[k + 1] == Offsets(start, ts)[k] + TokenSize(ts[k])
  {
    var n := |ts| - 1;
    assert ts[..|ts|] == ts;
    if ts != [] {
      OffsetOf(start, ts[..n], if k <= n then k else n);
      assert k <= n ==> ts[..n][..k] == ts[..k];
      assert ts[..n][..n] == ts[..n];
    }
  }

  /** Every token of ts reads back at its offset. */
  ghost predicate Readable(b: seq<byte>, ts: seq<Token>, at: seq<nat>)
    requires |b| >= 40
  {
    && |at| == |ts| + 1
    && forall k {:trigger ts[k]} :: 0 <= k < |ts| ==> Reads(b, at[k], ts[k]) && at[k + 1] == at[k] + TokenSize(ts[k])
  }

  lemma ReadToken(b: seq<byte>, start: nat, strings: nat, ts: seq<Token>, k: nat)
    requires Holds(b, start, strings, ts) && k < |ts|
    ensures Reads(b, start + StreamSize(ts[..k]), ts[k])
  {
    hide StreamSize, StreamStrings, NextProperty, NodeName, Be32, StreamAt, Chunks, Word, Has, Align4;
    var off, names := start + StreamSize(ts[..k]), StreamStrings(ts[..k]);
    TokenHere(b, start, strings, ts, k);
    StreamPrefix(ts, k);
    match ts[k]
    case Begin(name) => ReadBegin(b, off, name);
    case Prop(p) => ReadProperty(b, off, p, strings, names);
    case End => ReadEnd(b, off);
  }

  lemma AllReadable(b: seq<byte>, start: nat, strings: nat, ts: seq<Token>)
    requires Holds(b, start, strings, ts)
    ensures Readable(b, ts, Offsets(start, ts))
  {
    hide Reads, StreamSize, StreamStrings, StreamAt, Chunks, Word, TokenSize, Offsets;
    var at := Offsets(start, ts);
    forall k {:trigger ts[k]} | 0 <= k < |ts| ensures Reads(b, at[k], ts[k]) && at[k + 1] == at[k] + TokenSize(ts[k]) {
      ReadToken(b, start, strings, ts, k);
      OffsetOf(start, ts, k);
    }
  }

  // One step of each list reader.

  lemma PropertiesStop(b: seq<byte>, off: nat)
    requires |b| >= 40 && NextProperty(b, off) == Stop
    ensures PropertiesFrom(b, off) == Scanned([], off)
  {
  }

  lemma PropertiesMore(b: seq<byte>, off: nat, p: Property, size: nat, ps: seq<Property>, end: nat)
    requires |b| >= 40 && NextProperty(b, off) == Found(p, size) && PropertiesFrom(b, off + size) == Scanned(ps, end)
    ensures PropertiesFrom(b, off) == Scanned([p] + ps, end)
  {
    hide NextProperty;
  }

  lemma PropertiesFirst(b: seq<byte>, off: nat, next: nat, ps: seq<Property>, i: nat, end: nat)
    requires |b| >= 40 && i < |ps| && off <= next
    requires NextProperty(b, off) == Found(ps[i], next - off) && PropertiesFrom(b, next) == Scanned(ps[i + 1..], end)
    ensures PropertiesFrom(b, off) == Scanned(ps[i..], end)
  {
    hide *;
    PropertiesMore(b, off, ps[i], next - off, ps[i + 1..], end);
    assert [ps[i]] + ps[i + 1..] == ps[i..];
  }

  lemma NodesStop(b: seq<byte>, off: nat)
    requires |b| >= 40 && NodeName(b, off) == Stop
    ensures NodesFrom(b, off) == Scanned([], off)
  {
  }

  lemma NodesMore(b: seq<byte>, off: nat, n: Node, size: nat, ns: seq<Node>, end: nat)
    requires |b| >= 40 && NodeFrom(b, off) == Found(n, size) && NodesFrom(b, off + size) == Scanned(ns, end)
    ensures NodesFrom(b, off) == Scanned([n] + ns, end)
  {
  }

  lemma NodesFirst(b: seq<byte>, off: nat, next: nat, ns: seq<Node>, i: nat, end: nat)
    requires |b| >= 40 && i < |ns| && off <= next
    requires NodeFrom(b, off) == Found(ns[i], next - off) && NodesFrom(b, next) == Scanned(ns[i + 1..], end)
    ensures NodesFrom(b, off) == Scanned(ns[i..], end)
  {
    hide *;
    NodesMore(b, off, ns[i], next - off, ns[i + 1..], end);
    assert [ns[i]] + ns[i + 1..] == ns[i..];
  }

  lemma NodeOf(b: seq<byte>, off: nat, n: Node, size: nat, mid: nat, end: nat)
    requires |b| >= 40 && NodeName(b, off) == Found(n.name, size)
    requires PropertiesFrom(b, off + size) == Scanned(n.properties, mid)
    requires NodesFrom(b, mid) == Scanned(n.children, end)
    ensures end >= off && NodeFrom(b, off) == Found(n, end - off + 4)
  {
    hide NodeName, PropertiesFrom, NodesFrom;
  }

  // ----- Lists of tokens -----

  /** us stands in ts from position k on. */
  ghost predicate Within(ts: seq<Token>, k: nat, us: seq<Token>) {
    k + |us| <= |ts| && ts[k..k + |us|] == us
  }

  lemma WithinConcat(ts: seq<Token>, k: nat, us: seq<Token>, vs: seq<Token>)
    requires Within(ts, k, us + vs)
    ensures Within(ts, k, us) && Within(ts, k + |us|, vs)
  {
    var w := ts[k..k + |us| + |vs|];
    assert w[..|us|] == us && w[|us|..] == vs;
    assert ts[k..k + |us|] == w[..|us|];
    assert ts[k + |us|..k + |us| + |vs|] == w[|us|..];
  }

  lemma {:induction false} PropTokenAt(ps: seq<Property>, i: nat)
    ensures |PropTokens(ps)| == |ps| && (i < |ps| ==> PropTokens(ps)[i] == Prop(ps[i]))
  {
    if ps != [] {
      PropTokenAt(ps[..|ps| - 1], i);
    }
  }

  lemma {:induction false} ReadProperties(b: seq<byte>, ts: seq<Token>, at: seq<nat>, k: nat, ps: seq<Property>, i: nat,
                                          j: nat, end: nat)
    requires |b| >= 40 && Readable(b, ts, at) && Within(ts, k, PropTokens(ps)) && i <= |ps|
    requires j == k + i && end == k + |ps| && end < |ts| && !ts[end].Prop?
    ensures PropertiesFrom(b, at[j]) == Scanned(ps[i..], at[end])
    decreases |ps| - i
  {
    hide NextProperty, PropertiesFrom, NodeName, NodeFrom, NodesFrom;
    assert Reads(b, at[j], ts[j]);
    if i < |ps| {
      PropTokenAt(ps, i);
      assert ts[k..k + |ps|][i] == ts[j];
      ReadProperties(b, ts, at, k, ps, i + 1, j + 1, end);
      PropertiesFirst(b, at[j], at[j + 1], ps, i, at[end]);
    } else {
      PropertiesStop(b, at[j]);
    }
  }

  lemma {:induction false} ChildWithin(ts: seq<Token>, k: nat, ns: seq<Node>, i: nat, n: nat)
    requires i < n <= |ns| && Within(ts, k, AllTokens(ns[..n]))
    ensures Within(ts, k + |AllTokens(ns[..i])|, Tokens(ns[i]))
    ensures |AllTokens(ns[..i + 1])| == |AllTokens(ns[..i])| + |Tokens(ns[i])|
    decreases n
  {
    hide *;
    AllTokensSnoc(ns, n - 1);
    WithinConcat(ts, k, AllTokens(ns[..n - 1]), Tokens(ns[n - 1]));
    if i < n - 1 {
      ChildWithin(ts, k, ns, i, n - 1);
    }
  }

  lemma {:induction false} TokensWithin(ts: seq<Token>, k: nat, n: Node, c: nat, e: nat)
    requires Within(ts, k, Tokens(n)) && c == k + 1 + |n.properties| && e + 1 == k + |Tokens(n)|
    ensures e == c + |AllTokens(n.children)| && e < |ts|
    ensures ts[k] == Begin(n.name) && Within(ts, k + 1, PropTokens(n.properties))
    ensures Within(ts, c, AllTokens(n.children)) && ts[e] == End && !ts[c].Prop?
  {
    hide *;
    var props, nodes := PropTokens(n.properties), AllTokens(n.children);
    TokensParts(n);
    PropTokenAt(n.properties, 0);
    WithinAround(ts, k, Begin(n.name), props, nodes, End);
    FirstOfNodes(n.children);
    if nodes != [] {
      WithinFirst(ts, c, nodes);
    }
  }

  lemma TokensParts(n: Node)
    ensures Tokens(n) == [Begin(n.name)] + PropTokens(n.properties) + AllTokens(n.children) + [End]
  {
    hide PropTokens, AllTokens;
  }

  lemma WithinFirst(ts: seq<Token>, k: nat, us: seq<Token>)
    requires Within(ts, k, us) && us != []
    ensures k < |ts| && ts[k] == us[0]
  {
    assert ts[k..k + |us|][0] == ts[k];
  }

  /** What stands where, when a stretch is a first token, two lists and a last token. */
  lemma WithinAround(ts: seq<Token>, k: nat, first: Token, us: seq<Token>, vs: seq<Token>, last: Token)
    requires Within(ts, k, [first] + us + vs + [last])
    ensures k + 1 + |us| + |vs| < |ts| && ts[k] == first && ts[k + 1 + |us| + |vs|] == last
    ensures Within(ts, k + 1, us) && Within(ts, k + 1 + |us|, vs)
  {
    hide Within;
    WithinConcat(ts, k, [first] + us + vs, [last]);
    WithinConcat(ts, k, [first] + us, vs);
    WithinConcat(ts, k, [first], us);
    WithinFirst(ts, k, [first]);
    WithinFirst(ts, k + 1 + |us| + |vs|, [last]);
  }

  lemma {:induction false} FirstOfNodes(ns: seq<Node>)
    ensures AllTokens(ns) != [] ==> AllTokens(ns)[0].Begin?
  {
    if ns != [] {
      FirstOfNodes(ns[..|ns| - 1]);
    }
  }

  /** A node of the stream reads back as that node, up to the end of its last token. */
  lemma {:induction false} ReadNode(b: seq<byte>, ts: seq<Token>, at: seq<nat>, k: nat, n: Node, end: nat)
    requires |b| >= 40 && Readable(b, ts, at) && Within(ts, k, Tokens(n)) && end == k + |Tokens(n)|
    ensures at[k] <= at[end] && NodeFrom(b, at[k]) == Found(n, at[end] - at[k])
    decreases n, 1, 0
  {
    hide NextProperty, PropertiesFrom, NodeName, NodeFrom, NodesFrom;
    var c: nat, e: nat := k + 1 + |n.properties|, end - 1;
    TokensWithin(ts, k, n, c, e);
    ReadParts(b, ts, at, k, n, c, e);
  }

  lemma {:induction false} ReadParts(b: seq<byte>, ts: seq<Token>, at: seq<nat>, k: nat, n: Node, c: nat, e: nat)
    requires |b| >= 40 && Readable(b, ts, at)
    requires c == k + 1 + |n.properties| && e == c + |AllTokens(n.children)| && e < |ts|
    requires ts[k] == Begin(n.name) && Within(ts, k + 1, PropTokens(n.properties))
    requires Within(ts, c, AllTokens(n.children)) && ts[e] == End && !ts[c].Prop?
    ensures at[k] <= at[e + 1] && NodeFrom(b, at[k]) == Found(n, at[e + 1] - at[k])
    decreases n, 0, 0
  {
    hide NextProperty, PropertiesFrom, NodeName, NodeFrom, NodesFrom;
    assert PropertiesFrom(b, at[k + 1]) == Scanned(n.properties, at[c]) by {
      ReadProperties(b, ts, at, k + 1, n.properties, 0, k + 1, c);
      assert n.properties[0..] == n.properties;
    }
    assert NodesFrom(b, at[c]) == Scanned(n.children, at[e]) by {
      EmptyPrefix(n.children);
      ReadNodes(b, ts, at, c, n.children, 0, c, e);
      assert n.children[0..] == n.children;
    }
    NodeAt(b, ts, at, k, n, c, e);
  }

  lemma EmptyPrefix(ns: seq<Node>)
    ensures AllTokens(ns[..0]) == []
  {
  }

  lemma NodeAt(b: seq<byte>, ts: seq<Token>, at: seq<nat>, k: nat, n: Node, c: nat, e: nat)
    requires |b| >= 40 && Readable(b, ts, at) && k < c <= e < |ts| && ts[k] == Begin(n.name) && ts[e] == End
    requires PropertiesFrom(b, at[k + 1]) == Scanned(n.properties, at[c])
    requires NodesFrom(b, at[c]) == Scanned(n.children, at[e])
    ensures at[k] <= at[e + 1] && NodeFrom(b, at[k]) == Found(n, at[e + 1] - at[k])
  {
    hide NextProperty, PropertiesFrom, NodeName, NodeFrom, NodesFrom, AllTokens, Tokens, Within;
    assert Reads(b, at[k], ts[k]);
    assert at[e + 1] == at[e] + TokenSize(ts[e]);
    NodeOf(b, at[k], n, TokenSize(ts[k]), at[c], at[e]);
  }

  lemma {:induction false} ReadNodes(b: seq<byte>, ts: seq<Token>, at: seq<nat>, k: nat, ns: seq<Node>, i: nat,
                                     j: nat, end: nat)
    requires |b| >= 40 && Readable(b, ts, at) && Within(ts, k, AllTokens(ns)) && i <= |ns|
    requires j == k + |AllTokens(ns[..i])| && end == k + |AllTokens(ns)| && end < |ts| && ts[end] == End
    ensures j <= end && NodesFrom(b, at[j]) == Scanned(ns[i..], at[end])
    decreases ns, 0, |ns| - i
  {
    hide NextProperty, PropertiesFrom, NodeName, NodeFrom, NodesFrom, AllTokens, Tokens, Within;
    assert ns[..|ns|] == ns;
    if i < |ns| {
      ChildWithin(ts, k, ns, i, |ns|);
      var next := j + |Tokens(ns[i])|;
      ReadNode(b, ts, at, j, ns[i], next);
      ReadNodes(b, ts, at, k, ns, i + 1, next, end);
      NodesFirst(b, at[j], at[next], ns, i, at[end]);
    } else {
      assert Reads(b, at[end], ts[end]);
      NodesStop(b, at[end]);
    }
  }

  // ----- The reserve map -----

  predicate ValidEntry(e: Entry) {
    e.start < TWO64 && 0 < e.size < TWO64
  }

  lemma {:induction false} EntryIn(b: seq<byte>, off: nat, es: seq<Entry>, i: nat, n: nat)
    requires i < n <= |es| && Has(b, off, EntriesBytes(es[..n]))
    ensures Has(b, off + 16 * i, Be64(es[i].start) + Be64(es[i].size))
    decreases n
  {
    assert es[..n][..n - 1] == es[..n - 1] && es[..n][n - 1] == es[n - 1];
    HasConcat(b, off, EntriesBytes(es[..n - 1]), Be64(es[n - 1].start) + Be64(es[n - 1].size));
    if i < n - 1 {
      EntryIn(b, off, es, i, n - 1);
    }
  }

  lemma ReadPair(b: seq<byte>, off: nat, x: nat, y: nat)
    requires Has(b, off, Be64(x) + Be64(y)) && x < TWO64 && y < TWO64
    ensures off + 16 <= |b| && Word64(b, off) == x && Word64(b, off + 8) == y
  {
    HasConcat(b, off, Be64(x), Be64(y));
    Word64OfBe64(x, b, off);
    Word64OfBe64(y, b, off + 8);
  }

  lemma EntriesMore(b: seq<byte>, off: nat, e: Entry, es: seq<Entry>, end: nat)
    requires off + 16 <= |b| && Word64(b, off) == e.start && Word64(b, off + 8) == e.size && e.size != 0
    requires EntriesFrom(b, off + 16) == Scanned(es, end)
    ensures EntriesFrom(b, off) == Scanned([e] + es, end)
  {
  }

  lemma {:induction false} ReadEntries(b: seq<byte>, off: nat, es: seq<Entry>, i: nat)
    requires Has(b, off, EntriesBytes(es)) && Has(b, off + 16 * |es|, TERMINATOR) && i <= |es|
    requires forall e :: e in es ==> ValidEntry(e)
    ensures EntriesFrom(b, off + 16 * i) == Scanned(es[i..], off + 16 * |es|)
    decreases |es| - i
  {
    hide EntriesBytes, Be64, Word64, Be32;
    if i < |es| {
      assert es[..|es|] == es;
      EntryIn(b, off, es, i, |es|);
      assert es[i] in es;
      ReadPair(b, off + 16 * i, es[i].start, es[i].size);
      ReadEntries(b, off, es, i + 1);
      EntriesMore(b, off + 16 * i, es[i], es[i + 1..], off + 16 * |es|);
      assert [es[i]] + es[i + 1..] == es[i..];
    } else {
      ReadPair(b, off + 16 * i, 0, 0);
    }
  }

  // ----- The whole tree -----

  /** Trees whose flattened form can be read back: what the format has room for. */
  ghost predicate Flattenable(t: Tree) {
    && |t.header| >= 40
    && FlatSize(t) < TWO32
    && (forall e :: e in t.reserveMap ==> ValidEntry(e))
  }

  /** The reserve map of a tree is written right behind the header, so the header must say so. */
  predicate ReserveMapFirst(t: Tree) {
    |t.header| >= 40 && Word(t.header, 16) == |t.header|
  }

  /** Loading a flattened tree gives back its reserve map, its nodes, and the extent of its header. */
  lemma RoundTrip(b: seq<byte>, t: Tree)
    requires FlatAt(b, t) && Flattenable(t) && ReserveMapFirst(t)
    ensures Load(b) == Loaded(|t.header|, t.reserveMap, Root(t.root))
  {
    hide EntriesFrom, NextProperty, PropertiesFrom, NodeName, NodeFrom, NodesFrom, Word, Be32, Be64, StreamAt;
    hide Chunks, Tokens;
    HeaderWords(b, t);
    HasConcat(b, |t.header|, EntriesBytes(t.reserveMap), TERMINATOR);
    assert Has(b, |t.header|, EntriesBytes(t.reserveMap)) && Has(b, |t.header| + 16 * |t.reserveMap|, TERMINATOR);
    ReadEntries(b, |t.header|, t.reserveMap, 0);
    assert t.reserveMap[0..] == t.reserveMap;
    ReadRoot(b, t);
  }

  /** And only for such headers: the writer keeps the header's own reserve map offset, wherever that points. */
  lemma RoundTripIff(b: seq<byte>, t: Tree)
    requires FlatAt(b, t) && Flattenable(t)
    ensures Load(b) == Loaded(|t.header|, t.reserveMap, Root(t.root)) <==> ReserveMapFirst(t)
  {
    HeaderWords(b, t);
    if ReserveMapFirst(t) {
      RoundTrip(b, t);
    }
    hide EntriesFrom, NodeFrom, StreamAt, Chunks, Tokens, EntriesBytes, Word;
  }

  /**
   A tree loaded from a blob whose structure block comes before its reserve map cannot be
   written and loaded again: the offset that its header keeps lies behind the header.
   */
  lemma ReorderedBlobIsLost(b0: seq<byte>, b: seq<byte>, t: Tree)
    requires |b0| >= 40 && Word(b0, 8) < Word(b0, 16)
    requires var l := Load(b0);
             && l.Loaded? && l.root.Root? && 40 <= l.headerSize <= |b0|
             && t == Tree(b0[..l.headerSize], l.reserveMap, l.root.node)
    requires FlatAt(b, t) && Flattenable(t)
    ensures Load(b) != Load(b0)
  {
    RoundTripIff(b, t);
    var h := Load(b0).headerSize;
    assert b0[..h][16] == b0[16] && b0[..h][17] == b0[17] && b0[..h][18] == b0[18] && b0[..h][19] == b0[19];
    assert Word(t.header, 16) == Word(b0, 16);
    hide EntriesFrom, NodeFrom, FlatAt, Flattenable, Word;
  }

  lemma HeaderWords(b: seq<byte>, t: Tree)
    requires FlatAt(b, t) && Flattenable(t)
    ensures |b| >= 40 && Word(b, 8) == StructOffset(t) && Word(b, 12) == StringsOffset(t)
    ensures Word(b, 16) == Word(t.header, 16)
  {
    HasWord(b, 8, StructOffset(t));
    HasWord(b, 12, StringsOffset(t));
    var s := t.header[16..32];
    assert s == b[16..32];
    assert b[16] == s[0] && b[17] == s[1] && b[18] == s[2] && b[19] == s[3];
    assert t.header[16] == s[0] && t.header[17] == s[1] && t.header[18] == s[2] && t.header[19] == s[3];
  }

  lemma ReadRoot(b: seq<byte>, t: Tree)
    requires FlatAt(b, t) && Flattenable(t) && ReserveMapFirst(t)
    ensures |b| >= 40 && NodeFrom(b, StructOffset(t)) == Found(t.root, NodeSize(t.root))
  {
    HeaderWords(b, t);
    RootHeld(b, t);
    ReadOnly(b, StructOffset(t), StringsOffset(t), t.root);
  }

  /** A node reads back from a structure block of its own, and takes what the counting pass says. */
  lemma ReadOnly(b: seq<byte>, start: nat, strings: nat, n: Node)
    requires Holds(b, start, strings, Tokens(n))
    ensures NodeFrom(b, start) == Found(n, NodeSize(n))
  {
    hide NodeFrom, NodeSize, Tokens, Readable, StreamAt, Chunks, Word;
    var ts := Tokens(n);
    AllReadable(b, start, strings, ts);
    assert ts[0..|ts|] == ts && ts[..|ts|] == ts && ts[..0] == [];
    OffsetOf(start, ts, 0);
    OffsetOf(start, ts, |ts|);
    TokensSize(n);
    ReadNode(b, ts, Offsets(start, ts), 0, n, |ts|);
  }

  lemma RootHeld(b: seq<byte>, t: Tree)
    requires FlatAt(b, t) && Flattenable(t) && |b| >= 40 && Word(b, 12) == StringsOffset(t)
    ensures Holds(b, StructOffset(t), StringsOffset(t), Tokens(t.root))
  {
    TokensSize(t.root);
  }
}

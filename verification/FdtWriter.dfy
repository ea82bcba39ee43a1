/**
 Flattening a device tree into a buffer: the counting pass and the writing pass.
 */
module FdtWriter {
  import opened Bytes
  import opened Streams
  import opened DeviceTree
  import opened MachineInts

  // ----- The counting pass -----

  /** `*counter += n`, on a counter of 32 bits that holds what it can of an exact count. */
  method Count(counter: nat, n: nat, ghost exact: nat) returns (counter': nat)
    requires counter == Uint32(exact)
    ensures counter' == Uint32(exact + n)
  {
    Uint32Add(exact, n);
    counter' := Uint32(counter + n);
  }

  /** `dt_flat_prop_size` */
  method FlatPropSize(p: Property, structSize: nat, stringsSize: nat, ghost s: nat, ghost t: nat)
    returns (structSize': nat, stringsSize': nat)
    requires structSize == Uint32(s) && stringsSize == Uint32(t)
    ensures structSize' == Uint32(s + PropertySize(p)) && stringsSize' == Uint32(t + |p.name| + 1)
  {
    hide Uint32, Align4;
    structSize' := Count(structSize, 4, s);
    structSize' := Count(structSize', 4, s + 4);
    structSize' := Count(structSize', 4, s + 8);
    structSize' := Count(structSize', Align4(|p.data|), s + 12);
    stringsSize' := Count(stringsSize, |p.name| + 1, t);
  }

  /** `dt_flat_node_size`: the 32-bit counters keep what they can of the sizes of the node. */
  method FlatNodeSize(n: Node, structSize: nat, stringsSize: nat, ghost s: nat, ghost t: nat)
    returns (structSize': nat, stringsSize': nat)
    requires structSize == Uint32(s) && stringsSize == Uint32(t)
    ensures structSize' == Uint32(s + NodeSize(n)) && stringsSize' == Uint32(t + StringsSize(n))
    decreases n
  {
    hide *;
    NodeParts(n);
    structSize' := Count(structSize, 4, s);
    structSize' := Count(structSize', Align4(|n.name| + 1), s + 4);
    stringsSize' := stringsSize;
    ghost var head, names := s + HeadSize(n), NamesSize(n.properties);
    for i := 0 to |n.properties|
      invariant structSize' == Uint32(head + PropertiesSize(n.properties[..i]))
      invariant stringsSize' == Uint32(t + NamesSize(n.properties[..i]))
    {
      OneMoreProperty(n.properties, i);
      structSize', stringsSize' := FlatPropSize(n.properties[i], structSize', stringsSize',
        head + PropertiesSize(n.properties[..i]), t + NamesSize(n.properties[..i]));
    }
    assert n.properties[..|n.properties|] == n.properties;
    ghost var middle := head + PropertiesSize(n.properties);
    for i := 0 to |n.children|
      invariant structSize' == Uint32(middle + NodesSize(n.children[..i]))
      invariant stringsSize' == Uint32(t + names + AllStringsSize(n.children[..i]))
    {
      OneMoreChild(n.children, i);
      structSize', stringsSize' := FlatNodeSize(n.children[i], structSize', stringsSize',
        middle + NodesSize(n.children[..i]), t + names + AllStringsSize(n.children[..i]));
    }
    assert n.children[..|n.children|] == n.children;
    structSize' := Count(structSize', 4, middle + NodesSize(n.children));
  }

  lemma NodeParts(n: Node)
    ensures HeadSize(n) == 4 + Align4(|n.name| + 1) && PropertiesSize([]) == 0 && NamesSize([]) == 0
    ensures NodesSize([]) == 0 && AllStringsSize([]) == 0
    ensures NodeSize(n) == HeadSize(n) + PropertiesSize(n.properties) + NodesSize(n.children) + 4
    ensures StringsSize(n) == NamesSize(n.properties) + AllStringsSize(n.children)
  {
    hide Align4;
  }

  lemma OneMoreProperty(ps: seq<Property>, i: nat)
    requires i < |ps|
    ensures PropertiesSize(ps[..i + 1]) == PropertiesSize(ps[..i]) + PropertySize(ps[i])
    ensures NamesSize(ps[..i + 1]) == NamesSize(ps[..i]) + |ps[i].name| + 1
  {
    hide PropertySize;
    assert ps[..i + 1][..i] == ps[..i];
  }

  lemma OneMoreChild(ns: seq<Node>, i: nat)
    requires i < |ns|
    ensures NodesSize(ns[..i + 1]) == NodesSize(ns[..i]) + NodeSize(ns[i])
    ensures AllStringsSize(ns[..i + 1]) == AllStringsSize(ns[..i]) + StringsSize(ns[i])
  {
    hide NodeSize, StringsSize;
    assert ns[..i + 1][..i] == ns[..i];
  }

  /** `dt_flat_size`: the size of the flattened tree, exactly if it is below 4 GiB. */
  method FlatTreeSize(t: Tree) returns (size: nat)
    ensures size == Uint32(FlatSize(t)) && (size == FlatSize(t) <==> FlatSize(t) < TWO32)
  {
    size := Uint32(|t.header|);
    ghost var exact := |t.header|;
    hide Uint32, NodeSize, StringsSize;
    for i := 0 to |t.reserveMap|
      invariant exact == |t.header| + 16 * i && size == Uint32(exact)
    {
      size := Count(size, 16, exact);
      exact := exact + 16;
    }
    size := Count(size, 16, exact);
    exact := exact + 16;
    Uint32Zero();
    var structSize, stringsSize := FlatNodeSize(t.root, 0, 0, 0, 0);
    size := CountWrapped(size, structSize, exact, NodeSize(t.root));
    size := Count(size, 4, exact + NodeSize(t.root));
    size := CountWrapped(size, stringsSize, exact + NodeSize(t.root) + 4, StringsSize(t.root));
  }

  lemma Uint32Zero()
    ensures Uint32(0) == 0
  {
  }

  method CountWrapped(counter: nat, wrapped: nat, ghost exact: nat, ghost n: nat) returns (counter': nat)
    requires counter == Uint32(exact) && wrapped == Uint32(n)
    ensures counter' == Uint32(exact + n)
  {
    Uint32Add(exact, wrapped);
    Uint32Add(n, exact);
    counter' := Uint32(counter + wrapped);
  }

  // ----- The writing pass -----

  /** `strcpy` */
  method PutString(a: array<byte>, off: nat, s: CString)
    requires off + |s| < a.Length
    modifies a
    ensures Has(a[..], off, s + [0])
    ensures OnlyIn(old(a[..]), a[..], off, off + |s| + 1, 0, 0)
  {
    Put(a, off, s + [0]);
  }

  method PutBegin(a: array<byte>, off: nat, strings: nat, dstrings: nat, name: CString)
    requires off + TokenSize(Begin(name)) <= strings <= dstrings <= a.Length
    modifies a
    ensures ChunkAt(a[..], off, ChunkOf(Begin(name), dstrings - strings), dstrings)
    ensures OnlyIn(old(a[..]), a[..], off, off + TokenSize(Begin(name)), dstrings, dstrings)
  {
    PutWord(a, off, TOKEN_BEGIN_NODE);
    ghost var b1 := a[..];
    PutString(a, off + 4, name);
    HasKept(b1, a[..], off + 4, off + 4 + |name| + 1, 0, 0, off, Be32(TOKEN_BEGIN_NODE));
    HasConcat(a[..], off, Be32(TOKEN_BEGIN_NODE), name + [0]);
  }

  method PutProperty(a: array<byte>, off: nat, strings: nat, dstrings: nat, p: Property)
    requires off + PropertySize(p) <= strings <= dstrings && dstrings + |p.name| + 1 <= a.Length
    modifies a
    ensures ChunkAt(a[..], off, ChunkOf(Prop(p), dstrings - strings), dstrings)
    ensures OnlyIn(old(a[..]), a[..], off, off + PropertySize(p), dstrings, dstrings + |p.name| + 1)
  {
    ghost var b0 := a[..];
    PutWord(a, off, TOKEN_PROPERTY);
    ghost var b1 := a[..];
    PutWord(a, off + 4, |p.data|);
    ghost var b2 := a[..];
    PutWord(a, off + 8, dstrings - strings);
    ghost var b3 := a[..];
    PutString(a, dstrings, p.name);
    ghost var b4 := a[..];
    Put(a, off + 12, p.data);
    PropertyWritten(b0, b1, b2, b3, b4, a[..], off, strings, dstrings, p);
  }

  lemma PropertyWritten(b0: seq<byte>, b1: seq<byte>, b2: seq<byte>, b3: seq<byte>, b4: seq<byte>, b5: seq<byte>,
                        off: nat, strings: nat, dstrings: nat, p: Property)
    requires off + PropertySize(p) <= strings <= dstrings && dstrings + |p.name| + 1 <= |b0|
    requires OnlyIn(b0, b1, off, off + 4, 0, 0) && Has(b1, off, Be32(TOKEN_PROPERTY))
    requires OnlyIn(b1, b2, off + 4, off + 8, 0, 0) && Has(b2, off + 4, Be32(|p.data|))
    requires OnlyIn(b2, b3, off + 8, off + 12, 0, 0) && Has(b3, off + 8, Be32(dstrings - strings))
    requires OnlyIn(b3, b4, dstrings, dstrings + |p.name| + 1, 0, 0) && Has(b4, dstrings, p.name + [0])
    requires OnlyIn(b4, b5, off + 12, off + 12 + |p.data|, 0, 0) && Has(b5, off + 12, p.data)
    ensures OnlyIn(b0, b5, off, off + PropertySize(p), dstrings, dstrings + |p.name| + 1)
    ensures ChunkAt(b5, off, ChunkOf(Prop(p), dstrings - strings), dstrings)
  {
    var w0, w1, w2 := Be32(TOKEN_PROPERTY), Be32(|p.data|), Be32(dstrings - strings);
    HasKept(b1, b2, off + 4, off + 8, 0, 0, off, w0);
    HasConcat(b2, off, w0, w1);
    HasKept(b2, b3, off + 8, off + 12, 0, 0, off, w0 + w1);
    HasConcat(b3, off, w0 + w1, w2);
    HasKept(b3, b4, dstrings, dstrings + |p.name| + 1, 0, 0, off, w0 + w1 + w2);
    HasKept(b4, b5, off + 12, off + 12 + |p.data|, 0, 0, off, w0 + w1 + w2);
    HasConcat(b5, off, w0 + w1 + w2, p.data);
    HasKept(b4, b5, off + 12, off + 12 + |p.data|, 0, 0, dstrings, p.name + [0]);
  }

  /** A moment of the writing pass: the cursors, the buffer, and what it holds. */
  datatype Moment = Moment(start: nat, strings: nat, dstruct: nat, dstrings: nat, bytes: seq<byte>, done: seq<Chunk>)

  /** Everything emitted so far is in the buffer, right behind each other in both blocks. */
  ghost predicate Consistent(m: Moment) {
    && m.dstruct == m.start + Size(m.done) && m.dstrings == m.strings + TextSize(m.done)
    && m.dstruct <= m.strings && m.dstrings <= |m.bytes|
    && StreamAt(m.bytes, m.start, m.done, m.strings)
  }

  /** From m to m' these tokens have been emitted, and nothing else has changed. */
  ghost predicate Emits(m: Moment, m': Moment, ts: seq<Token>) {
    && m'.start == m.start && m'.strings == m.strings <= m.dstrings
    && m'.done == m.done + Chunks(ts, m.dstrings - m.strings)
    && m'.dstruct == m.dstruct + StreamSize(ts) && m'.dstrings == m.dstrings + StreamStrings(ts)
    && OnlyIn(m.bytes, m'.bytes, m.dstruct, m'.dstruct, m.dstrings, m'.dstrings)
  }

  lemma EmitsNothing(m: Moment)
    requires Consistent(m)
    ensures Emits(m, m, [])
  {
  }

  lemma EmitsMore(m0: Moment, m1: Moment, m2: Moment, ts: seq<Token>, us: seq<Token>)
    requires Emits(m0, m1, ts) && Emits(m1, m2, us)
    ensures Emits(m0, m2, ts + us)
  {
    hide Chunks, StreamSize, StreamStrings, OnlyIn;
    var names := m0.dstrings - m0.strings;
    StreamConcat(ts, us);
    DoneMore(m0.done, m1.done, m2.done, ts, us, names);
    OnlyInChain(m0.bytes, m1.bytes, m2.bytes, m0.dstruct, m1.dstruct, m2.dstruct, m0.dstrings, m1.dstrings,
      m2.dstrings);
  }

  lemma AppendTwice<T>(d0: seq<T>, d1: seq<T>, d2: seq<T>, a: seq<T>, b: seq<T>, ab: seq<T>)
    requires d1 == d0 + a && d2 == d1 + b && ab == a + b
    ensures d2 == d0 + ab
  {
  }

  lemma DoneMore(d0: seq<Chunk>, d1: seq<Chunk>, d2: seq<Chunk>, ts: seq<Token>, us: seq<Token>, names: nat)
    requires d1 == d0 + Chunks(ts, names) && d2 == d1 + Chunks(us, names + StreamStrings(ts))
    ensures d2 == d0 + Chunks(ts + us, names)
  {
    hide *;
    ChunksConcat(ts, us, names);
    AppendTwice(d0, d1, d2, Chunks(ts, names), Chunks(us, names + StreamStrings(ts)), Chunks(ts + us, names));
  }

  /** Stepping the cursors over a token that has just been written at them. */
  lemma EmitsOne(m: Moment, m': Moment, t: Token)
    requires Consistent(m)
    requires m.dstruct + TokenSize(t) <= m.strings && m.dstrings + TokenStrings(t) <= |m.bytes|
    requires OnlyIn(m.bytes, m'.bytes, m.dstruct, m.dstruct + TokenSize(t), m.dstrings, m.dstrings + TokenStrings(t))
    requires ChunkAt(m'.bytes, m.dstruct, ChunkOf(t, m.dstrings - m.strings), m.dstrings)
    requires m' == Moment(m.start, m.strings, m.dstruct + TokenSize(t), m.dstrings + TokenStrings(t), m'.bytes,
                          m.done + [ChunkOf(t, m.dstrings - m.strings)])
    ensures Consistent(m') && Emits(m, m', [t])
  {
    hide ChunkOf, Chunks, StreamSize, StreamStrings, StreamAt, ChunkAt, Size, TextSize;
    var c := ChunkOf(t, m.dstrings - m.strings);
    StreamGrows(m.bytes, m'.bytes, m.start, m.done, c, m.strings, m.dstruct, m.dstrings);
    Snoc(m.done, c);
    StreamOne(t);
    ChunksOne(t, m.dstrings - m.strings);
  }

  /** The two cursors of the writing pass, in one buffer. */
  class Writer {
    const a: array<byte>
    const start: nat          // where the structure block starts
    const strings: nat        // where the strings block starts
    var dstruct: nat
    var dstrings: nat
    ghost var done: seq<Chunk>

    ghost function Now(): Moment
      reads this, a
    {
      Moment(start, strings, dstruct, dstrings, a[..], done)
    }

    constructor (a: array<byte>, start: nat, strings: nat)
      requires start <= strings <= a.Length
      ensures Now() == Moment(start, strings, start, strings, a[..], []) && this.a == a
      ensures Consistent(Now())
    {
      this.a, this.start, this.strings := a, start, strings;
      dstruct, dstrings, done := start, strings, [];
    }

    method EmitBegin(name: CString)
      requires Consistent(Now()) && dstruct + TokenSize(Begin(name)) <= strings
      modifies this, a
      ensures Consistent(Now()) && Emits(old(Now()), Now(), [Begin(name)])
    {
      PutBegin(a, dstruct, strings, dstrings, name);
      Advance(4 + Align4(|name| + 1), 0, Begin(name));
      EmitsOne(old(Now()), Now(), Begin(name));
    }

    method EmitEnd()
      requires Consistent(Now()) && dstruct + 4 <= strings
      modifies this, a
      ensures Consistent(Now()) && Emits(old(Now()), Now(), [End])
    {
      PutWord(a, dstruct, TOKEN_END_NODE);
      Advance(4, 0, End);
      EmitsOne(old(Now()), Now(), End);
    }

    /** `dt_flatten_prop` */
    method EmitProperty(p: Property)
      requires Consistent(Now()) && dstruct + PropertySize(p) <= strings && dstrings + |p.name| + 1 <= a.Length
      modifies this, a
      ensures Consistent(Now()) && Emits(old(Now()), Now(), [Prop(p)])
    {
      hide Emits, Align4, ChunkOf, Chunks, ChunkAt, StreamAt, StreamSize, StreamStrings, OnlyIn, Size, TextSize;
      PutProperty(a, dstruct, strings, dstrings, p);
      Advance(12 + Align4(|p.data|), |p.name| + 1, Prop(p));
      EmitsOne(old(Now()), Now(), Prop(p));
    }

    method Advance(structBytes: nat, stringBytes: nat, ghost t: Token)
      requires strings <= dstrings
      modifies this
      ensures Now() == Moment(start, strings, old(dstruct) + structBytes, old(dstrings) + stringBytes, a[..],
                              old(done) + [ChunkOf(t, old(dstrings) - strings)])
    {
      done := done + [ChunkOf(t, dstrings - strings)];
      dstruct := dstruct + structBytes;
      dstrings := dstrings + stringBytes;
    }

    method FlattenProperties(ps: seq<Property>)
      requires Consistent(Now()) && dstruct + PropertiesSize(ps) <= strings && dstrings + NamesSize(ps) <= a.Length
      modifies this, a
      ensures Consistent(Now()) && Emits(old(Now()), Now(), PropTokens(ps))
    {
      ghost var m0 := Now();
      EmitsNothing(m0);
      for i := 0 to |ps|
        invariant Consistent(Now()) && Emits(m0, Now(), PropTokens(ps[..i]))
      {
        PropertiesSplit(ps, i);
        PropTokensSize(ps[..i]);
        ghost var m1 := Now();
        EmitProperty(ps[i]);
        EmitsMore(m0, m1, Now(), PropTokens(ps[..i]), [Prop(ps[i])]);
        PropTokensSnoc(ps, i);
      }
      assert ps[..|ps|] == ps;
    }

    method FlattenChildren(ns: seq<Node>)
      requires Consistent(Now()) && dstruct + NodesSize(ns) <= strings && dstrings + AllStringsSize(ns) <= a.Length
      modifies this, a
      ensures Consistent(Now()) && Emits(old(Now()), Now(), AllTokens(ns))
      decreases ns, 0
    {
      ghost var m0 := Now();
      EmitsNothing(m0);
      for i := 0 to |ns|
        invariant Consistent(Now()) && Emits(m0, Now(), AllTokens(ns[..i]))
      {
        NodesSplit(ns, i);
        AllTokensSize(ns[..i]);
        ghost var m1 := Now();
        FlattenNode(ns[i]);
        EmitsMore(m0, m1, Now(), AllTokens(ns[..i]), Tokens(ns[i]));
        AllTokensSnoc(ns, i);
      }
      assert ns[..|ns|] == ns;
    }

    /** `dt_flatten_node` */
    method FlattenNode(n: Node)
      requires Consistent(Now()) && dstruct + NodeSize(n) <= strings && dstrings + StringsSize(n) <= a.Length
      modifies this, a
      ensures Consistent(Now()) && Emits(old(Now()), Now(), Tokens(n))
      decreases n, 1
    {
      ghost var m0 := Now();
      PropTokensSize(n.properties);
      AllTokensSize(n.children);
      StreamOne(Begin(n.name));
      EmitBegin(n.name);
      ghost var m1 := Now();
      FlattenProperties(n.properties);
      ghost var m2 := Now();
      FlattenChildren(n.children);
      ghost var m3 := Now();
      EmitEnd();
      EmitsMore(m0, m1, m2, [Begin(n.name)], PropTokens(n.properties));
      EmitsMore(m0, m2, m3, [Begin(n.name)] + PropTokens(n.properties), AllTokens(n.children));
      EmitsMore(m0, m3, Now(), [Begin(n.name)] + PropTokens(n.properties) + AllTokens(n.children), [End]);
    }
  }

  lemma PropTokensSnoc(ps: seq<Property>, i: nat)
    requires i < |ps|
    ensures PropTokens(ps[..i + 1]) == PropTokens(ps[..i]) + [Prop(ps[i])]
  {
    assert ps[..i + 1][..i] == ps[..i] && ps[..i + 1][i] == ps[i];
  }

  lemma AllTokensSnoc(ns: seq<Node>, i: nat)
    requires i < |ns|
    ensures AllTokens(ns[..i + 1]) == AllTokens(ns[..i]) + Tokens(ns[i])
  {
    assert ns[..i + 1][..i] == ns[..i] && ns[..i + 1][i] == ns[i];
  }

  /** What the i-th property and the i-th child add. */
  lemma {:induction false} PropertiesSplit(ps: seq<Property>, i: nat)
    requires i < |ps|
    ensures PropertiesSize(ps[..i + 1]) == PropertiesSize(ps[..i]) + PropertySize(ps[i])
    ensures NamesSize(ps[..i + 1]) == NamesSize(ps[..i]) + |ps[i].name| + 1
    ensures PropertiesSize(ps[..i + 1]) <= PropertiesSize(ps) && NamesSize(ps[..i + 1]) <= NamesSize(ps)
    decreases |ps| - i
  {
    assert ps[..i + 1][..i] == ps[..i];
    if i + 1 < |ps| {
      PropertiesSplit(ps, i + 1);
    } else {
      assert ps[..i + 1] == ps;
    }
  }

  lemma {:induction false} NodesSplit(ns: seq<Node>, i: nat)
    requires i < |ns|
    ensures NodesSize(ns[..i + 1]) == NodesSize(ns[..i]) + NodeSize(ns[i])
    ensures AllStringsSize(ns[..i + 1]) == AllStringsSize(ns[..i]) + StringsSize(ns[i])
    ensures NodesSize(ns[..i + 1]) <= NodesSize(ns) && AllStringsSize(ns[..i + 1]) <= AllStringsSize(ns)
    decreases |ns| - i
  {
    assert ns[..i + 1][..i] == ns[..i];
    if i + 1 < |ns| {
      NodesSplit(ns, i + 1);
    } else {
      assert ns[..i + 1] == ns;
    }
  }

  // ----- The whole tree -----

  /** The memory reservation block, with its terminating entry. */
  function EntriesBytes(es: seq<Entry>): (s: seq<byte>)
    ensures |s| == 16 * |es|
  {
    if es == [] then [] else
      EntriesBytes(es[..|es| - 1]) + (Be64(es[|es| - 1].start) + Be64(es[|es| - 1].size))
  }

  const TERMINATOR: seq<byte> := Be64(0) + Be64(0)

  function StructOffset(t: Tree): nat {
    |t.header| + 16 * (|t.reserveMap| + 1)
  }

  function StringsOffset(t: Tree): nat {
    StructOffset(t) + NodeSize(t.root) + 4
  }

  /** Header, reserve map, structure block, end token and strings block where they belong. */
  ghost predicate LaidOut(b: seq<byte>, header: seq<byte>, entries: seq<byte>, cs: seq<Chunk>,
                          structStart: nat, stringsStart: nat, total: nat)
  {
    && 40 <= |header| && structStart == |header| + |entries| && structStart + 4 <= stringsStart <= total <= |b|
    && Has(b, 0, header[..4]) && Has(b, 40, header[40..])
    && Has(b, 4, Be32(total))
    && Has(b, 8, Be32(structStart))
    && Has(b, 12, Be32(stringsStart))
    && Has(b, 16, header[16..32])
    && Has(b, 32, Be32(total - stringsStart))
    && Has(b, 36, Be32(stringsStart - 4 - structStart))
    && Has(b, |header|, entries)
    && StreamAt(b, structStart, cs, stringsStart)
    && Has(b, stringsStart - 4, Be32(TOKEN_END))
  }

  /** The blob a flattened tree is, followed by anything. */
  ghost predicate FlatAt(b: seq<byte>, t: Tree) {
    LaidOut(b, t.header, EntriesBytes(t.reserveMap) + TERMINATOR, Chunks(Tokens(t.root), 0),
            StructOffset(t), StringsOffset(t), FlatSize(t))
  }

  lemma EntriesSnoc(es: seq<Entry>, i: nat)
    requires i < |es|
    ensures EntriesBytes(es[..i + 1]) == EntriesBytes(es[..i]) + (Be64(es[i].start) + Be64(es[i].size))
  {
    hide Be64;
    assert es[..i + 1][..i] == es[..i] && es[..i + 1][i] == es[i];
  }

  method FlattenReserveMap(es: seq<Entry>, a: array<byte>, off: nat) returns (end: nat)
    requires off + 16 * (|es| + 1) <= a.Length
    modifies a
    ensures end == off + 16 * (|es| + 1)
    ensures Has(a[..], off, EntriesBytes(es) + TERMINATOR)
    ensures OnlyIn(old(a[..]), a[..], off, end, 0, 0)
  {
    hide Be64;
    end := off;
    for i := 0 to |es|
      invariant end == off + 16 * i && Has(a[..], off, EntriesBytes(es[..i]))
      invariant OnlyIn(old(a[..]), a[..], off, end, 0, 0)
    {
      PutPair(a, off, end, es[i].start, es[i].size, EntriesBytes(es[..i]));
      EntriesSnoc(es, i);
      end := end + 16;
    }
    assert es[..|es|] == es;
    PutPair(a, off, end, 0, 0, EntriesBytes(es));
    end := end + 16;
  }

  /** One entry behind those already written. */
  method PutPair(a: array<byte>, off: nat, end: nat, x: nat, y: nat, ghost entries: seq<byte>)
    requires end + 16 <= a.Length && end == off + |entries| && Has(a[..], off, entries)
    modifies a
    ensures Has(a[..], off, entries + (Be64(x) + Be64(y)))
    ensures OnlyIn(old(a[..]), a[..], end, end + 16, 0, 0)
  {
    hide Be64;
    Put(a, end, Be64(x));
    ghost var b := a[..];
    HasKept(old(a[..]), b, end, end + 8, 0, 0, off, entries);
    Put(a, end + 8, Be64(y));
    HasKept(b, a[..], end + 8, end + 16, 0, 0, off, entries);
    HasKept(b, a[..], end + 8, end + 16, 0, 0, end, Be64(x));
    HasConcat(a[..], end, Be64(x), Be64(y));
    HasConcat(a[..], off, entries, Be64(x) + Be64(y));
  }


  /** The five header words, written into a header that is already in place. */
  method PutHeaderWords(a: array<byte>, header: seq<byte>, total: nat, structOffset: nat, stringsOffset: nat,
                        stringsSize: nat, structSize: nat)
    requires 40 <= |header| <= a.Length && Has(a[..], 0, header)
    modifies a
    ensures Has(a[..], 4, Be32(total)) && Has(a[..], 8, Be32(structOffset)) && Has(a[..], 12, Be32(stringsOffset))
    ensures Has(a[..], 16, header[16..32])
    ensures Has(a[..], 32, Be32(stringsSize)) && Has(a[..], 36, Be32(structSize))
    ensures OnlyIn(old(a[..]), a[..], 4, 16, 32, 40)
  {
    ghost var b0 := a[..];
    assert header == header[..16] + header[16..32] + header[32..];
    HasConcat(b0, 0, header[..16] + header[16..32], header[32..]);
    HasConcat(b0, 0, header[..16], header[16..32]);
    PutWord(a, 8, structOffset);
    ghost var b1 := a[..];
    HasKept(b0, b1, 8, 12, 0, 0, 16, header[16..32]);
    PutWord(a, 36, structSize);
    ghost var b2 := a[..];
    HasKept(b1, b2, 36, 40, 0, 0, 16, header[16..32]);
    HasKept(b1, b2, 36, 40, 0, 0, 8, Be32(structOffset));
    PutWord(a, 12, stringsOffset);
    ghost var b3 := a[..];
    HasKept(b2, b3, 12, 16, 0, 0, 16, header[16..32]);
    HasKept(b2, b3, 12, 16, 0, 0, 8, Be32(structOffset));
    HasKept(b2, b3, 12, 16, 0, 0, 36, Be32(structSize));
    PutWord(a, 32, stringsSize);
    ghost var b4 := a[..];
    HasKept(b3, b4, 32, 36, 0, 0, 16, header[16..32]);
    HasKept(b3, b4, 32, 36, 0, 0, 8, Be32(structOffset));
    HasKept(b3, b4, 32, 36, 0, 0, 12, Be32(stringsOffset));
    HasKept(b3, b4, 32, 36, 0, 0, 36, Be32(structSize));
    PutWord(a, 4, total);
    ghost var b5 := a[..];
    HasKept(b4, b5, 4, 8, 0, 0, 16, header[16..32]);
    HasKept(b4, b5, 4, 8, 0, 0, 8, Be32(structOffset));
    HasKept(b4, b5, 4, 8, 0, 0, 12, Be32(stringsOffset));
    HasKept(b4, b5, 4, 8, 0, 0, 32, Be32(stringsSize));
    HasKept(b4, b5, 4, 8, 0, 0, 36, Be32(structSize));
  }

  /** The header, the reserve map and the end token, before any node is written. */
  method FlattenFront(t: Tree, a: array<byte>, ghost total: nat) returns (structStart: nat, stringsStart: nat, end: nat)
    requires total == FlatSize(t) <= a.Length && |t.header| >= 40 && total < TWO32
    modifies a
    ensures structStart == StructOffset(t) && stringsStart == StringsOffset(t) && end == total
    ensures Has(a[..], 0, t.header) && Has(a[..], |t.header|, EntriesBytes(t.reserveMap) + TERMINATOR)
    ensures Has(a[..], stringsStart - 4, Be32(TOKEN_END))
    ensures OnlyIn(old(a[..]), a[..], 0, total, 0, 0)
  {
    hide EntriesBytes, Be32, NodeSize, StringsSize, Uint32, Has, OnlyIn;
    ghost var b0 := a[..];
    Put(a, 0, t.header);
    ghost var b1 := a[..];
    structStart := FlattenReserveMap(t.reserveMap, a, |t.header|);
    ghost var b2, entries := a[..], EntriesBytes(t.reserveMap) + TERMINATOR;
    HasKept(b1, b2, |t.header|, structStart, 0, 0, 0, t.header);
    Uint32Zero();
    var structSize, stringsSize := FlatNodeSize(t.root, 0, 0, 0, 0);
    PutWord(a, structStart + structSize, TOKEN_END);
    FrontKept(b0, b1, b2, a[..], t.header, entries, structStart + structSize, total);
    stringsStart := structStart + structSize + 4;
    end := stringsStart + stringsSize;
  }

  lemma FrontKept(b0: seq<byte>, b1: seq<byte>, b2: seq<byte>, b3: seq<byte>, header: seq<byte>, entries: seq<byte>,
                  at: nat, total: nat)
    requires |header| + |entries| <= at <= at + 4 <= total
    requires OnlyIn(b0, b1, 0, |header|, 0, 0) && OnlyIn(b1, b2, |header|, |header| + |entries|, 0, 0)
    requires OnlyIn(b2, b3, at, at + 4, 0, 0) && Has(b2, 0, header) && Has(b2, |header|, entries)
    ensures Has(b3, 0, header) && Has(b3, |header|, entries) && OnlyIn(b0, b3, 0, total, 0, 0)
  {
    hide Has;
    HasKept(b2, b3, at, at + 4, 0, 0, 0, header);
    HasKept(b2, b3, at, at + 4, 0, 0, |header|, entries);
  }

  /** `dt_flatten` */
  method Flatten(t: Tree, a: array<byte>)
    requires FlatSize(t) <= a.Length && FlatSize(t) < TWO32 && |t.header| >= 40
    modifies a
    ensures FlatAt(a[..], t)
    ensures OnlyIn(old(a[..]), a[..], 0, FlatSize(t), 0, 0)
  {
    var structStart, stringsStart, end := FlattenFront(t, a, FlatSize(t));
    ghost var b3, entries := a[..], EntriesBytes(t.reserveMap) + TERMINATOR;
    ghost var cs := Chunks(Tokens(t.root), 0);
    FlattenRoot(t.root, a, structStart, stringsStart, end);
    NodesWritten(b3, a[..], t.header, entries, structStart, stringsStart, end);
    FinishHeader(a, t.header, entries, cs, structStart, stringsStart, end);
  }

  method FinishHeader(a: array<byte>, header: seq<byte>, ghost entries: seq<byte>, ghost cs: seq<Chunk>,
                      structStart: nat, stringsStart: nat, end: nat)
    requires 40 <= |header| && structStart == |header| + |entries| && structStart + 4 <= stringsStart <= end <= a.Length
    requires Has(a[..], 0, header) && Has(a[..], |header|, entries) && Has(a[..], stringsStart - 4, Be32(TOKEN_END))
    requires StreamAt(a[..], structStart, cs, stringsStart)
    modifies a
    ensures LaidOut(a[..], header, entries, cs, structStart, stringsStart, end)
    ensures OnlyIn(old(a[..]), a[..], 4, 16, 32, 40)
  {
    PutHeaderWords(a, header, end, structStart, stringsStart, end - stringsStart, stringsStart - 4 - structStart);
    HeaderWritten(old(a[..]), a[..], header, entries, cs, structStart, stringsStart, end);
  }

  method FlattenRoot(n: Node, a: array<byte>, structStart: nat, stringsStart: nat, end: nat)
    requires structStart + NodeSize(n) + 4 == stringsStart && stringsStart + StringsSize(n) == end <= a.Length
    modifies a
    ensures StreamAt(a[..], structStart, Chunks(Tokens(n), 0), stringsStart)
    ensures OnlyIn(old(a[..]), a[..], structStart, stringsStart - 4, stringsStart, end)
  {
    var w := new Writer(a, structStart, stringsStart);
    ghost var m0 := w.Now();
    w.FlattenNode(n);
    StreamWritten(m0, w.Now(), n);
  }

  lemma NodesWritten(b3: seq<byte>, b4: seq<byte>, header: seq<byte>, entries: seq<byte>, structStart: nat,
                     stringsStart: nat, end: nat)
    requires structStart == |header| + |entries| && structStart <= stringsStart - 4 && stringsStart <= end
    requires OnlyIn(b3, b4, structStart, stringsStart - 4, stringsStart, end)
    requires Has(b3, 0, header) && Has(b3, |header|, entries) && Has(b3, stringsStart - 4, Be32(TOKEN_END))
    ensures Has(b4, 0, header) && Has(b4, |header|, entries) && Has(b4, stringsStart - 4, Be32(TOKEN_END))
  {
    HasKept(b3, b4, structStart, stringsStart - 4, stringsStart, end, 0, header);
    HasKept(b3, b4, structStart, stringsStart - 4, stringsStart, end, |header|, entries);
    HasKept(b3, b4, structStart, stringsStart - 4, stringsStart, end, stringsStart - 4, Be32(TOKEN_END));
  }

  /** The magic number and what a header has behind its 40 bytes stay as they are copied. */
  lemma HeaderEnds(b4: seq<byte>, b5: seq<byte>, header: seq<byte>)
    requires 40 <= |header| && Has(b4, 0, header) && OnlyIn(b4, b5, 4, 16, 32, 40)
    ensures Has(b5, 0, header[..4]) && Has(b5, 40, header[40..])
  {
    var middle := header[4..40];
    assert header == header[..4] + middle + header[40..];
    HasConcat(b4, 0, header[..4] + middle, header[40..]);
    HasConcat(b4, 0, header[..4], middle);
    HasKept(b4, b5, 4, 16, 32, 40, 0, header[..4]);
    HasKept(b4, b5, 4, 16, 32, 40, 40, header[40..]);
  }

  lemma HeaderWritten(b4: seq<byte>, b5: seq<byte>, header: seq<byte>, entries: seq<byte>, cs: seq<Chunk>,
                      structStart: nat, stringsStart: nat, end: nat)
    requires 40 <= |header| && structStart == |header| + |entries| && structStart + 4 <= stringsStart <= end <= |b4|
    requires Has(b4, 0, header) && Has(b4, |header|, entries) && Has(b4, stringsStart - 4, Be32(TOKEN_END))
    requires StreamAt(b4, structStart, cs, stringsStart)
    requires OnlyIn(b4, b5, 4, 16, 32, 40)
    requires Has(b5, 4, Be32(end)) && Has(b5, 8, Be32(structStart)) && Has(b5, 12, Be32(stringsStart))
    requires Has(b5, 16, header[16..32])
    requires Has(b5, 32, Be32(end - stringsStart)) && Has(b5, 36, Be32(stringsStart - 4 - structStart))
    ensures LaidOut(b5, header, entries, cs, structStart, stringsStart, end)
  {
    HeaderEnds(b4, b5, header);
    HasKept(b4, b5, 4, 16, 32, 40, |header|, entries);
    HasKept(b4, b5, 4, 16, 32, 40, stringsStart - 4, Be32(TOKEN_END));
    StreamAbove(b4, b5, structStart, cs, stringsStart);
  }

  lemma StreamWritten(m0: Moment, m: Moment, n: Node)
    requires Consistent(m) && Emits(m0, m, Tokens(n))
    requires m0.done == [] && m0.dstruct == m0.start && m0.dstrings == m0.strings
    ensures StreamAt(m.bytes, m.start, Chunks(Tokens(n), 0), m.strings)
    ensures OnlyIn(m0.bytes, m.bytes, m0.start, m0.start + NodeSize(n), m0.strings, m0.strings + StringsSize(n))
  {
    TokensSize(n);
    assert [] + Chunks(Tokens(n), 0) == Chunks(Tokens(n), 0);
  }

  /** Writing in front of a stream does not change it. */
  lemma {:induction false} StreamAbove(a: seq<byte>, b: seq<byte>, off: nat, cs: seq<Chunk>, strings: nat)
    requires StreamAt(a, off, cs, strings) && OnlyIn(a, b, 4, 16, 32, 40) && 40 <= off <= strings
    ensures StreamAt(b, off, cs, strings)
  {
    if cs != [] {
      var rest, c := cs[..|cs| - 1], cs[|cs| - 1];
      StreamAbove(a, b, off, rest, strings);
      HasKept(a, b, 4, 16, 32, 40, off + Size(rest), c.body);
      HasKept(a, b, 4, 16, 32, 40, strings + TextSize(rest), c.text);
    }
  }
}

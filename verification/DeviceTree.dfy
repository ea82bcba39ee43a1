/**
 Device trees, the sizes of their flattened form, and what it means for a blob to hold one.
 */
module DeviceTree {
  import opened Bytes
  import opened Streams

  const TOKEN_BEGIN_NODE := 1
  const TOKEN_END_NODE := 2
  const TOKEN_PROPERTY := 3
  const TOKEN_END := 9

  /** The characters of a C string, without the terminating 0. */
  type CString = s: seq<byte> | 0 !in s

  datatype Property = Property(name: CString, data: seq<byte>)
  datatype Node = Node(name: CString, properties: seq<Property>, children: seq<Node>)
  datatype Entry = Entry(start: nat, size: nat)

  /** `header` is everything before the first component, kept as it is. */
  datatype Tree = Tree(header: seq<byte>, reserveMap: seq<Entry>, root: Node)

  // ----- Sizes -----

  function PropertySize(p: Property): nat {
    12 + Align4(|p.data|)
  }

  function PropertiesSize(ps: seq<Property>): nat {
    if ps == [] then 0 else PropertiesSize(ps[..|ps| - 1]) + PropertySize(ps[|ps| - 1])
  }

  function NamesSize(ps: seq<Property>): nat {
    if ps == [] then 0 else NamesSize(ps[..|ps| - 1]) + |ps[|ps| - 1].name| + 1
  }

  /** The begin token and the node name. */
  function HeadSize(n: Node): nat {
    4 + Align4(|n.name| + 1)
  }

  function NodeSize(n: Node): (s: nat)
    ensures s >= HeadSize(n) + 4
    decreases n, 1
  {
    HeadSize(n) + PropertiesSize(n.properties) + NodesSize(n.children) + 4
  }

  function NodesSize(ns: seq<Node>): nat
    decreases ns, 0
  {
    if ns == [] then 0 else NodesSize(ns[..|ns| - 1]) + NodeSize(ns[|ns| - 1])
  }

  /** What a node and everything below it add to the strings block. */
  function StringsSize(n: Node): nat
    decreases n, 1
  {
    NamesSize(n.properties) + AllStringsSize(n.children)
  }

  function AllStringsSize(ns: seq<Node>): nat
    decreases ns, 0
  {
    if ns == [] then 0 else AllStringsSize(ns[..|ns| - 1]) + StringsSize(ns[|ns| - 1])
  }

  function FlatSize(t: Tree): nat {
    |t.header| + 16 * (|t.reserveMap| + 1) + NodeSize(t.root) + 4 + StringsSize(t.root)
  }

  // ----- The structure block as a stream of tokens -----

  datatype Token = Begin(name: CString) | Prop(p: Property) | End

  function Tokens(n: Node): seq<Token>
    decreases n, 1
  {
    [Begin(n.name)] + PropTokens(n.properties) + AllTokens(n.children) + [End]
  }

  function PropTokens(ps: seq<Property>): seq<Token> {
    if ps == [] then [] else PropTokens(ps[..|ps| - 1]) + [Prop(ps[|ps| - 1])]
  }

  function AllTokens(ns: seq<Node>): seq<Token>
    decreases ns, 0
  {
    if ns == [] then [] else AllTokens(ns[..|ns| - 1]) + Tokens(ns[|ns| - 1])
  }

  /** What a token takes in the structure block. */
  function TokenSize(t: Token): nat {
    match t
    case Begin(name) => 4 + Align4(|name| + 1)
    case Prop(p) => PropertySize(p)
    case End => 4
  }

  /** What a token takes in the strings block. */
  function TokenStrings(t: Token): nat {
    if t.Prop? then |t.p.name| + 1 else 0
  }

  /** The bytes of a token in the structure block, up to its padding. */
  function TokenBytes(t: Token, names: nat): (s: seq<byte>)
    ensures |s| <= TokenSize(t)
  {
    match t
    case Begin(name) => Be32(TOKEN_BEGIN_NODE) + (name + [0])
    case Prop(p) => Be32(TOKEN_PROPERTY) + Be32(|p.data|) + Be32(names) + p.data
    case End => Be32(TOKEN_END_NODE)
  }

  /** The bytes of a token in the strings block. */
  function TokenName(t: Token): seq<byte> {
    if t.Prop? then t.p.name + [0] else []
  }

  /** A token whose property name, if any, goes to offset `names` of the strings block. */
  function ChunkOf(t: Token, names: nat): (c: Chunk)
    ensures c.size == TokenSize(t) && |c.text| == TokenStrings(t) && |c.body| <= c.size
  {
    Chunk(TokenSize(t), TokenBytes(t, names), TokenName(t))
  }

  // ----- Sizes of streams are the sizes the counting pass computes -----

  function StreamSize(ts: seq<Token>): nat {
    if ts == [] then 0 else StreamSize(ts[..|ts| - 1]) + TokenSize(ts[|ts| - 1])
  }

  function StreamStrings(ts: seq<Token>): nat {
    if ts == [] then 0 else StreamStrings(ts[..|ts| - 1]) + TokenStrings(ts[|ts| - 1])
  }

  /** The chunks these tokens make, with property names from offset `names` on. */
  function Chunks(ts: seq<Token>, names: nat): seq<Chunk> {
    if ts == [] then [] else
      var rest := ts[..|ts| - 1];
      Chunks(rest, names) + [ChunkOf(ts[|ts| - 1], names + StreamStrings(rest))]
  }

  lemma ChunksOne(t: Token, names: nat)
    ensures Chunks([t], names) == [ChunkOf(t, names)]
  {
    assert [t][..0] == [];
  }

  lemma ChunksSnoc(ts: seq<Token>, t: Token, names: nat)
    ensures Chunks(ts + [t], names) == Chunks(ts, names) + [ChunkOf(t, names + StreamStrings(ts))]
  {
    hide ChunkOf;
    var us := ts + [t];
    assert us[..|us| - 1] == ts && us[|us| - 1] == t;
  }

  lemma ChunksStep(a: seq<Token>, rest: seq<Token>, t: Token, names: nat, later: nat)
    requires later == names + StreamStrings(a)
    requires Chunks(a + rest, names) == Chunks(a, names) + Chunks(rest, later)
    ensures Chunks(a + (rest + [t]), names) == Chunks(a, names) + Chunks(rest + [t], later)
  {
    Associative(a, rest, [t]);
    StreamConcat(a, rest);
    ChunksSnoc(a + rest, t, names);
    ChunksSnoc(rest, t, later);
    hide *;
    var ca, cr, c := Chunks(a, names), Chunks(rest, later), [ChunkOf(t, later + StreamStrings(rest))];
    Associative(ca, cr, c);
  }

  lemma {:induction false} ChunksConcat(a: seq<Token>, b: seq<Token>, names: nat)
    ensures Chunks(a + b, names) == Chunks(a, names) + Chunks(b, names + StreamStrings(a))
  {
    if b == [] {
      assert a + b == a;
    } else {
      var rest, t := b[..|b| - 1], b[|b| - 1];
      assert b == rest + [t];
      ChunksConcat(a, rest, names);
      ChunksStep(a, rest, t, names, names + StreamStrings(a));
    }
  }

  lemma {:induction false} ChunksSize(ts: seq<Token>, names: nat)
    ensures |Chunks(ts, names)| == |ts|
    ensures Size(Chunks(ts, names)) == StreamSize(ts) && TextSize(Chunks(ts, names)) == StreamStrings(ts)
  {
    if ts != [] {
      var rest := ts[..|ts| - 1];
      ChunksSize(rest, names);
      Snoc(Chunks(rest, names), ChunkOf(ts[|ts| - 1], names + StreamStrings(rest)));
    }
  }

  lemma {:induction false} StreamConcat(a: seq<Token>, b: seq<Token>)
    ensures StreamSize(a + b) == StreamSize(a) + StreamSize(b)
    ensures StreamStrings(a + b) == StreamStrings(a) + StreamStrings(b)
  {
    if b == [] {
      assert a + b == a;
    } else {
      StreamConcat(a, b[..|b| - 1]);
      assert (a + b)[..|a + b| - 1] == a + b[..|b| - 1];
    }
  }

  lemma StreamOne(t: Token)
    ensures StreamSize([t]) == TokenSize(t) && StreamStrings([t]) == TokenStrings(t)
  {
    assert [t][..0] == [];
  }

  lemma {:induction false} PropTokensSize(ps: seq<Property>)
    ensures StreamSize(PropTokens(ps)) == PropertiesSize(ps)
    ensures StreamStrings(PropTokens(ps)) == NamesSize(ps)
  {
    if ps != [] {
      PropTokensSize(ps[..|ps| - 1]);
      StreamOne(Prop(ps[|ps| - 1]));
      StreamConcat(PropTokens(ps[..|ps| - 1]), [Prop(ps[|ps| - 1])]);
    }
  }

  lemma {:induction false} TokensSize(n: Node)
    ensures StreamSize(Tokens(n)) == NodeSize(n)
    ensures StreamStrings(Tokens(n)) == StringsSize(n)
    decreases n, 1
  {
    var ps, ns := PropTokens(n.properties), AllTokens(n.children);
    PropTokensSize(n.properties);
    AllTokensSize(n.children);
    StreamOne(Begin(n.name));
    StreamOne(End);
    StreamConcat([Begin(n.name)], ps);
    StreamConcat([Begin(n.name)] + ps, ns);
    StreamConcat([Begin(n.name)] + ps + ns, [End]);
  }

  lemma {:induction false} AllTokensSize(ns: seq<Node>)
    ensures StreamSize(AllTokens(ns)) == NodesSize(ns)
    ensures StreamStrings(AllTokens(ns)) == AllStringsSize(ns)
    decreases ns, 0
  {
    if ns != [] {
      AllTokensSize(ns[..|ns| - 1]);
      TokensSize(ns[|ns| - 1]);
      StreamConcat(AllTokens(ns[..|ns| - 1]), Tokens(ns[|ns| - 1]));
    }
  }
}

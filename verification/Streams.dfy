/**
 A stream of chunks laid out in two blocks of one buffer: bodies behind each other in the
 first block, each padded to its size, and texts behind each other in the second.
 */
module Streams {
  import opened Bytes

  datatype Chunk = Chunk(size: nat, body: seq<byte>, text: seq<byte>)

  function Size(cs: seq<Chunk>): nat {
    if cs == [] then 0 else Size(cs[..|cs| - 1]) + cs[|cs| - 1].size
  }

  function TextSize(cs: seq<Chunk>): nat {
    if cs == [] then 0 else TextSize(cs[..|cs| - 1]) + |cs[|cs| - 1].text|
  }

  ghost predicate ChunkAt(b: seq<byte>, off: nat, c: Chunk, text: nat) {
    |c.body| <= c.size && Has(b, off, c.body) && Has(b, text, c.text)
  }

  ghost predicate StreamAt(b: seq<byte>, off: nat, cs: seq<Chunk>, strings: nat) {
    cs != [] ==>
      var rest := cs[..|cs| - 1];
      && StreamAt(b, off, rest, strings)
      && ChunkAt(b, off + Size(rest), cs[|cs| - 1], strings + TextSize(rest))
  }

  lemma Associative<T>(a: seq<T>, b: seq<T>, c: seq<T>)
    ensures (a + b) + c == a + (b + c)
  {
  }

  /** Writing past a stream does not change it. */
  lemma {:induction false} StreamKept(a: seq<byte>, b: seq<byte>, s0: nat, s1: nat, t0: nat, t1: nat,
                                      off: nat, cs: seq<Chunk>, strings: nat)
    requires StreamAt(a, off, cs, strings) && OnlyIn(a, b, s0, s1, t0, t1)
    requires off + Size(cs) <= s0 <= s1 <= strings && strings + TextSize(cs) <= t0 <= t1
    ensures StreamAt(b, off, cs, strings)
  {
    if cs != [] {
      var rest, c := cs[..|cs| - 1], cs[|cs| - 1];
      StreamKept(a, b, s0, s1, t0, t1, off, rest, strings);
      HasKept(a, b, s0, s1, t0, t1, off + Size(rest), c.body);
      HasKept(a, b, s0, s1, t0, t1, strings + TextSize(rest), c.text);
    }
  }

  lemma Snoc(cs: seq<Chunk>, c: Chunk)
    ensures Size(cs + [c]) == Size(cs) + c.size && TextSize(cs + [c]) == TextSize(cs) + |c.text|
  {
    assert (cs + [c])[..|cs|] == cs;
  }

  /** A chunk written right behind a stream lengthens it. */
  lemma StreamGrows(a: seq<byte>, b: seq<byte>, off: nat, cs: seq<Chunk>, c: Chunk, strings: nat, s: nat, u: nat)
    requires StreamAt(a, off, cs, strings)
    requires s == off + Size(cs) && u == strings + TextSize(cs) && s + c.size <= strings
    requires OnlyIn(a, b, s, s + c.size, u, u + |c.text|) && ChunkAt(b, s, c, u)
    ensures StreamAt(b, off, cs + [c], strings)
  {
    StreamKept(a, b, s, s + c.size, u, u + |c.text|, off, cs, strings);
    assert (cs + [c])[..|cs|] == cs;
  }

  /** The chunks are found where the sizes of their predecessors put them. */
  lemma {:induction false} ChunkInStream(b: seq<byte>, off: nat, cs: seq<Chunk>, strings: nat, k: nat)
    requires StreamAt(b, off, cs, strings) && k < |cs|
    ensures ChunkAt(b, off + Size(cs[..k]), cs[k], strings + TextSize(cs[..k]))
  {
    var n := |cs| - 1;
    if k < n {
      ChunkInStream(b, off, cs[..n], strings, k);
      assert cs[..n][..k] == cs[..k];
    }
  }
}

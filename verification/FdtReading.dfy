/**
 Whatever the reader returns is there: the tokens of the tree that it has loaded, one behind the
 other from the offset that the header names, in any blob at all.
 */
module FdtReading {
  import opened Bytes
  import opened DeviceTree
  import opened FdtReader
  import opened FdtFormat

  /** A name that ends at a zero byte or with the blob. */
  ghost predicate NameThere(b: seq<byte>, at: nat, name: seq<byte>) {
    if at > |b| then name == []
    else at + |name| <= |b| && b[at..at + |name|] == name && (at + |name| == |b| || b[at + |name|] == 0)
  }

  /** One token of the structure block. The reader takes any token but the start of a node for the end of one. */
  ghost predicate TokenThere(b: seq<byte>, at: nat, t: Token)
    requires |b| >= 40
  {
    match t
    case Begin(name) =>
      at + 4 <= |b| && Big(b, at, 4) == 1 && Has(b, at + 4, name + [0])
    case Prop(p) =>
      && at + 12 <= |b| && Big(b, at, 4) == 3 && Big(b, at + 4, 4) == |p.data| && Has(b, at + 12, p.data)
      && NameThere(b, (Big(b, at + 8, 4) + Big(b, 12, 4)) % 0x1_0000_0000, p.name)
    case End =>
      at + 4 <= |b| && Big(b, at, 4) != 1
  }

  ghost predicate AllThere(b: seq<byte>, off: nat, ts: seq<Token>)
    requires |b| >= 40
  {
    forall i :: 0 <= i < |ts| ==> TokenThere(b, off + StreamSize(ts[..i]), ts[i])
  }

  // ----- One token -----

  lemma {:induction false} StringThere(b: seq<byte>, off: nat)
    requires StringFrom(b, off).Found?
    ensures Has(b, off, StringFrom(b, off).value + [0])
    decreases |b| - off
  {
    if b[off] != 0 {
      StringThere(b, off + 1);
      var rest := StringFrom(b, off + 1).value + [0];
      assert b[off..off + 1 + |rest|] == [b[off]] + b[off + 1..off + 1 + |rest|];
      assert StringFrom(b, off).value + [0] == [b[off]] + rest;
    }
  }

  lemma {:induction false} NameIsThere(b: seq<byte>, off: nat)
    ensures NameThere(b, off, NameAt(b, off))
    decreases |b| - off
  {
    if off < |b| && b[off] != 0 {
      NameIsThere(b, off + 1);
      var rest := NameAt(b, off + 1);
      assert b[off..off + 1 + |rest|] == [b[off]] + b[off + 1..off + 1 + |rest|];
    }
  }

  lemma BeginThere(b: seq<byte>, off: nat)
    requires |b| >= 40 && NodeName(b, off).Found?
    ensures var p := NodeName(b, off);
            TokenThere(b, off, Begin(p.value)) && p.size == TokenSize(Begin(p.value))
  {
    hide StringFrom, Big, Word, Has;
    WordIsBig(b, off);
    StringThere(b, off + 4);
  }

  lemma PropertyThere(b: seq<byte>, off: nat)
    requires |b| >= 40 && NextProperty(b, off).Found?
    ensures var p := NextProperty(b, off);
            TokenThere(b, off, Prop(p.value)) && p.size == TokenSize(Prop(p.value))
  {
    hide Big, Word, NameAt, NameThere;
    WordIsBig(b, off);
    WordIsBig(b, off + 4);
    WordIsBig(b, off + 8);
    WordIsBig(b, 12);
    NameIsThere(b, (Word(b, off + 8) + Word(b, 12)) % TWO32);
  }

  lemma EndThere(b: seq<byte>, off: nat)
    requires |b| >= 40 && NodeFrom(b, off).Stop?
    ensures TokenThere(b, off, End)
  {
    hide Big, Word, StringFrom, PropertiesFrom;
    WordIsBig(b, off);
  }

  // ----- Tokens behind each other -----

  lemma OneThere(b: seq<byte>, off: nat, t: Token)
    requires |b| >= 40 && TokenThere(b, off, t)
    ensures AllThere(b, off, [t]) && StreamSize([t]) == TokenSize(t)
  {
    hide TokenThere, TokenSize;
    assert [t][..0] == [];
  }

  lemma ThereAt(b: seq<byte>, off: nat, ts: seq<Token>, i: nat)
    requires |b| >= 40 && AllThere(b, off, ts) && i < |ts|
    ensures TokenThere(b, off + StreamSize(ts[..i]), ts[i])
  {
    hide TokenThere, StreamSize;
  }

  lemma BothAt(b: seq<byte>, off: nat, ts: seq<Token>, us: seq<Token>, i: nat)
    requires |b| >= 40 && AllThere(b, off, ts) && AllThere(b, off + StreamSize(ts), us) && i < |ts + us|
    ensures TokenThere(b, off + StreamSize((ts + us)[..i]), (ts + us)[i])
  {
    hide *;
    if i < |ts| {
      assert (ts + us)[..i] == ts[..i];
      ThereAt(b, off, ts, i);
    } else {
      var k := i - |ts|;
      assert (ts + us)[..i] == ts + us[..k];
      StreamConcat(ts, us[..k]);
      ThereAt(b, off + StreamSize(ts), us, k);
    }
  }

  lemma BothThere(b: seq<byte>, off: nat, ts: seq<Token>, us: seq<Token>)
    requires |b| >= 40 && AllThere(b, off, ts) && AllThere(b, off + StreamSize(ts), us)
    ensures AllThere(b, off, ts + us) && StreamSize(ts + us) == StreamSize(ts) + StreamSize(us)
  {
    StreamConcat(ts, us);
    forall i | 0 <= i < |ts + us| ensures TokenThere(b, off + StreamSize((ts + us)[..i]), (ts + us)[i]) {
      BothAt(b, off, ts, us, i);
    }
    hide TokenThere, StreamSize;
  }

  lemma {:induction false} PropTokensFirst(p: Property, ps: seq<Property>)
    ensures PropTokens([p] + ps) == [Prop(p)] + PropTokens(ps)
  {
    var all := [p] + ps;
    if ps == [] {
      assert all[..0] == [] && PropTokens([]) == [];
    } else {
      PropTokensFirst(p, ps[..|ps| - 1]);
      assert all[..|all| - 1] == [p] + ps[..|ps| - 1];
    }
  }

  lemma {:induction false} AllTokensFirst(n: Node, ns: seq<Node>)
    ensures AllTokens([n] + ns) == Tokens(n) + AllTokens(ns)
  {
    hide Tokens;
    var all := [n] + ns;
    if ns == [] {
      assert all[..0] == [] && AllTokens([]) == [];
    } else {
      AllTokensFirst(n, ns[..|ns| - 1]);
      assert all[..|all| - 1] == [n] + ns[..|ns| - 1];
    }
  }

  lemma {:induction false} PropertiesThere(b: seq<byte>, off: nat)
    requires |b| >= 40 && PropertiesFrom(b, off).Scanned?
    ensures var s := PropertiesFrom(b, off);
            AllThere(b, off, PropTokens(s.values)) && s.end == off + StreamSize(PropTokens(s.values))
    decreases Left(b, off)
  {
    hide NextProperty, AllThere, PropTokens;
    var s := PropertiesFrom(b, off);
    var p := NextProperty(b, off);
    if p.Found? {
      PropertyThere(b, off);
      PropertiesThere(b, off + p.size);
      var rest := PropertiesFrom(b, off + p.size);
      hide PropertiesFrom, StreamSize;
      OneThere(b, off, Prop(p.value));
      BothThere(b, off, [Prop(p.value)], PropTokens(rest.values));
      PropTokensFirst(p.value, rest.values);
    } else {
      NothingThere(b, off);
    }
  }

  lemma NothingThere(b: seq<byte>, off: nat)
    requires |b| >= 40
    ensures AllThere(b, off, []) && PropTokens([]) == [] && AllTokens([]) == [] && StreamSize([]) == 0
  {
  }

  /** A node that has been read is there, with everything in it. */
  lemma {:induction false} NodeThere(b: seq<byte>, off: nat)
    requires |b| >= 40 && NodeFrom(b, off).Found?
    ensures var p := NodeFrom(b, off);
            AllThere(b, off, Tokens(p.value)) && p.size == StreamSize(Tokens(p.value))
    decreases Left(b, off), 0
  {
    hide AllThere, PropTokens, AllTokens, StreamSize, NodeName, PropertiesFrom, TokenThere;
    var p, begin := NodeFrom(b, off), NodeName(b, off);
    var props := PropertiesFrom(b, off + begin.size);
    var nodes := NodesFrom(b, props.end);
    BeginThere(b, off);
    OneThere(b, off, Begin(begin.value));
    PropertiesThere(b, off + begin.size);
    NodesThere(b, props.end);
    OneThere(b, nodes.end, End);
    hide NodeFrom, NodesFrom;
    var ts, us, vs := [Begin(begin.value)], PropTokens(props.values), AllTokens(nodes.values);
    BothThere(b, off, ts, us);
    BothThere(b, off, ts + us, vs);
    BothThere(b, off, ts + us + vs, [End]);
  }

  lemma {:induction false} NodesThere(b: seq<byte>, off: nat)
    requires |b| >= 40 && NodesFrom(b, off).Scanned?
    ensures var s := NodesFrom(b, off);
            && AllThere(b, off, AllTokens(s.values)) && s.end == off + StreamSize(AllTokens(s.values))
            && TokenThere(b, s.end, End)
    decreases Left(b, off), 1
  {
    hide AllThere, AllTokens, StreamSize, NodeFrom, TokenThere;
    var n := NodeFrom(b, off);
    if n.Found? {
      NodeThere(b, off);
      NodesThere(b, off + n.size);
      var rest := NodesFrom(b, off + n.size);
      hide NodesFrom;
      BothThere(b, off, Tokens(n.value), AllTokens(rest.values));
      AllTokensFirst(n.value, rest.values);
    } else {
      NothingThere(b, off);
      EndThere(b, off);
    }
  }

  // ----- The memory reservation block -----

  /** Entries of some size, up to the first that has none. */
  ghost predicate EntriesThere(b: seq<byte>, off: nat, es: seq<Entry>) {
    && off + 16 * (|es| + 1) <= |b| && Big(b, off + 16 * |es| + 8, 8) == 0
    && forall i :: 0 <= i < |es| ==>
         es[i].size > 0 && Big(b, off + 16 * i, 8) == es[i].start && Big(b, off + 16 * i + 8, 8) == es[i].size
  }

  lemma {:induction false} EntriesAreThere(b: seq<byte>, off: nat)
    requires EntriesFrom(b, off).Scanned?
    ensures EntriesThere(b, off, EntriesFrom(b, off).values)
    decreases Left(b, off)
  {
    hide Big, Word64;
    Word64IsBig(b, off);
    Word64IsBig(b, off + 8);
    if Word64(b, off + 8) != 0 {
      EntriesAreThere(b, off + 16);
      FirstEntry(b, off, EntriesFrom(b, off + 16).values);
    }
  }

  lemma FirstEntry(b: seq<byte>, off: nat, es: seq<Entry>)
    requires EntriesThere(b, off + 16, es) && Big(b, off + 8, 8) > 0
    ensures EntriesThere(b, off, [Entry(Big(b, off, 8), Big(b, off + 8, 8))] + es)
  {
    hide Big;
    var all := [Entry(Big(b, off, 8), Big(b, off + 8, 8))] + es;
    forall i | 0 <= i < |all|
      ensures all[i].size > 0 && Big(b, off + 16 * i, 8) == all[i].start && Big(b, off + 16 * i + 8, 8) == all[i].size
    {
      if i > 0 {
        assert all[i] == es[i - 1] && off + 16 + 16 * (i - 1) == off + 16 * i;
      }
    }
    assert off + 16 + 16 * |es| == off + 16 * |all|;
  }

  // ----- The whole blob -----

  /** All tokens of a node, each where the sizes of those before it put it. */
  ghost predicate RootedAt(b: seq<byte>, at: nat, n: Node)
    requires |b| >= 40
  {
    forall i :: 0 <= i < |Tokens(n)| ==> TokenThere(b, at + PlaceOf(Tokens(n), i), Tokens(n)[i])
  }

  /**
   What has been loaded, in any blob: the header ends where the first of the three blocks starts,
   and the reserve map and all tokens of the tree stand where the header says.
   */
  lemma LoadedIsThere(b: seq<byte>)
    requires Load(b).Loaded?
    ensures |b| >= 40
    ensures var l, tree, strings, reserved := Load(b), Big(b, 8, 4), Big(b, 12, 4), Big(b, 16, 4);
            && l.headerSize in {tree, strings, reserved}
            && l.headerSize <= tree && l.headerSize <= strings && l.headerSize <= reserved
            && EntriesThere(b, reserved, l.reserveMap)
            && tree + 4 <= |b|
            && (l.root.NoRoot? <==> Big(b, tree, 4) != 1)
            && (l.root.Root? ==> RootedAt(b, tree, l.root.node))
  {
    hide Big, Word, NodeFrom, EntriesFrom, Tokens, TokenThere, EntriesThere, RootedAt;
    WordIsBig(b, 8);
    WordIsBig(b, 12);
    WordIsBig(b, 16);
    EntriesAreThere(b, Word(b, 16));
    RootWord(b, Word(b, 8));
    if NodeFrom(b, Word(b, 8)).Found? {
      RootThere(b, Word(b, 8));
    }
  }

  lemma RootThere(b: seq<byte>, tree: nat)
    requires |b| >= 40 && NodeFrom(b, tree).Found?
    ensures RootedAt(b, tree, NodeFrom(b, tree).value)
  {
    hide *;
    NodeThere(b, tree);
    TokensByPlace(b, tree, NodeFrom(b, tree).value);
  }

  lemma TokensByPlace(b: seq<byte>, tree: nat, n: Node)
    requires |b| >= 40 && AllThere(b, tree, Tokens(n))
    ensures RootedAt(b, tree, n)
  {
    hide Tokens, TokenThere, PlaceOf, StreamSize, AllThere;
    forall i | 0 <= i < |Tokens(n)| ensures TokenThere(b, tree + PlaceOf(Tokens(n), i), Tokens(n)[i]) {
      ThereAt(b, tree, Tokens(n), i);
      PlaceIs(Tokens(n), i);
    }
  }

  lemma RootWord(b: seq<byte>, tree: nat)
    requires |b| >= 40 && !NodeFrom(b, tree).Fault?
    ensures tree + 4 <= |b| && (NodeFrom(b, tree).Stop? <==> Big(b, tree, 4) != 1)
  {
    hide Big, Word, StringFrom, PropertiesFrom, NodesFrom;
    WordIsBig(b, tree);
  }
}

/**
 The base64 decoder (section 4 of RFC 4648): padding and line breaks are skipped, and six bits at
 a time are put together to bytes.
 */
module Base64 {
  import opened Bytes

  // ----- The alphabet -----

  /** `isalnum` and the two signs */
  predicate InAlphabet(c: byte) {
    'a' as int <= c <= 'z' as int || 'A' as int <= c <= 'Z' as int || '0' as int <= c <= '9' as int ||
    c == '+' as int || c == '/' as int
  }

  /** '=', line feed and carriage return */
  predicate Skipped(c: byte) {
    c == '=' as int || c == 0xA || c == 0xD
  }

  /** `cd64`, run by run: the characters from '+' to 'z', with '$' for those that are not in the alphabet. */
  const SIGNS := "|$$$}"
  const DIGITS := "rstuvwxyz{"
  const CAPITALS := ">?@ABCDEFGHIJKLMNOPQRSTUVW"
  const SMALL := "XYZ[\\]^_`abcdefghijklmnopq"
  const CD64 := SIGNS + DIGITS + "$$$$$$$" + CAPITALS + "$$$$$$" + SMALL

  /** The six bits that a character stands for, as the decoder looks them up. */
  function Lookup(c: byte): int
    requires 43 <= c < 43 + |CD64|
  {
    CD64[c - 43] as int - 62
  }

  /** The character for six bits, as the standard has it. */
  function Letter(v: nat): (c: byte)
    requires v < 64
    ensures InAlphabet(c)
  {
    if v < 26 then 'A' as int + v
    else if v < 52 then 'a' as int + v - 26
    else if v < 62 then '0' as int + v - 52
    else if v == 62 then '+' as int
    else '/' as int
  }

  predicate Consecutive(s: string, first: char) {
    forall i :: 0 <= i < |s| ==> s[i] as int == first as int + i
  }

  lemma RunsAre()
    ensures |SIGNS| == 5 && SIGNS[0] == '|' && SIGNS[4] == '}'
    ensures |DIGITS| == 10 && Consecutive(DIGITS, 'r')
    ensures |CAPITALS| == 26 && Consecutive(CAPITALS, '>')
    ensures |SMALL| == 26 && Consecutive(SMALL, 'X')
  {
  }

  lemma TableIs(c: byte)
    requires InAlphabet(c)
    ensures 43 <= c < 43 + |CD64|
    ensures Lookup(c) ==
            if c == 43 then 62 else if c == 47 then 63
            else if c <= 57 then c + 4 else if c <= 90 then c - 65 else c - 71
  {
    RunsAre();
    hide SIGNS, DIGITS, CAPITALS, SMALL;
  }

  /** The table is the inverse of the standard's alphabet. */
  lemma LookupLetter(v: nat)
    requires v < 64
    ensures 43 <= Letter(v) < 43 + |CD64| && Lookup(Letter(v)) == v
  {
    TableIs(Letter(v));
  }

  lemma LookupRange(c: byte)
    requires InAlphabet(c)
    ensures 43 <= c < 43 + |CD64| && 0 <= Lookup(c) < 64
  {
    TableIs(c);
  }

  // ----- What the characters of a text say -----

  /** The text without padding and line breaks. */
  function Strip(text: seq<byte>): (r: seq<byte>)
    ensures |r| <= |text|
  {
    if text == [] then [] else (if Skipped(text[0]) then [] else [text[0]]) + Strip(text[1..])
  }

  predicate AllLetters(s: seq<byte>) {
    forall i :: 0 <= i < |s| ==> InAlphabet(s[i])
  }

  /** The number that letters are in base 64. */
  function Number64(s: seq<byte>): int
    requires AllLetters(s)
  {
    if s == [] then 0 else
      var n := |s| - 1;
      LookupRange(s[n]);
      Number64(s[..n]) * 64 + Lookup(s[n])
  }

  /** The number that bytes are in base 256. */
  function Number256(s: seq<byte>): nat {
    if s == [] then 0 else Number256(s[..|s| - 1]) * 256 + s[|s| - 1]
  }

  lemma More64(s: seq<byte>, c: byte)
    requires AllLetters(s) && InAlphabet(c)
    ensures AllLetters(s + [c]) && 43 <= c < 43 + |CD64| && 0 <= Lookup(c) < 64
    ensures Number64(s + [c]) == Number64(s) * 64 + Lookup(c)
  {
    hide InAlphabet, Lookup, CD64;
    LookupRange(c);
    assert (s + [c])[..|s|] == s;
  }

  lemma More256(s: seq<byte>, b: byte)
    ensures Number256([]) == 0 && Number256(s + [b]) == Number256(s) * 256 + b
  {
    assert (s + [b])[..|s|] == s;
  }

  lemma {:induction false} BytesUnique(a: seq<byte>, b: seq<byte>)
    requires |a| == |b| && Number256(a) == Number256(b)
    ensures a == b
  {
    if a != [] {
      var n := |a| - 1;
      BytesUnique(a[..n], b[..n]);
      assert a == a[..n] + [a[n]] && b == b[..n] + [b[n]];
    }
  }

  // ----- The reader of characters -----

  /** `struct buffer_descriptor` */
  class Descriptor {
    const input: seq<byte>
    var index: nat

    ghost predicate Valid()
      reads this
    {
      index <= |input|
    }

    /** What is left to be read. */
    ghost function Left(): seq<byte>
      reads this
      requires Valid()
    {
      Strip(input[index..])
    }

    constructor (input: seq<byte>)
      ensures Valid() && this.input == input && Left() == Strip(input)
    {
      this.input, index := input, 0;
      new;
      assert input[0..] == input;
    }

    /** `get_next_char`: 0 at the end, -1 for a character that is not in the alphabet. */
    method NextChar() returns (c: int)
      requires Valid()
      modifies this
      ensures Valid()
      ensures old(Left()) == [] ==> c == 0 && Left() == []
      ensures old(Left()) != [] ==>
                && Left() == old(Left())[1..]
                && c == if InAlphabet(old(Left())[0]) then old(Left())[0] as int else -1
    {
      hide InAlphabet;
      while index < |input|
        invariant Valid() && Left() == old(Left())
      {
        var b := input[index];
        StripStep(input[index..]);
        assert input[index..][1..] == input[index + 1..];
        index := index + 1;
        if !Skipped(b) {
          return if InAlphabet(b) then b as int else -1;
        }
      }
      StripEmpty();
      return 0;
    }
  }

  lemma StripStep(text: seq<byte>)
    requires text != []
    ensures Skipped(text[0]) ==> Strip(text) == Strip(text[1..])
    ensures !Skipped(text[0]) ==> Strip(text) == [text[0]] + Strip(text[1..])
  {
  }

  lemma StripEmpty()
    ensures Strip([]) == []
  {
  }

  // ----- The decoder -----

  /** 2^k for the numbers of bits that can be left over. */
  function Power(k: nat): nat {
    if k == 0 then 1 else if k == 2 then 4 else if k == 4 then 16 else 64
  }

  /** The bits of the letters so far: the bytes that have been put out, and the low bits of `interim`. */
  ghost predicate InStep(seen: seq<byte>, output: seq<byte>, interim: nat, bitCount: nat) {
    && AllLetters(seen) && (bitCount == 0 || bitCount == 2 || bitCount == 4 || bitCount == 6)
    && 6 * |seen| == 8 * |output| + bitCount
    && Number64(seen) == Number256(output) * Power(bitCount) + interim % Power(bitCount)
  }

  lemma BitsKept(n: int, out: nat, interim: nat, v: nat)
    requires v < 64 && n == out * Power(0) + interim % Power(0)
    ensures n * 64 + v == out * Power(6) + (interim * 64 + v) % Power(6)
  {
  }

  /** The byte that is put out when v comes in and `remaining` of its bits are wanted. */
  function OutByte(interim: nat, v: nat, remaining: nat): byte
    requires 2 <= remaining <= 6
  {
    (interim * Shift(remaining) + v / Shift(6 - remaining)) % 256
  }

  /** That byte, by the number of bits that are left over from the letters before. */
  function NextByte(interim: nat, v: nat, bitCount: nat): byte
    requires 2 <= bitCount <= 6
  {
    OutByte(interim, v, 8 - bitCount)
  }

  /** 1 << k */
  function Shift(k: nat): nat
    requires k <= 6
    ensures Shift(k) > 0
  {
    if k == 0 then 1 else if k == 1 then 2 else if k == 2 then 4 else if k == 3 then 8
    else if k == 4 then 16 else if k == 5 then 32 else 64
  }

  lemma ByteOut(n: int, out: nat, interim: nat, v: nat, bitCount: nat)
    requires v < 64 && (bitCount == 2 || bitCount == 4 || bitCount == 6)
    requires n == out * Power(bitCount) + interim % Power(bitCount)
    ensures n * 64 + v == (out * 256 + NextByte(interim, v, bitCount)) * Power(bitCount - 2) + v % Power(bitCount - 2)
  {
    if bitCount == 2 {
      ByteOf2(interim, v);
    } else if bitCount == 4 {
      ByteOf4(interim, v);
    } else {
      ByteOf6(interim, v);
    }
  }

  lemma ByteOf2(interim: nat, v: nat)
    requires v < 64
    ensures NextByte(interim, v, 2) == interim % 4 * 64 + v
  {
    NextByteOf2(interim, v);
    var q, low := interim / 4, interim % 4;
    assert interim == q * 4 + low;
    LowByte(q, low * 64 + v);
  }

  lemma NextByteOf2(interim: nat, v: nat)
    ensures NextByte(interim, v, 2) == (interim * 64 + v) % 256
  {
    assert Shift(6) == 64 && Shift(0) == 1;
  }

  lemma LowByte(q: nat, low: nat)
    requires low < 256
    ensures (q * 256 + low) % 256 == low
  {
  }

  lemma ByteOf4(interim: nat, v: nat)
    requires v < 64
    ensures NextByte(interim, v, 4) == interim % 16 * 16 + v / 4
  {
    NextByteOf4(interim, v);
    var q, low := interim / 16, interim % 16;
    assert interim == q * 16 + low;
    LowByte(q, low * 16 + v / 4);
  }

  lemma NextByteOf4(interim: nat, v: nat)
    ensures NextByte(interim, v, 4) == (interim * 16 + v / 4) % 256
  {
    assert Shift(4) == 16 && Shift(2) == 4;
  }

  lemma ByteOf6(interim: nat, v: nat)
    requires v < 64
    ensures NextByte(interim, v, 6) == interim % 64 * 4 + v / 16
  {
    NextByteOf6(interim, v);
    var q, low := interim / 64, interim % 64;
    assert interim == q * 64 + low;
    LowByte(q, low * 4 + v / 16);
  }

  lemma NextByteOf6(interim: nat, v: nat)
    ensures NextByte(interim, v, 6) == (interim * 4 + v / 16) % 256
  {
    assert Shift(2) == 4 && Shift(4) == 16;
  }

  lemma LetterKept(seen: seq<byte>, output: seq<byte>, interim: nat, c: byte)
    requires InStep(seen, output, interim, 0) && InAlphabet(c)
    ensures 43 <= c < 43 + |CD64| && 0 <= Lookup(c) < 64
    ensures InStep(seen + [c], output, interim * 64 + Lookup(c), 6)
  {
    hide InAlphabet, Lookup, CD64, Number64, Number256;
    More64(seen, c);
    BitsKept(Number64(seen), Number256(output), interim, Lookup(c));
  }

  lemma LetterOut(seen: seq<byte>, output: seq<byte>, interim: nat, bitCount: nat, c: byte)
    requires InStep(seen, output, interim, bitCount) && bitCount >= 2 && InAlphabet(c)
    ensures 43 <= c < 43 + |CD64| && 0 <= Lookup(c) < 64
    ensures InStep(seen + [c], output + [NextByte(interim, Lookup(c), bitCount)], Lookup(c), bitCount - 2)
  {
    hide InAlphabet, Lookup, CD64, Number64, Number256, Power, NextByte;
    More64(seen, c);
    More256(output, NextByte(interim, Lookup(c), bitCount));
    ByteOut(Number64(seen), Number256(output), interim, Lookup(c), bitCount);
  }

  // ----- The standard's encoding -----

  /** Three bytes as four letters. */
  function Group(a: byte, b: byte, c: byte): (s: seq<byte>)
    ensures |s| == 4
  {
    [Letter(a / 4), Letter(a % 4 * 16 + b / 16), Letter(b % 16 * 4 + c / 64), Letter(c % 64)]
  }

  function Groups(x: seq<byte>): (s: seq<byte>)
    requires |x| % 3 == 0
    ensures 3 * |s| == 4 * |x|
  {
    if x == [] then [] else
      var n := |x| - 3;
      Groups(x[..n]) + Group(x[n], x[n + 1], x[n + 2])
  }

  /** The letters for the bytes behind the last whole group. */
  function Tail(x: seq<byte>): seq<byte>
    requires |x| < 3
  {
    if |x| == 0 then []
    else if |x| == 1 then [Letter(x[0] / 4), Letter(x[0] % 4 * 16)]
    else [Letter(x[0] / 4), Letter(x[0] % 4 * 16 + x[1] / 16), Letter(x[1] % 16 * 4)]
  }

  function Letters(x: seq<byte>): seq<byte> {
    var n := |x| - |x| % 3;
    Groups(x[..n]) + Tail(x[n..])
  }

  /** The encoding of x, padded to whole groups. */
  function Encode(x: seq<byte>): seq<byte> {
    Letters(x) + (if |x| % 3 == 1 then ['=' as int, '=' as int] else if |x| % 3 == 2 then ['=' as int] else [])
  }

  lemma MoreLetter(s: seq<byte>, v: nat)
    requires AllLetters(s) && v < 64
    ensures AllLetters(s + [Letter(v)]) && Number64(s + [Letter(v)]) == Number64(s) * 64 + v
  {
    hide InAlphabet, Lookup, CD64, Number64, Letter;
    More64(s, Letter(v));
    LookupLetter(v);
  }

  lemma MoreGroup(s: seq<byte>, a: byte, b: byte, c: byte)
    requires AllLetters(s)
    ensures AllLetters(s + Group(a, b, c))
    ensures Number64(s + Group(a, b, c)) == Number64(s) * 0x100_0000 + a as int * 0x1_0000 + b as int * 0x100 + c as int
  {
    hide InAlphabet, Lookup, CD64, Number64, Letter, AllLetters;
    var p, q, r, t := Letter(a / 4), Letter(a % 4 * 16 + b / 16), Letter(b % 16 * 4 + c / 64), Letter(c % 64);
    MoreLetter(s, a / 4);
    MoreLetter(s + [p], a % 4 * 16 + b / 16);
    MoreLetter(s + [p] + [q], b % 16 * 4 + c / 64);
    MoreLetter(s + [p] + [q] + [r], c % 64);
    assert s + [p] + [q] + [r] + [t] == s + Group(a, b, c);
  }

  lemma ThreeMore(x: seq<byte>, a: byte, b: byte, c: byte)
    ensures Number256(x + [a, b, c]) == Number256(x) * 0x100_0000 + a as int * 0x1_0000 + b as int * 0x100 + c as int
  {
    hide Number256;
    More256(x, a);
    More256(x + [a], b);
    More256(x + [a] + [b], c);
    assert x + [a, b, c] == x + [a] + [b] + [c];
  }

  lemma {:induction false} GroupsNumber(x: seq<byte>)
    requires |x| % 3 == 0
    ensures AllLetters(Groups(x)) && Number64(Groups(x)) == Number256(x)
  {
    hide InAlphabet, Lookup, CD64, Number64, Number256, Group, AllLetters;
    EmptyNumbers();
    if x == [] {
      NoLetters();
    } else {
      var n := |x| - 3;
      GroupsNumber(x[..n]);
      MoreGroup(Groups(x[..n]), x[n], x[n + 1], x[n + 2]);
      ThreeMore(x[..n], x[n], x[n + 1], x[n + 2]);
      assert x == x[..n] + [x[n], x[n + 1], x[n + 2]];
    }
  }

  lemma NoLetters()
    ensures AllLetters([])
  {
  }

  lemma TailOne(s: seq<byte>, y: seq<byte>, a: byte)
    requires AllLetters(s) && Number64(s) == Number256(y)
    ensures var t := s + [Letter(a / 4), Letter(a % 4 * 16)];
            AllLetters(t) && Number64(t) == Number256(y + [a]) * 16
  {
    hide InAlphabet, Lookup, CD64, Number64, Number256, Letter, AllLetters;
    var p, q := Letter(a / 4), Letter(a % 4 * 16);
    MoreLetter(s, a / 4);
    MoreLetter(s + [p], a % 4 * 16);
    More256(y, a);
    assert s + [p, q] == s + [p] + [q];
  }

  lemma TailTwo(s: seq<byte>, y: seq<byte>, a: byte, b: byte)
    requires AllLetters(s) && Number64(s) == Number256(y)
    ensures var t := s + [Letter(a / 4), Letter(a % 4 * 16 + b / 16), Letter(b % 16 * 4)];
            AllLetters(t) && Number64(t) == Number256(y + [a, b]) * 4
  {
    hide InAlphabet, Lookup, CD64, Number64, Number256, Letter, AllLetters;
    var p, q, r := Letter(a / 4), Letter(a % 4 * 16 + b / 16), Letter(b % 16 * 4);
    MoreLetter(s, a / 4);
    MoreLetter(s + [p], a % 4 * 16 + b / 16);
    MoreLetter(s + [p] + [q], b % 16 * 4);
    More256(y, a);
    More256(y + [a], b);
    assert s + [p, q, r] == s + [p] + [q] + [r] && y + [a, b] == y + [a] + [b];
  }

  lemma TailNumber(s: seq<byte>, y: seq<byte>, x: seq<byte>)
    requires AllLetters(s) && Number64(s) == Number256(y) && |x| < 3
    ensures AllLetters(s + Tail(x)) && |Tail(x)| == (if |x| == 0 then 0 else |x| + 1)
    ensures Number64(s + Tail(x)) == Number256(y + x) * (if |x| == 1 then 16 else if |x| == 2 then 4 else 1)
  {
    hide InAlphabet, Lookup, CD64, Number64, Number256, Letter, AllLetters;
    if |x| == 0 {
      assert s + Tail(x) == s && y + x == y;
    } else if |x| == 1 {
      TailOne(s, y, x[0]);
      assert x == [x[0]];
    } else {
      TailTwo(s, y, x[0], x[1]);
      assert x == [x[0], x[1]];
    }
  }

  /** The letters of x are x as a number, with as many zero bits behind it as there is room for. */
  lemma LettersNumber(x: seq<byte>)
    ensures AllLetters(Letters(x))
    ensures var spare := 6 * |Letters(x)| - 8 * |x|;
            spare == (if |x| % 3 == 1 then 4 else if |x| % 3 == 2 then 2 else 0) &&
            Number64(Letters(x)) == Number256(x) * Power(spare)
  {
    hide InAlphabet, Lookup, CD64, Number64, Number256, Letter, AllLetters, Groups, Tail;
    var k := |x| % 3;
    var n := |x| - k;
    assert n % 3 == 0;
    GroupsNumber(x[..n]);
    TailNumber(Groups(x[..n]), x[..n], x[n..]);
    assert x == x[..n] + x[n..];
    assert 3 * |Groups(x[..n])| == 4 * n;
  }

  lemma {:induction false} StripConcat(a: seq<byte>, b: seq<byte>)
    ensures Strip(a + b) == Strip(a) + Strip(b)
    decreases |a|
  {
    hide Strip, Skipped;
    if a == [] {
      StripEmpty();
      assert a + b == b;
    } else {
      StripStep(a);
      StripStep(a + b);
      assert (a + b)[1..] == a[1..] + b;
      StripConcat(a[1..], b);
      assert [a[0]] + (Strip(a[1..]) + Strip(b)) == [a[0]] + Strip(a[1..]) + Strip(b);
    }
  }

  lemma {:induction false} StripLetters(s: seq<byte>)
    requires AllLetters(s)
    ensures Strip(s) == s
    decreases |s|
  {
    if s == [] {
      StripEmpty();
    } else {
      assert InAlphabet(s[0]) && forall i :: 0 <= i < |s[1..]| ==> InAlphabet(s[1..][i]);
      assert !Skipped(s[0]);
      hide InAlphabet, Skipped, Strip;
      StripStep(s);
      StripLetters(s[1..]);
    }
  }

  lemma {:induction false} StripAway(s: seq<byte>)
    requires forall i :: 0 <= i < |s| ==> Skipped(s[i])
    ensures Strip(s) == []
    decreases |s|
  {
    if s != [] {
      StripAway(s[1..]);
    }
  }

  /** An encoding says nothing but its letters; so does any text that is made of it with line breaks. */
  lemma StripEncode(x: seq<byte>)
    ensures Strip(Encode(x)) == Letters(x)
  {
    hide InAlphabet, Lookup, CD64, Number64, Number256, Letter, Strip, Letters;
    LettersNumber(x);
    StripLetters(Letters(x));
    var pad: seq<byte> := if |x| % 3 == 1 then ['=' as int, '=' as int] else if |x| % 3 == 2 then ['=' as int] else [];
    StripAway(pad);
    StripConcat(Letters(x), pad);
    assert Letters(x) + [] == Letters(x);
  }

  /** Line feeds, carriage returns and signs of equality say nothing; any other character says itself. */
  lemma StripOne(c: byte)
    ensures Strip([c]) == if c == 10 || c == 13 || c == 61 then [] else [c]
  {
    assert [c][1..] == [];
  }

  lemma {:induction false} StripBreaks(s: seq<byte>)
    requires forall c :: c in s ==> c in {10, 13, 61}
    ensures Strip(s) == []
  {
    if s != [] {
      assert s[0] in s && forall c :: c in s[1..] ==> c in s;
      StripBreaks(s[1..]);
    }
  }

  /** Wherever a line is broken, the text says the same. */
  lemma LineBreak(a: seq<byte>, b: seq<byte>, breaks: seq<byte>)
    requires forall c :: c in breaks ==> c in {10, 13, 61}
    ensures Strip(a + breaks + b) == Strip(a + b)
  {
    hide Strip, Skipped;
    StripBreaks(breaks);
    StripConcat(a + breaks, b);
    StripConcat(a, breaks);
    StripConcat(a, b);
    assert Strip(a) + [] == Strip(a);
  }

  /** Nothing but x can be decoded from the letters of x. */
  lemma OnlyDecoding(x: seq<byte>, output: seq<byte>, interim: nat, bitCount: nat)
    requires InStep(Letters(x), output, interim, bitCount)
    ensures output == x
  {
    hide InAlphabet, Lookup, CD64, Number64, Number256, Letter, AllLetters, Letters;
    LettersNumber(x);
    SameNumber(Number256(x), Number256(output), interim, bitCount);
    BytesUnique(x, output);
  }

  lemma SameNumber(a: nat, b: nat, interim: nat, k: nat)
    requires (k == 0 || k == 2 || k == 4) && a * Power(k) == b * Power(k) + interim % Power(k)
    ensures a == b
  {
  }

  // ----- The whole decoder -----

  /**
   `b64_decode`: with a character outside the alphabet nothing is decoded; otherwise the output
   is as many whole bytes as the letters have bits for, highest first.
   */
  method B64Decode(input: seq<byte>, output: array<byte>) returns (size: nat)
    requires 8 * output.Length >= 6 * |input|
    modifies output
    ensures !AllLetters(Strip(input)) ==> size == 0
    ensures AllLetters(Strip(input)) ==>
              size <= output.Length &&
              exists interim, bitCount :: InStep(Strip(input), output[..size], interim, bitCount)
    ensures forall x :: Strip(input) == Letters(x) ==> size <= output.Length && output[..size] == x
  {
    hide InAlphabet, Lookup, CD64, Strip, InStep, AllLetters, Letters, OutByte;
    var bd := new Descriptor(input);
    var interim: nat, bitCount: nat := 0, 0;
    size := 0;
    ghost var seen: seq<byte> := [];
    NothingSeen();
    assert output[..0] == [] && [] + Strip(input) == Strip(input);
    while true
      invariant bd.Valid() && bd.input == input && fresh(bd)
      invariant Strip(input) == seen + bd.Left() && size <= output.Length
      invariant InStep(seen, output[..size], interim, bitCount)
      decreases |bd.Left()|
    {
      ghost var left := bd.Left();
      var c := bd.NextChar();
      LetterRead(seen, left, c);
      if c < 0 {
        NoneIsBad();
        return 0;
      }
      if c == 0 {
        assert seen + [] == seen;
        break;
      }
      StepFacts(seen, output[..size], interim, bitCount);
      var v := TakeLookup(c);
      ghost var done := output[..size];
      if bitCount >= 2 {
        LetterOut(seen, done, interim, bitCount, c);
        var remaining := 8 - bitCount;
        output[size] := OutByte(interim, v, remaining);
        size := size + 1;
        assert output[..size] == done + [NextByte(interim, v, bitCount)];
        interim, bitCount := v, bitCount - 2;
      } else {
        LetterKept(seen, done, interim, c);
        interim, bitCount := interim * 64 + v, bitCount + 6;
      }
      seen := seen + [left[0]];
      assert seen + left[1..] == Strip(input);
    }
    LettersOf(seen, output[..size], interim, bitCount);
    forall x | seen == Letters(x) ensures output[..size] == x {
      OnlyDecoding(x, output[..size], interim, bitCount);
    }
  }

  lemma NoneIsBad()
    ensures forall x :: AllLetters(Letters(x))
  {
    hide AllLetters, Letters;
    forall x ensures AllLetters(Letters(x)) {
      LettersNumber(x);
    }
  }

  /** `cd64[v - 43] - 62` */
  function TakeLookup(c: int): (v: nat)
    requires 0 <= c < 256 && InAlphabet(c)
    ensures v < 64 && 43 <= c < 43 + |CD64| && v == Lookup(c)
  {
    LookupRange(c);
    Lookup(c)
  }

  /** What a character that has been read says about the text; all letters have codes above zero. */
  lemma LetterRead(seen: seq<byte>, left: seq<byte>, c: int)
    requires left == [] ==> c == 0
    requires left != [] ==> c == if InAlphabet(left[0]) then left[0] as int else -1
    ensures c < 0 ==> left != [] && !AllLetters(seen + left)
    ensures c == 0 ==> left == []
    ensures c > 0 ==> left != [] && c == left[0] as int && InAlphabet(left[0])
  {
    if left != [] && !InAlphabet(left[0]) {
      assert (seen + left)[|seen|] == left[0];
    }
  }

  lemma StepFacts(seen: seq<byte>, output: seq<byte>, interim: nat, bitCount: nat)
    requires InStep(seen, output, interim, bitCount)
    ensures bitCount <= 6 && (bitCount >= 2 || bitCount == 0) && 6 * |seen| == 8 * |output| + bitCount
  {
  }

  lemma LettersOf(seen: seq<byte>, output: seq<byte>, interim: nat, bitCount: nat)
    requires InStep(seen, output, interim, bitCount)
    ensures AllLetters(seen)
  {
  }

  lemma NothingSeen()
    ensures InStep([], [], 0, 0)
  {
    EmptyNumbers();
    hide InAlphabet, Lookup, CD64, Number64, Number256;
  }

  lemma EmptyNumbers()
    ensures Number64([]) == 0 && Number256([]) == 0
  {
  }
}

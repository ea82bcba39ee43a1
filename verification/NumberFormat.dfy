/**
 Numbers as `printk` prints them: sign, prefix, padding and digits in a field, and the numbers
 that it reads in its format strings.
 */
module NumberFormat {
  import opened Alignment
  import opened MachineInts

  const TWO64 := 0x1_0000_0000_0000_0000

  type Word = n: int | 0 <= n < TWO64

  /** The bits of `type`. */
  datatype Flags = Flags(zeropad: bool, sign: bool, plus: bool, space: bool, left: bool, special: bool, large: bool)

  // ----- Digits -----

  function DigitOf(d: nat, large: bool): (c: char)
    requires d < 36
    ensures DigitValue(c) == d
  {
    if d < 10 then '0' + d as char
    else if large then 'A' + (d - 10) as char
    else 'a' + (d - 10) as char
  }

  function DigitValue(c: char): int {
    if '0' <= c <= '9' then (c - '0') as int
    else if 'a' <= c <= 'z' then (c - 'a') as int + 10
    else if 'A' <= c <= 'Z' then (c - 'A') as int + 10
    else 0
  }

  /** The digits of n without leading zeros, highest first; none for zero. */
  function Significant(n: nat, base: nat, large: bool): string
    requires 2 <= base <= 36
    decreases n
  {
    if n == 0 then "" else
      QuotientIsLess(n, base);
      Significant(n / base, base, large) + [DigitOf(n % base, large)]
  }

  lemma QuotientIsLess(n: nat, base: nat)
    requires n > 0 && base >= 2
    ensures 0 <= n / base < n && 0 <= n % base < base && n == n / base * base + n % base
  {
  }

  function Digits(n: nat, base: nat, large: bool): (s: string)
    requires 2 <= base <= 36
    ensures s != ""
  {
    if n == 0 then "0" else Significant(n, base, large)
  }

  /** What a string of digits stands for. */
  function Value(s: string, base: nat): int {
    if s == "" then 0 else Value(s[..|s| - 1], base) * base + DigitValue(s[|s| - 1])
  }

  lemma ValueMore(s: string, c: char, base: nat)
    ensures Value(s + [c], base) == Value(s, base) * base + DigitValue(c)
  {
    assert (s + [c])[..|s|] == s;
  }

  lemma {:induction false} SignificantValue(n: nat, base: nat, large: bool)
    requires 2 <= base <= 36
    ensures Value(Significant(n, base, large), base) == n
    decreases n
  {
    if n > 0 {
      QuotientIsLess(n, base);
      SignificantValue(n / base, base, large);
      ValueMore(Significant(n / base, base, large), DigitOf(n % base, large), base);
    }
  }

  /** The digits of a number stand for it, and are as few as possible. */
  lemma DigitsValue(n: nat, base: nat, large: bool)
    requires 2 <= base <= 36
    ensures Value(Digits(n, base, large), base) == n
  {
    hide DigitOf, DigitValue;
    SignificantValue(n, base, large);
    if n == 0 {
      ValueMore("", '0', base);
      ZeroDigit();
      assert "" + ['0'] == "0";
    }
  }

  lemma ZeroDigit()
    ensures DigitValue('0') == 0
  {
  }

  function Repeat(c: char, n: int): (s: string)
    ensures |s| == if n > 0 then n else 0
    decreases if n > 0 then n else 0
  {
    if n <= 0 then "" else Repeat(c, n - 1) + [c]
  }

  lemma {:induction false} LeadingZeros(k: int, s: string, base: nat)
    ensures Value(Repeat('0', k) + s, base) == Value(s, base)
    decreases |s|, if k > 0 then k else 0
  {
    hide DigitValue;
    if s != "" {
      var n := |s| - 1;
      LeadingZeros(k, s[..n], base);
      ValueMore(Repeat('0', k) + s[..n], s[n], base);
      assert Repeat('0', k) + s == Repeat('0', k) + s[..n] + [s[n]];
    } else if k > 0 {
      LeadingZeros(k - 1, "", base);
      assert Repeat('0', k - 1) + "" == Repeat('0', k - 1) && Repeat('0', k) + "" == Repeat('0', k);
      ValueMore(Repeat('0', k - 1), '0', base);
      ZeroDigit();
    }
  }

  // ----- The field -----

  /** `-num` for a negative number, as a 64-bit word. */
  function Magnitude(inum: Word, flags: Flags): Word {
    if flags.sign && inum >= TWO64 / 2 then TWO64 - inum else inum
  }

  function SignOf(inum: Word, flags: Flags): string {
    if !flags.sign then ""
    else if inum >= TWO64 / 2 then "-"
    else if flags.plus then "+"
    else if flags.space then " "
    else ""
  }

  function PrefixOf(base: nat, flags: Flags): string {
    if flags.special && base == 16 then (if flags.large then "0X" else "0x")
    else if flags.special && base == 8 then "0"
    else ""
  }

  /** The digits with as many zeros in front as the precision asks for. */
  function Body(inum: Word, base: nat, precision: int, flags: Flags): string
    requires 2 <= base <= 36
  {
    var digits := Digits(Magnitude(inum, flags), base, flags.large);
    Repeat('0', precision - |digits|) + digits
  }

  /** A number in a field of at least `size` characters. */
  function Field(inum: Word, base: nat, size: int, precision: int, flags: Flags): string
    requires 2 <= base <= 36
  {
    Laid(SignOf(inum, flags) + PrefixOf(base, flags), Body(inum, base, precision, flags), size, flags)
  }

  /** What remains of the width is filled behind, between or in front. */
  function Laid(head: string, body: string, size: int, flags: Flags): string {
    var room := size - |head| - |body|;
    if flags.left then head + body + Repeat(' ', room)
    else if flags.zeropad then head + Repeat('0', room) + body
    else Repeat(' ', room) + head + body
  }

  // ----- `number` -----

  function Reversed(s: string): (r: string)
    ensures |r| == |s|
  {
    if s == "" then "" else [s[|s| - 1]] + Reversed(s[..|s| - 1])
  }

  lemma {:induction false} ReversedMore(s: string, c: char)
    ensures Reversed(s + [c]) == [c] + Reversed(s)
  {
    assert (s + [c])[..|s|] == s;
  }

  lemma WordBits(n: nat)
    requires n == 64
    ensures Pow2(n) == TWO64
  {
    hide Pow2;
    Pow2Bound(10);
    Pow2Sum(10, 10);
    Pow2Sum(20, 10);
    Pow2Sum(30, 30);
    Pow2Sum(60, 4);
    SixteenIs();
  }

  lemma SixteenIs()
    ensures Pow2(4) == 16
  {
    assert Pow2(4) == 2 * Pow2(3) == 4 * Pow2(2);
  }

  lemma HalfAtLeast(num: nat, base: nat, bits: nat)
    requires 0 < num < Pow2(bits) && base >= 2
    ensures bits > 0 && num / base < Pow2(bits - 1)
  {
    QuotientIsLess(num, base);
    HalfOf(num, base);
  }

  lemma HalfOf(num: nat, base: nat)
    requires base >= 2
    ensures num / base <= num / 2
  {
    var q := num / base;
    Euclid(num, base);
    assert q * base == q * 2 + q * (base - 2);
    Nonnegative(q, base - 2);
  }

  /** The digits of num, lowest first; 64 places are enough. */
  method FillDigits(num0: Word, base: nat, large: bool, tmp: array<char>) returns (i: nat)
    requires 2 <= base <= 36 && tmp.Length == 66
    modifies tmp
    ensures i <= 64 && Reversed(tmp[..i]) == Digits(num0, base, large)
  {
    hide Pow2, Reversed, DigitOf, Significant;
    var num: nat := num0;
    i := 0;
    NothingFilled(base, large);
    assert tmp[..0] == "";
    if num == 0 {
      tmp[i] := '0';
      i := i + 1;
      assert tmp[..1] == "" + ['0'];
      ReversedMore("", '0');
    } else {
      WordBits(64 - i);
      while num != 0
        invariant i <= 64 && num < Pow2(64 - i)
        invariant Significant(num0, base, large) == Significant(num, base, large) + Reversed(tmp[..i])
      {
        HalfAtLeast(num, base, 64 - i);
        QuotientIsLess(num, base);
        ghost var done := tmp[..i];
        OneDigit(num, base, large, Reversed(done));
        tmp[i] := DigitOf(num % base, large);
        i := i + 1;
        assert tmp[..i] == done + [DigitOf(num % base, large)];
        ReversedMore(done, DigitOf(num % base, large));
        num := num / base;
      }
    }
  }

  lemma NothingFilled(base: nat, large: bool)
    requires 2 <= base <= 36
    ensures Reversed("") == "" && Significant(0, base, large) == "" && Digits(0, base, large) == "0"
  {
  }

  lemma OneDigit(n: nat, base: nat, large: bool, rest: string)
    requires 2 <= base <= 36 && n > 0
    ensures 0 <= n % base < 36
    ensures Significant(n, base, large) + rest == Significant(n / base, base, large) +
            ([DigitOf(n % base, large)] + rest)
  {
    hide DigitOf;
    QuotientIsLess(n, base);
  }

  /** `while (size-- > 0) call_tx(c)` */
  method Pad(out0: string, c: char, size0: int) returns (out: string, size: int)
    ensures out == out0 + Repeat(c, size0)
    ensures size == (if size0 > 0 then 0 else size0) - 1
  {
    out, size := out0, size0;
    assert out0 + "" == out0;
    while size > 0
      invariant size <= size0 && (size0 > 0 ==> size >= 0) && (size0 <= 0 ==> size == size0)
      invariant out == out0 + Repeat(c, size0 - size)
    {
      assert out0 + Repeat(c, size0 - size) + [c] == out0 + Repeat(c, size0 - size + 1);
      out := out + [c];
      size := size - 1;
    }
    size := size - 1;
  }

  /** `while (i-- > 0) call_tx(tmp[i])` */
  method SendDigits(out0: string, tmp: array<char>, n: nat) returns (out: string)
    requires n <= tmp.Length
    ensures out == out0 + Reversed(tmp[..n])
  {
    var i: nat := n;
    out := out0;
    while i > 0
      invariant i <= n && out + Reversed(tmp[..i]) == out0 + Reversed(tmp[..n])
    {
      i := i - 1;
      assert tmp[..i + 1] == tmp[..i] + [tmp[i]];
      ReversedMore(tmp[..i], tmp[i]);
      assert out + [tmp[i]] + Reversed(tmp[..i]) == out + ([tmp[i]] + Reversed(tmp[..i]));
      out := out + [tmp[i]];
    }
    assert Reversed(tmp[..0]) == "" && out + "" == out;
  }

  /** The sign to be printed, and the number without it. */
  method TakeSign(inum: Word, flags: Flags) returns (sign: string, num: Word)
    ensures sign == SignOf(inum, flags) && num == Magnitude(inum, flags)
  {
    sign, num := "", inum;
    if flags.sign {
      if num >= TWO64 / 2 {
        sign := "-";
        num := (TWO64 - num) % TWO64;
      } else if flags.plus {
        sign := "+";
      } else if flags.space {
        sign := " ";
      }
    }
  }

  method TakePrefix(base: nat, flags: Flags) returns (prefix: string)
    ensures prefix == PrefixOf(base, flags)
  {
    prefix := "";
    if flags.special {
      if base == 8 {
        prefix := "0";
      } else if base == 16 {
        prefix := if flags.large then "0X" else "0x";
      }
    }
  }

  /** The stretches that are sent one after the other; of the three paddings at most one is not empty. */
  function Stretches(a: int, sign: string, prefix: string, pad: char, b: int, zeros: int, digits: string,
                     c: int): string {
    Repeat(' ', a) + sign + prefix + Repeat(pad, b) + Repeat('0', zeros) + digits + Repeat(' ', c)
  }

  lemma NoPadding(n: int)
    ensures n <= 0 ==> forall c :: Repeat(c, n) == ""
  {
  }

  lemma StretchesBehind(sign: string, prefix: string, pad: char, zeros: int, digits: string, a: int, b: int, c: int)
    requires a <= 0 && b <= 0
    ensures Stretches(a, sign, prefix, pad, b, zeros, digits, c) ==
            sign + prefix + (Repeat('0', zeros) + digits) + Repeat(' ', c)
  {
    NoPadding(a);
    NoPadding(b);
    hide Repeat;
    assert "" + sign + prefix == sign + prefix && sign + prefix + "" == sign + prefix;
    assert sign + prefix + Repeat('0', zeros) + digits == sign + prefix + (Repeat('0', zeros) + digits);
  }

  lemma StretchesBetween(sign: string, prefix: string, pad: char, zeros: int, digits: string, a: int, b: int, c: int)
    requires a <= 0 && c <= 0
    ensures Stretches(a, sign, prefix, pad, b, zeros, digits, c) ==
            sign + prefix + Repeat(pad, b) + (Repeat('0', zeros) + digits)
  {
    NoPadding(a);
    NoPadding(c);
    hide Repeat;
    var head := sign + prefix + Repeat(pad, b);
    assert "" + sign + prefix == sign + prefix;
    assert head + Repeat('0', zeros) + digits + "" == head + (Repeat('0', zeros) + digits);
  }

  lemma StretchesBefore(sign: string, prefix: string, pad: char, zeros: int, digits: string, a: int, b: int, c: int)
    requires b <= 0 && c <= 0
    ensures Stretches(a, sign, prefix, pad, b, zeros, digits, c) ==
            Repeat(' ', a) + (sign + prefix) + (Repeat('0', zeros) + digits)
  {
    NoPadding(b);
    NoPadding(c);
    hide Repeat;
    var head := Repeat(' ', a) + sign + prefix;
    assert head == Repeat(' ', a) + (sign + prefix) && head + "" == head;
    assert head + Repeat('0', zeros) + digits + "" == head + (Repeat('0', zeros) + digits);
  }

  lemma StretchesLaid(sign: string, prefix: string, digits: string, size: int, precision: int, flags: Flags, a: int,
                      b: int, c: int)
    requires var room := size - |sign| - |prefix| - (if |digits| > precision then |digits| else precision);
             && (if !flags.left && !flags.zeropad then a == room else a <= 0)
             && (if !flags.left && flags.zeropad then b == room else b <= 0)
             && (if flags.left then c == room else c <= 0)
    ensures Stretches(a, sign, prefix, if flags.zeropad then '0' else ' ', b, precision - |digits|, digits, c) ==
            Laid(sign + prefix, Repeat('0', precision - |digits|) + digits, size, flags)
  {
    hide Stretches, Repeat;
    var zeros := precision - |digits|;
    if flags.left {
      StretchesBehind(sign, prefix, if flags.zeropad then '0' else ' ', zeros, digits, a, b, c);
    } else if flags.zeropad {
      StretchesBetween(sign, prefix, '0', zeros, digits, a, b, c);
    } else {
      StretchesBefore(sign, prefix, ' ', zeros, digits, a, b, c);
    }
  }

  /** Sends everything, the width being what remains of it when sign, prefix and digits are taken off. */
  method Send(sign: string, prefix: string, tmp: array<char>, i: nat, precision: int, size0: int, flags: Flags)
    returns (out: string, ghost a: int, ghost b: int, ghost c: int)
    requires i <= tmp.Length
    ensures out == Stretches(a, sign, prefix, if flags.zeropad then '0' else ' ', b, precision - i,
            Reversed(tmp[..i]), c)
    ensures if !flags.left && !flags.zeropad then a == size0 else a <= 0
    ensures if !flags.left && flags.zeropad then b == size0 else b <= 0
    ensures if flags.left then c == size0 else c <= 0
  {
    hide Reversed, Repeat;
    var size := size0;
    out, a, b := "", 0, 0;
    NoPadding(0);
    if !flags.zeropad && !flags.left {
      a := size;
      out, size := Pad(out, ' ', size);
    }
    assert out == Repeat(' ', a);
    out := out + sign + prefix;
    if !flags.left {
      b := size;
      out, size := Pad(out, if flags.zeropad then '0' else ' ', size);
    }
    assert out == Repeat(' ', a) + sign + prefix + Repeat(if flags.zeropad then '0' else ' ', b);
    var left: int;
    out, left := Pad(out, '0', precision - i);
    out := SendDigits(out, tmp, i);
    c := size;
    out, size := Pad(out, ' ', size);
  }

  /** `number`: what is sent, and the count that is returned. */
  method Number(inum: Word, base: nat, size0: int, precision0: int, flags: Flags) returns (count: nat, out: string)
    ensures count == |out|
    ensures out == if 2 <= base <= 36 then Field(inum, base, size0, precision0, flags) else ""
  {
    hide *;
    if base < 2 || base > 36 {
      return 0, "";
    }
    var size, precision := size0, precision0;
    var sign, num := TakeSign(inum, flags);
    var prefix := TakePrefix(base, flags);
    size := size - |sign| - |prefix|;
    var tmp := new char[66];
    var i := FillDigits(num, base, flags.large, tmp);
    if i > precision {
      precision := i;
    }
    size := size - precision;
    ghost var a, b, c;
    out, a, b, c := Send(sign, prefix, tmp, i, precision, size, flags);
    count := |out|;
    ghost var digits := Reversed(tmp[..i]);
    StretchesSame(a, sign, prefix, if flags.zeropad then '0' else ' ', b, precision - i, precision0 - i, digits, c);
    StretchesLaid(sign, prefix, digits, size0, precision0, flags, a, b, c);
    FieldLaid(inum, base, size0, precision0, flags);
  }

  lemma StretchesSame(a: int, sign: string, prefix: string, pad: char, b: int, zeros: int, zeros': int,
                      digits: string, c: int)
    requires zeros == zeros' || (zeros <= 0 && zeros' <= 0)
    ensures Stretches(a, sign, prefix, pad, b, zeros, digits, c) ==
            Stretches(a, sign, prefix, pad, b, zeros', digits, c)
  {
    NoPadding(zeros);
    NoPadding(zeros');
    hide Repeat;
  }

  lemma FieldLaid(inum: Word, base: nat, size: int, precision: int, flags: Flags)
    requires 2 <= base <= 36
    ensures var digits := Digits(Magnitude(inum, flags), base, flags.large);
            Field(inum, base, size, precision, flags) ==
            Laid(SignOf(inum, flags) + PrefixOf(base, flags), Repeat('0', precision - |digits|) + digits, size, flags)
  {
    hide Laid, Repeat, Digits, SignOf, PrefixOf, Magnitude;
  }

  // ----- What a field says -----

  /** The count that is returned: the width, unless what is to be printed is longer. */
  lemma FieldLength(inum: Word, base: nat, size: int, precision: int, flags: Flags)
    requires 2 <= base <= 36
    ensures var digits := |Digits(Magnitude(inum, flags), base, flags.large)|;
            var least := |SignOf(inum, flags)| + |PrefixOf(base, flags)| +
              (if digits > precision then digits else precision);
            |Field(inum, base, size, precision, flags)| == if size > least then size else least
  {
    hide Digits, SignOf, PrefixOf, Magnitude, Repeat;
  }

  /** Behind padding, sign and prefix stand digits that have the magnitude of the number as their value. */
  lemma FieldValue(inum: Word, base: nat, size: int, precision: int, flags: Flags)
    returns (before: string, digits: string, after: string)
    requires 2 <= base <= 36
    ensures Field(inum, base, size, precision, flags) == before + digits + after
    ensures Value(digits, base) == Magnitude(inum, flags)
    ensures after == "" || after == Repeat(' ', |after|)
    ensures exists n :: before == Repeat(' ', n) + (SignOf(inum, flags) + PrefixOf(base, flags))
  {
    hide Digits, SignOf, PrefixOf, Magnitude, Repeat, Value;
    var m := Magnitude(inum, flags);
    var s := Digits(m, base, flags.large);
    var head, body := SignOf(inum, flags) + PrefixOf(base, flags), Body(inum, base, precision, flags);
    var room := size - |head| - |body|;
    DigitsValue(m, base, flags.large);
    LeadingZeros(precision - |s|, s, base);
    NoPadding(0);
    if flags.left {
      before, digits, after := head, body, Repeat(' ', room);
      NoPadding(room);
      assert before == Repeat(' ', 0) + head;
    } else if flags.zeropad {
      before, digits, after := head, Repeat('0', room) + body, "";
      LeadingZeros(room, body, base);
      assert before == Repeat(' ', 0) + head;
      assert head + Repeat('0', room) + body == head + (Repeat('0', room) + body) + "";
    } else {
      before, digits, after := Repeat(' ', room) + head, body, "";
      assert Repeat(' ', room) + head + body == Repeat(' ', room) + head + body + "";
    }
  }

  /** A 64-bit word as a two's complement number. */
  function Signed64(w: Word): int {
    if w < 0x8000_0000_0000_0000 then w else w - 0x1_0000_0000_0000_0000
  }

  /** A digit of the base, with letters of the size asked for. */
  predicate DigitIn(c: char, base: nat, large: bool) {
    && ('0' <= c <= '9' || (if large then 'A' <= c <= 'Z' else 'a' <= c <= 'z'))
    && DigitValue(c) < base
  }

  ghost predicate DigitsIn(s: string, base: nat, large: bool) {
    forall i :: 0 <= i < |s| ==> DigitIn(s[i], base, large)
  }

  lemma {:induction false} SignificantIn(n: nat, base: nat, large: bool)
    requires 2 <= base <= 36
    ensures DigitsIn(Significant(n, base, large), base, large)
    ensures n > 0 ==> Significant(n, base, large) != "" && Significant(n, base, large)[0] != '0'
    decreases n
  {
    if n > 0 {
      QuotientIsLess(n, base);
      SignificantIn(n / base, base, large);
      OneDigitIn(n % base, base, large);
      if n / base == 0 {
        assert Significant(n / base, base, large) == "" && n % base == n;
      }
    }
  }

  lemma OneDigitIn(d: nat, base: nat, large: bool)
    requires d < base <= 36
    ensures DigitIn(DigitOf(d, large), base, large) && (DigitOf(d, large) == '0' <==> d == 0)
  {
  }

  lemma {:induction false} ZerosIn(n: int, base: nat, large: bool)
    requires base >= 2
    ensures DigitsIn(Repeat('0', n), base, large)
    decreases if n > 0 then n else 0
  {
    if n > 0 {
      ZerosIn(n - 1, base, large);
    }
  }

  lemma DigitsInConcat(a: string, b: string, base: nat, large: bool)
    requires DigitsIn(a, base, large) && DigitsIn(b, base, large)
    ensures DigitsIn(a + b, base, large)
  {
    hide DigitIn;
  }

  /** The number that a field is about. */
  function Printed(inum: Word, flags: Flags): int {
    if flags.sign then Signed64(inum) else inum
  }

  /** Only a negative number has a minus; plus and blank are for the others, if they are asked for. */
  predicate SignTells(sign: string, x: int, flags: Flags) {
    && sign in {"", "-", "+", " "}
    && (sign == "-" <==> x < 0)
    && (sign == "+" <==> flags.sign && flags.plus && x >= 0)
    && (sign == " " <==> flags.sign && flags.space && !flags.plus && x >= 0)
  }

  predicate PrefixTells(prefix: string, base: nat, flags: Flags) {
    if flags.special && base == 8 then prefix == "0"
    else if flags.special && base == 16 then prefix == (if flags.large then ['0', 'X'] else ['0', 'x'])
    else prefix == ""
  }

  lemma SignIsTold(inum: Word, flags: Flags)
    ensures SignTells(SignOf(inum, flags), Printed(inum, flags), flags)
    ensures Magnitude(inum, flags) == if Printed(inum, flags) < 0 then -Printed(inum, flags) else Printed(inum, flags)
  {
  }

  lemma PrefixIsTold(base: nat, flags: Flags)
    ensures PrefixTells(PrefixOf(base, flags), base, flags)
  {
  }

  /** The digits in front of which the width is made up. */
  lemma BodyReads(inum: Word, base: nat, precision: int, flags: Flags)
    requires 2 <= base <= 36
    ensures var body := Body(inum, base, precision, flags);
            && DigitsIn(body, base, flags.large) && Value(body, base) == Magnitude(inum, flags)
            && |body| >= precision && body != ""
            && (|body| > precision && |body| > 1 ==> body[0] != '0')
  {
    hide SignOf, Magnitude, DigitOf, DigitValue, Significant, Value, Repeat;
    var m := Magnitude(inum, flags);
    var digits := Digits(m, base, flags.large);
    DigitsValue(m, base, flags.large);
    SignificantIn(m, base, flags.large);
    LeadingZeros(precision - |digits|, digits, base);
    ZerosIn(precision - |digits|, base, flags.large);
    if m == 0 {
      ZerosIn(1, base, flags.large);
      OneZero();
    }
    DigitsInConcat(Repeat('0', precision - |digits|), digits, base, flags.large);
    if precision <= |digits| {
      NoPadding(precision - |digits|);
      assert Repeat('0', precision - |digits|) == "";
    }
  }

  lemma OneZero()
    ensures Repeat('0', 1) == "0"
  {
    assert Repeat('0', 0) == "";
  }

  /**
   A field, read from left to right: blanks, sign, prefix, digits, blanks. Blanks make up the width, behind a number
   that is to stand left and in front of any other; so do zeros among the digits, if they are asked for instead.
   */
  lemma FieldReads(inum: Word, base: nat, size: int, precision: int, flags: Flags)
    returns (front: nat, sign: string, prefix: string, digits: string, behind: nat)
    requires 2 <= base <= 36
    ensures var field := Field(inum, base, size, precision, flags);
            && field == Repeat(' ', front) + sign + prefix + digits + Repeat(' ', behind)
            && (front > 0 ==> !flags.left && !flags.zeropad && |field| == size)
            && (behind > 0 ==> flags.left && |field| == size)
            && |field| >= size && |digits| >= precision && digits != ""
            && (digits[0] == '0' && |digits| > 1 && |digits| > precision ==>
                  flags.zeropad && !flags.left && |field| == size)
    ensures SignTells(sign, Printed(inum, flags), flags) && PrefixTells(prefix, base, flags)
    ensures DigitsIn(digits, base, flags.large)
    ensures Value(digits, base) == if Printed(inum, flags) < 0 then -Printed(inum, flags) else Printed(inum, flags)
  {
    hide Digits, SignOf, PrefixOf, Magnitude, Repeat, Value, Body, SignTells, PrefixTells, Printed, DigitsIn;
    sign, prefix := SignOf(inum, flags), PrefixOf(base, flags);
    var body := Body(inum, base, precision, flags);
    SignIsTold(inum, flags);
    PrefixIsTold(base, flags);
    BodyReads(inum, base, precision, flags);
    var room := size - |sign + prefix| - |body|;
    NoPadding(0);
    NoPadding(room);
    front, digits, behind := 0, body, 0;
    if flags.left {
      behind := if room > 0 then room else 0;
    } else if flags.zeropad {
      digits := Repeat('0', room) + body;
      LeadingZeros(room, body, base);
      ZerosIn(room, base, flags.large);
      DigitsInConcat(Repeat('0', room), body, base, flags.large);
    } else {
      front := if room > 0 then room else 0;
    }
    FieldParts(sign, prefix, body, size, flags, front, digits, behind);
  }

  lemma FieldParts(sign: string, prefix: string, body: string, size: int, flags: Flags, front: nat, digits: string,
                   behind: nat)
    requires var room := size - |sign + prefix| - |body|;
             && front == (if !flags.left && !flags.zeropad && room > 0 then room else 0)
             && behind == (if flags.left && room > 0 then room else 0)
             && digits == if flags.zeropad && !flags.left then Repeat('0', room) + body else body
    ensures Laid(sign + prefix, body, size, flags) == Repeat(' ', front) + sign + prefix + digits + Repeat(' ', behind)
  {
    hide Repeat;
    var room := size - |sign + prefix| - |body|;
    NoPadding(0);
    NoPadding(room);
    assert Repeat(' ', 0) == "" && (room <= 0 ==> Repeat(' ', room) == "");
  }

  // ----- `skip_atoi` -----

  predicate IsDigit(c: char) { '0' <= c <= '9' }

  lemma {:induction false} ValueIsNatural(s: string, base: nat)
    ensures Value(s, base) >= 0
  {
    if s != "" {
      ValueIsNatural(s[..|s| - 1], base);
    }
  }

  /**
   Reads the number at the start of s, as far as there are decimal digits, into an `int` of 32
   bits that wraps around: exactly the numbers below 2^31 are read as what they are.
   */
  method SkipAtoi(s: string) returns (i: int, used: nat)
    ensures used <= |s| && (forall k :: 0 <= k < used ==> IsDigit(s[k])) && (used < |s| ==> !IsDigit(s[used]))
    ensures i == Int32(Value(s[..used], 10))
    ensures i == Value(s[..used], 10) <==> Value(s[..used], 10) < 0x8000_0000
  {
    hide Value, Int32;
    i, used := 0, 0;
    NothingRead(s);
    while used < |s| && IsDigit(s[used])
      invariant used <= |s| && (forall k :: 0 <= k < used ==> IsDigit(s[k]))
      invariant i == Int32(Value(s[..used], 10))
    {
      ValueMore(s[..used], s[used], 10);
      assert s[..used + 1] == s[..used] + [s[used]];
      Int32Digit(Value(s[..used], 10), DigitValue(s[used]));
      i := Int32(i * 10 + (s[used] - '0') as int);
      used := used + 1;
    }
    ValueIsNatural(s[..used], 10);
    Int32Exact(Value(s[..used], 10));
  }

  lemma NothingRead(s: string)
    ensures Value(s[..0], 10) == 0 && Int32(0) == 0
  {
  }

  lemma {:induction false} DecimalDigits(n: nat, large: bool)
    ensures forall k :: 0 <= k < |Significant(n, 10, large)| ==> IsDigit(Significant(n, 10, large)[k])
    decreases n
  {
    if n > 0 {
      QuotientIsLess(n, 10);
      DecimalDigits(n / 10, large);
    }
  }

  /**
   A decimal number that has been printed, with anything behind it that does not go on with a
   digit, is read back exactly if it is below 2^31; all its digits are used in any case.
   */
  method ReadBack(inum: Word, flags: Flags, rest: string) returns (i: int, used: nat)
    requires rest != "" ==> !IsDigit(rest[0])
    ensures used == |Digits(Magnitude(inum, flags), 10, flags.large)| && i == Int32(Magnitude(inum, flags))
    ensures i == Magnitude(inum, flags) <==> Magnitude(inum, flags) < 0x8000_0000
  {
    var digits := Digits(Magnitude(inum, flags), 10, flags.large);
    DecimalDigits(Magnitude(inum, flags), flags.large);
    i, used := SkipAtoi(digits + rest);
    DigitsValue(Magnitude(inum, flags), 10, flags.large);
    assert (digits + rest)[..|digits|] == digits;
  }

  /** The first number of more than 32 bits is printed with ten digits and read back as 0. */
  method LostNumber(flags: Flags) returns (i: int, used: nat)
    requires !flags.sign
    ensures i == 0 && used == |Digits(0x1_0000_0000, 10, flags.large)|
  {
    i, used := ReadBack(0x1_0000_0000, flags, "");
  }
}

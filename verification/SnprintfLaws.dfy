/** What whole formats print: characters are copied, conversions print their fields, and each takes its arguments. */
module SnprintfLaws {
  import opened Machine
  import opened Arith
  import opened CString
  import opened Snprintf
  import opened SnprintfRun
  import opened SnprintfFormats
  import opened Scan
  import opened ScanRoundTrip

  // ----- the rest of a format is a format

  lemma {:induction false} FlagsShift(fmt: seq<Byte>, n: nat, i: nat)
    requires n + i <= |fmt|
    ensures FlagsEnd(fmt, n + i) == n + FlagsEnd(fmt[n..], i)
    decreases |fmt| - i
  {
    if n + i < |fmt| && IsFlag(fmt[n + i]) {
      FlagsShift(fmt, n, i + 1);
    }
  }

  lemma {:induction false} NumberEndShift(fmt: seq<Byte>, n: nat, i: nat)
    requires n + i <= |fmt|
    ensures NumberEnd(fmt, n + i) == n + NumberEnd(fmt[n..], i)
    decreases |fmt| - i
  {
    if n + i < |fmt| && IsDigit(fmt[n + i]) {
      NumberEndShift(fmt, n, i + 1);
    }
  }

  lemma {:induction false} NumberShift(fmt: seq<Byte>, n: nat, i: nat, j: nat)
    requires i <= j && n + j <= |fmt| && forall k :: n + i <= k < n + j ==> IsDigit(fmt[k])
    ensures forall k :: i <= k < j ==> IsDigit(fmt[n..][k])
    ensures NumberIn(fmt, n + i, n + j) == NumberIn(fmt[n..], i, j)
    decreases j
  {
    hide IsDigit;
    forall k | i <= k < j
      ensures IsDigit(fmt[n..][k])
    {
      assert fmt[n..][k] == fmt[n + k];
    }
    if i < j {
      NumberShift(fmt, n, i, j - 1);
    }
  }

  lemma QuantityShift(fmt: seq<Byte>, n: nat, i: nat, args: Args, k: nat)
    requires n + i <= |fmt|
    ensures var p := Quantity(fmt[n..], i, args, k); Quantity(fmt, n + i, args, k) == Parsed(p.value, n + p.i, p.k)
  {
    hide NumberIn, NumberEnd;
    if At(fmt, n + i) != STAR {
      NumberEndShift(fmt, n, i);
      NumberShift(fmt, n, i, NumberEnd(fmt[n..], i));
    }
  }

  lemma PrecisionShift(fmt: seq<Byte>, n: nat, i: nat, args: Args, k: nat)
    requires n + i <= |fmt|
    ensures var p := Precision(fmt[n..], i, args, k); Precision(fmt, n + i, args, k) == Parsed(p.value, n + p.i, p.k)
  {
    hide Quantity;
    if At(fmt, n + i) == DOT {
      QuantityShift(fmt, n, i + 1, args, k);
    }
  }

  lemma ParseShift(fmt: seq<Byte>, n: nat, i: nat, args: Args, k: nat)
    requires n + i <= |fmt|
    ensures var d := ParseFormat(fmt[n..], i, args, k);
      ParseFormat(fmt, n + i, args, k) == Directive(d.spec, n + d.i, d.k)
  {
    hide Quantity, Precision, FlagsEnd;
    var t := fmt[n..];
    var f := FlagsEnd(t, i);
    FlagsShift(fmt, n, i);
    assert fmt[n + i..n + f] == t[i..f];
    QuantityShift(fmt, n, f, args, k);
    var width := Quantity(t, f, args, k);
    PrecisionShift(fmt, n, width.i, args, width.k);
  }

  /** Printing from a position on is printing the rest of the format. */
  lemma {:induction false} RenderShift(fmt: seq<Byte>, n: nat, i: nat, args: Args, k: nat, strings: Strings)
    requires n + i <= |fmt|
    ensures Render(fmt, n + i, args, k, strings) == Render(fmt[n..], i, args, k, strings)
    decreases |fmt| - i
  {
    hide ParseFormat, Convert;
    if At(fmt, n + i) == PERCENT {
      ParseShift(fmt, n, i + 1, args, k);
      var d := ParseFormat(fmt[n..], i + 1, args, k);
      RenderShift(fmt, n, d.i, args, Convert(d.spec, args, d.k, strings).1, strings);
    } else if At(fmt, n + i) != 0 {
      RenderShift(fmt, n, i + 1, args, k, strings);
    }
  }

  // ----- characters and conversions

  /** Characters other than % and NUL are copied. */
  lemma {:induction false} CharactersCopied(text: seq<Byte>, rest: seq<Byte>, args: Args, k: nat, strings: Strings)
    requires PERCENT !in text && 0 !in text
    ensures Render(text + rest, 0, args, k, strings) == text + Render(rest, 0, args, k, strings)
    decreases |text|
  {
    hide Render;
    var fmt := text + rest;
    if text == [] {
      assert fmt == rest;
    } else {
      CharactersCopied(text[1..], rest, args, k, strings);
      OneCopied(text[0], text[1..] + rest, args, k, strings);
      assert fmt == [text[0]] + (text[1..] + rest);
      assert text == [text[0]] + text[1..];
    }
  }

  lemma OneCopied(c: Byte, rest: seq<Byte>, args: Args, k: nat, strings: Strings)
    requires c != PERCENT && c != 0
    ensures Render([c] + rest, 0, args, k, strings) == [c] + Render(rest, 0, args, k, strings)
  {
    hide ParseFormat, Convert;
    var fmt := [c] + rest;
    assert fmt[1..] == rest;
    RenderShift(fmt, 1, 0, args, k, strings);
  }

  /** What the conversion prints when its arguments begin at k, and the next argument. */
  function Printed(c: Conversion, args: Args, k: nat, strings: Strings): (seq<Byte>, nat) {
    Convert(Meaning(c, args, k), args, FirstArgument(c, k), strings)
  }

  /** Text, then a written conversion, then the rest of the format with the arguments that are left. */
  lemma FormatPrinted(text: seq<Byte>, c: Conversion, rest: seq<Byte>, args: Args, k: nat, strings: Strings)
    requires PERCENT !in text && 0 !in text && Proper(c)
    ensures var (out, next) := Printed(c, args, k, strings);
      Render(text + ([PERCENT] + Show(c) + rest), 0, args, k, strings) ==
        text + (out + Render(rest, 0, args, next, strings))
  {
    hide Show, ParseFormat, Convert, Meaning, FirstArgument, Proper;
    var fmt := [PERCENT] + Show(c) + rest;
    CharactersCopied(text, fmt, args, k, strings);
    assert fmt[1..1 + |Show(c)|] == Show(c) && fmt[1 + |Show(c)|..] == rest;
    ConversionRead(fmt, 1, c, args, k);
    RenderShift(fmt, 1 + |Show(c)|, 0, args, Printed(c, args, k, strings).1, strings);
  }

  // ----- fields

  /** The core stands in a field of at least its length: on the left before spaces, or on the right behind padding. */
  ghost predicate InField(spec: Spec, out: seq<Byte>, core: seq<Byte>) {
    && |out| == (if |core| < spec.width then spec.width else |core|)
    && |core| <= |out|
    && if spec.left then core <= out && forall k :: |core| <= k < |out| ==> out[k] == SPACE
       else
         && out[|out| - |core|..] == core
         && forall k :: 0 <= k < |out| - |core| ==> out[k] == if spec.zero then ZERO else SPACE
  }

  lemma FieldHolds(spec: Spec, core: seq<Byte>)
    ensures InField(spec, Field(spec, core, Excess(spec.width, |core|)), core)
  {
  }

  /** %s: the string that its argument points to, or (null), up to the precision. */
  lemma StringPrinted(c: Conversion, args: Args, k: nat, strings: Strings)
    requires c.specifier == 0x73
    ensures var a := FirstArgument(c, k);
      var spec := Meaning(c, args, k);
      var s := if args(a) == 0 then [0x28, 0x6E, 0x75, 0x6C, 0x6C, 0x29] else Text(strings(args(a)));
      var n := if spec.precision == UNSPECIFIED then |s| else Least(|s|, spec.precision);
      InField(spec, Printed(c, args, k, strings).0, s[..n]) && Printed(c, args, k, strings).1 == a + 1
  {
    hide InField, Field, FirstArgument, Text, AmountValue;
    var spec := Meaning(c, args, k);
    var a := FirstArgument(c, k);
    var s := if args(a) == 0 then NULL_TEXT else strings(args(a));
    NullText();
    var n := if spec.precision == UNSPECIFIED then |Text(s)| else Least(|Text(s)|, spec.precision);
    assert Text(s)[..|Text(s)|] == Text(s);
    FieldHolds(spec, Text(s)[..n]);
  }

  lemma NullText()
    ensures Text(NULL_TEXT) == NULL_TEXT
  {
    TextOf(NULL_TEXT, []);
    assert NULL_TEXT + [] == NULL_TEXT;
  }

  /** %c prints the low byte of its argument, without a field; any other character prints itself and takes nothing. */
  lemma CharacterPrinted(c: Conversion, args: Args, k: nat, strings: Strings)
    requires c.specifier !in [0x73, 0x64, 0x75, 0x78, 0x58, 0x70]
    ensures var a := FirstArgument(c, k);
      Printed(c, args, k, strings) == if c.specifier == 0x63 then ([args(a) % 256], a + 1) else ([c.specifier], a)
  {
    hide FirstArgument, StringText, NumberText;
  }

  /** The number in the words of the argument list from a on: signed for %d, two words, low one first, behind ll. */
  function NumberArgument(c: Conversion, args: Args, a: nat): int {
    var long := args(a) + 0x1_0000_0000 * args(a + 1);
    if c.specifier == 0x64 then
      if c.length != LongLong then AsInt(args(a))
      else if long < 0x8000_0000_0000_0000 then long else long - 0x1_0000_0000_0000_0000
    else if c.length == LongLong && c.specifier != 0x70 then long
    else args(a)
  }

  function NumberBase(c: Conversion): nat { if c.specifier in [0x64, 0x75] then 10 else 16 }

  /** The conversions of numbers: the sign or 0x and the digits, behind the zeros that the precision asks for. */
  lemma NumberPrinted(c: Conversion, args: Args, k: nat, strings: Strings)
    requires c.specifier in [0x64, 0x75, 0x78, 0x58, 0x70]
    ensures var a := FirstArgument(c, k);
      var spec := Meaning(c, args, k);
      var v := NumberArgument(c, args, a);
      var body := (if v < 0 then [MINUS] else if c.specifier == 0x70 then [ZERO, LOWER_X] else [])
        + Digits(Abs(v), NumberBase(c), c.specifier == 0x58);
      var zeros := if spec.precision == UNSPECIFIED || spec.precision < |body| then 0 else spec.precision - |body|;
      && InField(spec, Printed(c, args, k, strings).0, Fill(ZERO, zeros) + body)
      && Printed(c, args, k, strings).1 == a + if c.length == LongLong && c.specifier != 0x70 then 2 else 1
  {
    hide InField, NumberText, NumberBody, Digits, FirstArgument, StringText, AmountValue;
    var a := FirstArgument(c, k);
    var spec := Meaning(c, args, k);
    var value: Quad := if c.specifier == 0x70 then args(a)
      else if c.length == LongLong then QuadArg(args, a)
      else if c.specifier == 0x64 then SignExtend(args(a))
      else args(a);
    assert Printed(c, args, k, strings).0 == NumberText(spec, value, c.specifier == 0x64);
    NumberInField(spec, value, c.specifier == 0x64);
    BodyIs(c, spec, args, a, value);
  }

  lemma NumberInField(spec: Spec, value: Quad, signed: bool)
    ensures var body := NumberBody(spec, value, signed);
      var zeros := if spec.precision == UNSPECIFIED || spec.precision < |body| then 0 else spec.precision - |body|;
      InField(spec, NumberText(spec, value, signed), Fill(ZERO, zeros) + body)
  {
    hide NumberBody, InField, Field;
    var body := NumberBody(spec, value, signed);
    FieldHolds(spec, Fill(ZERO, PrecisionZeros(spec, |body|)) + body);
  }

  lemma BodyIs(c: Conversion, spec: Spec, args: Args, a: nat, value: Quad)
    requires c.specifier in [0x64, 0x75, 0x78, 0x58, 0x70] && spec.specifier == c.specifier
    requires value == if c.specifier == 0x70 then args(a)
      else if c.length == LongLong then QuadArg(args, a)
      else if c.specifier == 0x64 then SignExtend(args(a))
      else args(a)
    ensures var v := NumberArgument(c, args, a);
      NumberBody(spec, value, c.specifier == 0x64) ==
        (if v < 0 then [MINUS] else if c.specifier == 0x70 then [ZERO, LOWER_X] else [])
        + Digits(Abs(v), NumberBase(c), c.specifier == 0x58)
  {
    hide Digits;
  }

  // ----- digits

  /** The digits of a positive number do not begin with 0. */
  lemma {:induction false} NoLeadingZero(v: nat, base: nat, upper: bool)
    requires 2 <= base <= 16 && v > 0
    ensures Digits(v, base, upper)[0] != ZERO
  {
    hide Digits, DigitChar;
    DigitsSplit(v, base, upper);
    Remainder(v, base);
    if v >= base {
      QuotientZero(v, base);
      NoLeadingZero(v / base, base, upper);
    } else {
      SmallDivision(v, base);
      FirstDigit(v, upper);
    }
  }

  lemma FirstDigit(d: nat, upper: bool)
    requires 0 < d < 16
    ensures DigitChar(d, upper) != ZERO
  {
  }

  /** Digits above nine are capital letters for %X and small letters otherwise. */
  predicate InCase(c: Byte, upper: bool) {
    IsDigit(c) || (if upper then 0x41 <= c <= 0x46 else 0x61 <= c <= 0x66)
  }

  lemma {:induction false} DigitsInCase(v: nat, base: nat, upper: bool)
    requires 2 <= base <= 16
    ensures forall i :: 0 <= i < |Digits(v, base, upper)| ==> InCase(Digits(v, base, upper)[i], upper)
  {
    hide Digits, DigitChar, InCase;
    DigitsSplit(v, base, upper);
    Remainder(v, base);
    DigitInCase(v % base, upper);
    if v >= base {
      QuotientZero(v, base);
      DigitsInCase(v / base, base, upper);
    }
  }

  lemma DigitInCase(d: nat, upper: bool)
    requires d < 16
    ensures InCase(DigitChar(d, upper), upper)
  {
  }

  /** "%08x", in which the heap dump prints its addresses: eight hexadecimal digits whose value is the argument. */
  lemma EightHexDigits(rest: seq<Byte>, args: Args, k: nat, strings: Strings)
    ensures var fmt := [0x25, 0x30, 0x38, 0x78] + rest;
      exists out: seq<Byte> ::
        && Render(fmt, 0, args, k, strings) == out + Render(rest, 0, args, k + 1, strings)
        && |out| == 8 && Value(out, 16) == args(k) && forall i :: 0 <= i < 8 ==> IsDigitOf(out[i], 16)
  {
    hide Render, Printed, InField, Digits, Value, IsDigitOf;
    var c := Conversion([ZERO], Numeral([0x38]), None, Plain, 0x78);
    var digits := Digits(args(k), 16, false);
    var out := Printed(c, args, k, strings).0;
    EightMeaning(c, args, k);
    FormatPrinted([], c, rest, args, k, strings);
    assert [] + ([PERCENT] + Show(c) + rest) == [0x25, 0x30, 0x38, 0x78] + rest;
    NumberPrinted(c, args, k, strings);
    WordDigits(args(k));
    assert [] + digits == digits;
    EightField(Meaning(c, args, k), out, digits);
    ZerosValue(8 - |digits|, digits, 16);
    DigitsRead(args(k), 16, false);
    DigitsAreDigits(args(k), 16, false);
    ZerosAndDigits(8 - |digits|, digits, 16);
    assert [] + (out + Render(rest, 0, args, k + 1, strings)) == out + Render(rest, 0, args, k + 1, strings);
  }

  lemma EightMeaning(c: Conversion, args: Args, k: nat)
    requires c == Conversion([ZERO], Numeral([0x38]), None, Plain, 0x78)
    ensures Proper(c) && Show(c) == [0x30, 0x38, 0x78]
    ensures Meaning(c, args, k) == Spec(false, true, 8, UNSPECIFIED, Plain, 0x78) && FirstArgument(c, k) == k
  {
    var eight: seq<Byte> := [0x38];
    assert eight[..0] == [];
    assert Value(eight, 10) == Value([], 10) * 10 + 8;
    assert IsNumeral(eight) && At(eight, 0) != ZERO;
    assert Show(c) == [0x30, 0x38, 0x78];
  }

  lemma EightField(spec: Spec, out: seq<Byte>, digits: seq<Byte>)
    requires spec.width == 8 && spec.zero && !spec.left && |digits| <= 8
    requires InField(spec, out, Fill(ZERO, 0) + digits)
    ensures out == Fill(ZERO, 8 - |digits|) + digits
  {
    assert Fill(ZERO, 0) + digits == digits;
    var n := 8 - |digits|;
    assert out[n..] == digits;
    assert out[..n] == Fill(ZERO, n);
  }

  lemma WordDigits(w: Word)
    ensures |Digits(w, 16, false)| <= 8
  {
    hide Digits;
    assert Power(16, 4) == 0x1_0000;
    assert Power(16, 8) == 0x1_0000_0000;
    DigitsBound(w, 16, false, 8);
  }
}

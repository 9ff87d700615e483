/**
vsnprintf: the text every format stands for, and the bounded printer that delivers its front part
(section 7.21.6.5 of ISO C11). Arguments are the words of an i386 va_list; a pointer names a C string.
*/
module Snprintf {
  import opened Machine
  import opened CString

  const SPACE: Byte := 0x20
  const PERCENT: Byte := 0x25
  const STAR: Byte := 0x2A
  const MINUS: Byte := 0x2D
  const DOT: Byte := 0x2E
  const ZERO: Byte := 0x30
  const LOWER_X: Byte := 0x78

  const UNSPECIFIED: Word := 0xFFFF_FFFF

  predicate IsDigit(c: Byte) { 0x30 <= c <= 0x39 }

  // ----- format specifiers

  datatype Length = Plain | Long | LongLong

  datatype Spec = Spec(left: bool, zero: bool, width: Word, precision: Word, length: Length, specifier: Byte)

  /** The words of the argument list, and the C string at each address. */
  type Args = nat -> Word
  type Strings = Word -> seq<Byte>

  function FlagsEnd(fmt: seq<Byte>, i: nat): (j: nat)
    ensures i <= j && (i <= |fmt| ==> j <= |fmt|)
    decreases |fmt| - i
  {
    if i < |fmt| && (fmt[i] == MINUS || fmt[i] == ZERO) then FlagsEnd(fmt, i + 1) else i
  }

  function NumberEnd(fmt: seq<Byte>, i: nat): (j: nat)
    ensures i <= j && (i <= |fmt| ==> j <= |fmt|)
    ensures forall k :: i <= k < j ==> k < |fmt| && IsDigit(fmt[k])
    ensures !IsDigit(At(fmt, j))
    decreases |fmt| - i
  {
    if i < |fmt| && IsDigit(fmt[i]) then NumberEnd(fmt, i + 1) else i
  }

  /** The decimal number in fmt[i..j], modulo 2^32. */
  function NumberIn(fmt: seq<Byte>, i: nat, j: nat): Word
    requires i <= j <= |fmt| && forall k :: i <= k < j ==> IsDigit(fmt[k])
    decreases j
  {
    if i == j then 0 else Wrap32(NumberIn(fmt, i, j - 1) * 10 + (fmt[j - 1] - ZERO))
  }

  /** A value in a specifier, where it ends in the format, and the next argument. */
  datatype Parsed = Parsed(value: Word, i: nat, k: nat)

  /** A number written out, or * for an argument. */
  function Quantity(fmt: seq<Byte>, i: nat, args: Args, k: nat): (p: Parsed)
    requires i <= |fmt|
    ensures i <= p.i <= |fmt|
  {
    if At(fmt, i) == STAR then Parsed(args(k), i + 1, k + 1)
    else Parsed(NumberIn(fmt, i, NumberEnd(fmt, i)), NumberEnd(fmt, i), k)
  }

  function Precision(fmt: seq<Byte>, i: nat, args: Args, k: nat): (p: Parsed)
    requires i <= |fmt|
    ensures i <= p.i <= |fmt|
  {
    if At(fmt, i) == DOT then Quantity(fmt, i + 1, args, k) else Parsed(UNSPECIFIED, i, k)
  }

  function LengthAt(fmt: seq<Byte>, i: nat): Length {
    if At(fmt, i) != 0x6C then Plain else if At(fmt, i + 1) != 0x6C then Long else LongLong
  }

  function LengthSize(l: Length): nat { match l case Plain => 0 case Long => 1 case LongLong => 2 }

  datatype Directive = Directive(spec: Spec, i: nat, k: nat)

  /** The specifier that follows a percent sign at i - 1. */
  function ParseFormat(fmt: seq<Byte>, i: nat, args: Args, k: nat): (d: Directive)
    requires i <= |fmt|
    ensures i <= d.i <= |fmt|
  {
    var f := FlagsEnd(fmt, i);
    var width := Quantity(fmt, f, args, k);
    var precision := Precision(fmt, width.i, args, width.k);
    var length := LengthAt(fmt, precision.i);
    var at := precision.i + LengthSize(length);
    var specifier := At(fmt, at);
    Directive(Spec(MINUS in fmt[i..f], ZERO in fmt[i..f], width.value, precision.value, length, specifier),
              if specifier != 0 then at + 1 else Least(at, |fmt|), precision.k)
  }

  // ----- the text of one conversion

  /** Text in a field: pad on the left unless left-aligned, then on the right with spaces. */
  function Field(spec: Spec, text: seq<Byte>, pad: nat): seq<Byte> {
    if spec.left then text + Fill(SPACE, pad)
    else Fill(if spec.zero then ZERO else SPACE, pad) + text
  }

  function Excess(wanted: nat, length: nat): nat { if wanted > length then wanted - length else 0 }

  function StringText(spec: Spec, s: seq<Byte>): seq<Byte> {
    var t := Text(s);
    var cut := if spec.precision == UNSPECIFIED || |t| <= spec.precision then t else t[..spec.precision];
    Field(spec, cut, Excess(spec.width, |cut|))
  }

  function DigitChar(d: nat, upper: bool): Byte
    requires d < 16
  {
    if d < 10 then 0x30 + d else if upper then 0x41 + d - 10 else 0x61 + d - 10
  }

  function Digits(v: nat, base: nat, upper: bool): (r: seq<Byte>)
    requires 2 <= base <= 16
    ensures |r| >= 1
  {
    (if v < base then [] else Digits(v / base, base, upper)) + [DigitChar(v % base, upper)]
  }

  function Base(spec: Spec): nat {
    if spec.specifier == 0x78 || spec.specifier == 0x58 || spec.specifier == 0x70 then 16 else 10
  }

  type Quad = q: int | 0 <= q < 0x1_0000_0000_0000_0000

  predicate IsNegative(value: Quad, signed: bool) { signed && value >= 0x8000_0000_0000_0000 }

  function Magnitude(value: Quad, signed: bool): nat {
    if IsNegative(value, signed) then 0x1_0000_0000_0000_0000 - value else value
  }

  function Prefix(spec: Spec, value: Quad, signed: bool): seq<Byte> {
    if IsNegative(value, signed) then [MINUS] else if spec.specifier == 0x70 then [ZERO, LOWER_X] else []
  }

  /** Sign or 0x and the digits. */
  function NumberBody(spec: Spec, value: Quad, signed: bool): seq<Byte> {
    Prefix(spec, value, signed) + Digits(Magnitude(value, signed), Base(spec), spec.specifier == 0x58)
  }

  function PrecisionZeros(spec: Spec, length: nat): nat {
    if spec.precision == UNSPECIFIED then 0 else Excess(spec.precision, length)
  }

  function NumberText(spec: Spec, value: Quad, signed: bool): seq<Byte> {
    var body := NumberBody(spec, value, signed);
    var zeros := PrecisionZeros(spec, |body|);
    Field(spec, Fill(ZERO, zeros) + body, Excess(spec.width, |body| + zeros))
  }

  // ----- arguments

  function SignExtend(w: Word): Quad {
    if w < 0x8000_0000 then w else w + 0xFFFF_FFFF_0000_0000
  }

  function QuadArg(args: Args, k: nat): Quad { args(k) + 0x1_0000_0000 * args(k + 1) }

  const NULL_TEXT: seq<Byte> := [0x28, 0x6E, 0x75, 0x6C, 0x6C, 0x29]

  /** What one conversion prints, and the next argument. */
  function Convert(spec: Spec, args: Args, k: nat, strings: Strings): (seq<Byte>, nat) {
    if spec.specifier == 0x73 then (StringText(spec, if args(k) == 0 then NULL_TEXT else strings(args(k))), k + 1)
    else if spec.specifier == 0x63 then ([args(k) % 256], k + 1)
    else if spec.specifier == 0x64 then
      if spec.length == LongLong then (NumberText(spec, QuadArg(args, k), true), k + 2)
      else (NumberText(spec, SignExtend(args(k)), true), k + 1)
    else if spec.specifier == 0x75 || spec.specifier == 0x78 || spec.specifier == 0x58 then
      if spec.length == LongLong then (NumberText(spec, QuadArg(args, k), false), k + 2)
      else (NumberText(spec, args(k), false), k + 1)
    else if spec.specifier == 0x70 then (NumberText(spec, args(k), false), k + 1)
    else ([spec.specifier], k)
  }

  /** The whole output for the format from position i on, whatever the size of the buffer. */
  function Render(fmt: seq<Byte>, i: nat, args: Args, k: nat, strings: Strings): seq<Byte>
    requires i <= |fmt|
    decreases |fmt| - i
  {
    if At(fmt, i) == 0 then []
    else if fmt[i] != PERCENT then [fmt[i]] + Render(fmt, i + 1, args, k, strings)
    else
      var d := ParseFormat(fmt, i + 1, args, k);
      var (text, next) := Convert(d.spec, args, d.k, strings);
      text + Render(fmt, d.i, args, next, strings)
  }
}

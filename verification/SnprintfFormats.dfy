/** Formats that are written down are read back: the directive, what it prints, and the arguments that it takes. */
module SnprintfFormats {
  import opened Machine
  import opened CString
  import opened Snprintf
  import opened Scan

  // ----- a conversion as it is written

  /** A width or precision: decimal digits, or a star for the next argument. */
  datatype Amount = Star | Numeral(digits: seq<Byte>)

  datatype Conversion = Conversion(flags: seq<Byte>, width: Amount, precision: Option<Amount>, length: Length,
    specifier: Byte)

  predicate IsFlag(c: Byte) { c == MINUS || c == ZERO }

  predicate IsNumeral(s: seq<Byte>) { forall k :: 0 <= k < |s| ==> IsDigit(s[k]) }

  predicate IsFlags(s: seq<Byte>) { forall k :: 0 <= k < |s| ==> IsFlag(s[k]) }

  /** A character that can end a conversion whatever precedes it. */
  predicate IsSpecifier(c: Byte) {
    c != 0 && !IsDigit(c) && c != STAR && c != MINUS && c != DOT && c != LOWER_L
  }

  /** Flags are - and 0, in any order and number; a width does not begin with 0, which would be a flag. */
  predicate Proper(c: Conversion) {
    && IsFlags(c.flags)
    && (c.width.Star? || (IsNumeral(c.width.digits) && At(c.width.digits, 0) != ZERO))
    && (c.precision.Some? && c.precision.value.Numeral? ==> IsNumeral(c.precision.value.digits))
    && IsSpecifier(c.specifier)
  }

  const LOWER_L: Byte := 0x6C

  function AmountText(a: Amount): (s: seq<Byte>) {
    match a case Star => [STAR] case Numeral(digits) => digits
  }

  function PrecisionText(p: Option<Amount>): seq<Byte> {
    match p case None => [] case Some(a) => [DOT] + AmountText(a)
  }

  function LengthText(l: Length): seq<Byte> {
    match l case Plain => [] case Long => [LOWER_L] case LongLong => [LOWER_L, LOWER_L]
  }

  /** The conversion without its percent sign. */
  function Show(c: Conversion): seq<Byte> {
    c.flags + (AmountText(c.width) + (PrecisionText(c.precision) + (LengthText(c.length) + [c.specifier])))
  }

  // ----- what it means

  function AmountValue(a: Amount, args: Args, k: nat): Word {
    match a case Star => args(k) case Numeral(digits) => Wrap32(Value(digits, 10))
  }

  function Stars(a: Amount): nat { if a.Star? then 1 else 0 }

  function Meaning(c: Conversion, args: Args, k: nat): Spec {
    Spec(MINUS in c.flags, ZERO in c.flags, AmountValue(c.width, args, k),
         if c.precision.None? then UNSPECIFIED else AmountValue(c.precision.value, args, k + Stars(c.width)),
         c.length, c.specifier)
  }

  function FirstArgument(c: Conversion, k: nat): nat {
    k + Stars(c.width) + match c.precision case None => 0 case Some(a) => Stars(a)
  }

  // ----- reading what is written

  /** The text s stands at position i of the format. */
  predicate Stands(fmt: seq<Byte>, i: nat, s: seq<Byte>) {
    i + |s| <= |fmt| && fmt[i..i + |s|] == s
  }

  lemma StandsBoth(fmt: seq<Byte>, i: nat, s: seq<Byte>, t: seq<Byte>)
    requires Stands(fmt, i, s + t)
    ensures Stands(fmt, i, s) && Stands(fmt, i + |s|, t)
    ensures t != [] ==> At(fmt, i + |s|) == t[0]
  {
    var u := fmt[i..i + |s + t|];
    assert u[..|s|] == s && u[|s|..] == t;
    if t != [] {
      assert u[|s|] == t[0];
    }
  }

  lemma {:induction false} FlagsRead(fmt: seq<Byte>, i: nat, flags: seq<Byte>, j: nat)
    requires Stands(fmt, i, flags) && IsFlags(flags) && i <= j <= i + |flags| && !IsFlag(At(fmt, i + |flags|))
    ensures FlagsEnd(fmt, j) == i + |flags|
    decreases i + |flags| - j
  {
    if j < i + |flags| {
      assert fmt[j] == flags[j - i];
      FlagsRead(fmt, i, flags, j + 1);
    }
  }

  lemma {:induction false} NumeralRead(fmt: seq<Byte>, i: nat, digits: seq<Byte>, j: nat)
    requires Stands(fmt, i, digits) && IsNumeral(digits) && i <= j <= i + |digits| && !IsDigit(At(fmt, i + |digits|))
    ensures NumberEnd(fmt, j) == i + |digits|
    decreases i + |digits| - j
  {
    if j < i + |digits| {
      assert fmt[j] == digits[j - i];
      NumeralRead(fmt, i, digits, j + 1);
    }
  }

  lemma {:induction false} NumeralValue(fmt: seq<Byte>, i: nat, digits: seq<Byte>)
    requires Stands(fmt, i, digits) && IsNumeral(digits)
    ensures forall k :: i <= k < i + |digits| ==> IsDigit(fmt[k])
    ensures NumberIn(fmt, i, i + |digits|) == Wrap32(Value(digits, 10))
    decreases |digits|
  {
    forall k | i <= k < i + |digits|
      ensures IsDigit(fmt[k])
    {
      assert fmt[k] == digits[k - i];
    }
    if digits != [] {
      var front, c := digits[..|digits| - 1], digits[|digits| - 1];
      assert digits == front + [c];
      StandsBoth(fmt, i, front, [c]);
      NumeralValue(fmt, i, front);
      WrapStep(Value(front, 10), 10, c - ZERO);
    }
  }

  lemma AmountRead(fmt: seq<Byte>, i: nat, a: Amount, args: Args, k: nat)
    requires Stands(fmt, i, AmountText(a)) && (a.Numeral? ==> IsNumeral(a.digits))
    requires !IsDigit(At(fmt, i + |AmountText(a)|)) && At(fmt, i + |AmountText(a)|) != STAR
    ensures Quantity(fmt, i, args, k) == Parsed(AmountValue(a, args, k), i + |AmountText(a)|, k + Stars(a))
  {
    match a
    case Star =>
      assert fmt[i] == STAR;
    case Numeral(digits) =>
      if digits != [] {
        assert fmt[i] == digits[0];
      }
      NumeralRead(fmt, i, digits, i);
      NumeralValue(fmt, i, digits);
  }

  lemma PrecisionRead(fmt: seq<Byte>, i: nat, p: Option<Amount>, args: Args, k: nat)
    requires Stands(fmt, i, PrecisionText(p)) && (p.Some? && p.value.Numeral? ==> IsNumeral(p.value.digits))
    requires var next := At(fmt, i + |PrecisionText(p)|); !IsDigit(next) && next != STAR && next != DOT
    ensures Precision(fmt, i, args, k) ==
      Parsed(if p.None? then UNSPECIFIED else AmountValue(p.value, args, k), i + |PrecisionText(p)|,
             k + match p case None => 0 case Some(a) => Stars(a))
  {
    hide Quantity, AmountValue;
    if p.Some? {
      StandsBoth(fmt, i, [DOT], AmountText(p.value));
      assert fmt[i] == DOT;
      AmountRead(fmt, i + 1, p.value, args, k);
    }
  }

  lemma LengthRead(fmt: seq<Byte>, i: nat, l: Length)
    requires Stands(fmt, i, LengthText(l)) && At(fmt, i + |LengthText(l)|) != LOWER_L
    ensures LengthAt(fmt, i) == l && LengthSize(l) == |LengthText(l)|
  {
    if l != Plain {
      assert fmt[i] == LengthText(l)[0];
    }
    if l == LongLong {
      assert fmt[i + 1] == LengthText(l)[1];
    }
  }

  /** Where the parts of a conversion stand, and what cannot follow them. */
  ghost predicate PartsStand(fmt: seq<Byte>, i: nat, c: Conversion) {
    var w := i + |c.flags|;
    var p := w + |AmountText(c.width)|;
    var l := p + |PrecisionText(c.precision)|;
    var s := l + |LengthText(c.length)|;
    && Stands(fmt, i, c.flags) && !IsFlag(At(fmt, w))
    && Stands(fmt, w, AmountText(c.width)) && !IsDigit(At(fmt, p)) && At(fmt, p) != STAR
    && Stands(fmt, p, PrecisionText(c.precision))
    && !IsDigit(At(fmt, l)) && At(fmt, l) != STAR && At(fmt, l) != DOT
    && Stands(fmt, l, LengthText(c.length)) && At(fmt, s) == c.specifier && c.specifier != 0 && c.specifier != LOWER_L
  }

  lemma StandsInParts(fmt: seq<Byte>, i: nat, c: Conversion)
    requires Proper(c) && Stands(fmt, i, Show(c))
    ensures PartsStand(fmt, i, c)
  {
    hide Stands, AmountText, PrecisionText, LengthText, IsDigit, IsFlag, Proper, At;
    var last := [c.specifier];
    var length := LengthText(c.length) + last;
    var precision := PrecisionText(c.precision) + length;
    var width := AmountText(c.width) + precision;
    var w := i + |c.flags|;
    var p := w + |AmountText(c.width)|;
    StandsBoth(fmt, i, c.flags, width);
    StandsBoth(fmt, w, AmountText(c.width), precision);
    StandsBoth(fmt, p, PrecisionText(c.precision), length);
    StandsBoth(fmt, p + |PrecisionText(c.precision)|, LengthText(c.length), last);
    Firsts(c);
  }

  /** A written conversion is read back: flags, amounts, length, specifier, where it ends and what its stars take. */
  lemma ConversionRead(fmt: seq<Byte>, i: nat, c: Conversion, args: Args, k: nat)
    requires Proper(c) && Stands(fmt, i, Show(c))
    ensures ParseFormat(fmt, i, args, k) == Directive(Meaning(c, args, k), i + |Show(c)|, FirstArgument(c, k))
  {
    hide ParseFormat, Stands, Quantity, Precision, AmountValue, FlagsEnd, LengthAt, LengthSize;
    hide AmountText, PrecisionText, LengthText, IsDigit, At;
    StandsInParts(fmt, i, c);
    var w := i + |c.flags|;
    var p := w + |AmountText(c.width)|;
    var l := p + |PrecisionText(c.precision)|;
    FlagsRead(fmt, i, c.flags, i);
    AmountRead(fmt, w, c.width, args, k);
    PrecisionRead(fmt, p, c.precision, args, k + Stars(c.width));
    LengthRead(fmt, l, c.length);
    StandsSlice(fmt, i, c.flags);
    ParseIs(fmt, i, args, k, w, Quantity(fmt, w, args, k), Precision(fmt, p, args, k + Stars(c.width)), c.length,
            c.specifier);
  }

  lemma ParseIs(fmt: seq<Byte>, i: nat, args: Args, k: nat, f: nat, width: Parsed, precision: Parsed, length: Length,
          specifier: Byte)
    requires i <= f <= |fmt| && FlagsEnd(fmt, i) == f && Quantity(fmt, f, args, k) == width && width.i <= |fmt|
    requires Precision(fmt, width.i, args, width.k) == precision && LengthAt(fmt, precision.i) == length
    requires At(fmt, precision.i + LengthSize(length)) == specifier && specifier != 0
    ensures ParseFormat(fmt, i, args, k) ==
      Directive(Spec(MINUS in fmt[i..f], ZERO in fmt[i..f], width.value, precision.value, length, specifier),
                precision.i + LengthSize(length) + 1, precision.k)
  {
    hide Quantity, Precision, FlagsEnd, LengthAt, LengthSize;
  }

  lemma StandsSlice(fmt: seq<Byte>, i: nat, s: seq<Byte>)
    requires Stands(fmt, i, s)
    ensures i + |s| <= |fmt| && fmt[i..i + |s|] == s
  {
  }

  /** What the parts of a conversion begin with. */
  lemma Firsts(c: Conversion)
    requires Proper(c)
    ensures var length := LengthText(c.length) + [c.specifier];
      var precision := PrecisionText(c.precision) + length;
      var width := AmountText(c.width) + precision;
      && !IsDigit(length[0]) && length[0] != STAR && length[0] != DOT && length[0] != MINUS
      && !IsDigit(precision[0]) && precision[0] != STAR && precision[0] != MINUS
      && !IsFlag(width[0]) && c.specifier != 0 && c.specifier != LOWER_L
  {
  }
}

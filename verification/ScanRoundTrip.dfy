/** Printing a number and scanning the text gives the number back. */
module ScanRoundTrip {
  import opened Machine
  import opened Arith
  import opened CString
  import opened Snprintf
  import opened Scan

  // ----- digits

  lemma DigitReads(d: nat, upper: bool)
    requires d < 16
    ensures DigitValue(DigitChar(d, upper)) == d && DigitChar(d, upper) != 0 && !IsSpace(DigitChar(d, upper))
    ensures DigitChar(d, upper) != MINUS && DigitChar(d, upper) != PLUS
    ensures DigitChar(d, upper) != 0x78 && DigitChar(d, upper) != 0x58
  {
  }

  lemma DigitsSplit(v: nat, base: nat, upper: bool)
    requires 2 <= base <= 16
    ensures Digits(v, base, upper) ==
      (if v < base then [] else Digits(v / base, base, upper)) + [DigitChar(v % base, upper)]
  {
    hide DigitChar;
  }

  lemma ValueSnoc(s: seq<Byte>, c: Byte, base: nat)
    ensures Value(s + [c], base) == Value(s, base) * base + DigitValue(c)
  {
    hide DigitValue;
    assert (s + [c])[..|s|] == s;
  }

  lemma Rejoined(v: nat, base: nat, q: nat, r: nat)
    requires base >= 1 && q == v / base && r == v % base
    ensures q * base + r == v
  {
  }

  lemma Remainder(v: nat, base: nat)
    requires base >= 1
    ensures v % base < base
  {
  }

  lemma {:induction false} DigitsRead(v: nat, base: nat, upper: bool)
    requires 2 <= base <= 16
    ensures Value(Digits(v, base, upper), base) == v
  {
    hide Digits, Value, DigitChar, DigitValue;
    var r := v % base;
    var front := if v < base then [] else Digits(v / base, base, upper);
    DigitsSplit(v, base, upper);
    Remainder(v, base);
    DigitReads(r, upper);
    ValueSnoc(front, DigitChar(r, upper), base);
    if v >= base {
      QuotientZero(v, base);
      DigitsRead(v / base, base, upper);
    } else {
      SmallDivision(v, base);
      ValueEmpty(base);
    }
    Rejoined(v, base, Value(front, base), r);
  }

  lemma {:induction false} DigitsAreDigits(v: nat, base: nat, upper: bool)
    requires 2 <= base <= 16
    ensures forall i :: 0 <= i < |Digits(v, base, upper)| ==> IsDigitOf(Digits(v, base, upper)[i], base)
  {
    hide Digits, DigitChar, DigitValue;
    DigitsSplit(v, base, upper);
    Remainder(v, base);
    DigitReads(v % base, upper);
    if v >= base {
      QuotientZero(v, base);
      DigitsAreDigits(v / base, base, upper);
    }
  }

  lemma SmallDivision(v: nat, base: nat)
    requires v < base
    ensures v / base == 0 && v % base == v
  {
  }

  lemma {:induction false} ZerosValue(n: nat, s: seq<Byte>, base: nat)
    ensures Value(Fill(ZERO, n) + s, base) == Value(s, base)
    decreases |s|, n
  {
    var t := Fill(ZERO, n) + s;
    if s != [] {
      assert t[..|t| - 1] == Fill(ZERO, n) + s[..|s| - 1];
      ZerosValue(n, s[..|s| - 1], base);
    } else if n > 0 {
      assert t == Fill(ZERO, n) && t[..n - 1] == Fill(ZERO, n - 1) + [];
      ZerosValue(n - 1, [], base);
    } else {
      assert t == [];
    }
  }

  // ----- where scanning stops

  lemma {:induction false} SpacesSkipped(n: nat, s: seq<Byte>, i: nat)
    requires i <= n && !IsSpace(At(s, 0))
    ensures SpacesEnd(Fill(SPACE, n) + s, i) == n
    decreases n - i
  {
    var t := Fill(SPACE, n) + s;
    if i < n {
      assert t[i] == SPACE;
      SpacesSkipped(n, s, i + 1);
    } else {
      assert At(t, n) == At(s, 0);
    }
  }

  lemma {:induction false} DigitsSkipped(pre: seq<Byte>, ds: seq<Byte>, rest: seq<Byte>, base: nat, i: nat)
    requires |pre| <= i <= |pre| + |ds|
    requires forall k :: 0 <= k < |ds| ==> IsDigitOf(ds[k], base)
    requires !IsDigitOf(At(rest, 0), base)
    ensures DigitsEnd(pre + ds + rest, i, base) == |pre| + |ds|
    decreases |pre| + |ds| - i
  {
    hide IsDigitOf;
    var t := pre + ds + rest;
    if i < |pre| + |ds| {
      assert t[i] == ds[i - |pre|];
      DigitsSkipped(pre, ds, rest, base, i + 1);
    } else {
      assert At(t, i) == At(rest, 0);
    }
  }

  /** Digits behind a prefix are read to their end and no further. */
  lemma ReadDigits(pre: seq<Byte>, ds: seq<Byte>, rest: seq<Byte>, base: nat)
    requires forall k :: 0 <= k < |ds| ==> IsDigitOf(ds[k], base)
    requires !IsDigitOf(At(rest, 0), base)
    ensures var t := pre + ds + rest;
      DigitsEnd(t, |pre|, base) == |pre| + |ds| && t[|pre|..|pre| + |ds|] == ds
  {
    DigitsSkipped(pre, ds, rest, base, |pre|);
  }

  // ----- the pieces of a printed number

  /** How the fields of a specifier split a printed number: spaces, zeros, body, spaces. */
  datatype Layout = Layout(spaces: nat, zeros: nat, trailing: nat)

  function LayoutOf(spec: Spec, length: nat): Layout {
    var zeros := PrecisionZeros(spec, length);
    var pad := Excess(spec.width, length + zeros);
    if spec.left then Layout(0, zeros, pad)
    else if spec.zero then Layout(0, pad + zeros, 0)
    else Layout(pad, zeros, 0)
  }

  lemma NumberLayout(spec: Spec, value: Quad, signed: bool)
    ensures var body := NumberBody(spec, value, signed);
      var l := LayoutOf(spec, |body|);
      NumberText(spec, value, signed) == Fill(SPACE, l.spaces) + Fill(ZERO, l.zeros) + body + Fill(SPACE, l.trailing)
  {
    hide NumberBody;
    var body := NumberBody(spec, value, signed);
    var l := LayoutOf(spec, |body|);
    var zeros := PrecisionZeros(spec, |body|);
    if spec.zero && !spec.left {
      assert Fill(ZERO, l.zeros) == Fill(ZERO, l.zeros - zeros) + Fill(ZERO, zeros);
    }
    assert NumberText(spec, value, signed) ==
      Fill(SPACE, l.spaces) + Fill(ZERO, l.zeros) + body + Fill(SPACE, l.trailing);
  }

  lemma Regroup(a: seq<Byte>, b: seq<Byte>, c: seq<Byte>, d: seq<Byte>, e: seq<Byte>)
    ensures a + b + c + d + e == a + (b + c) + (d + e)
  {
  }

  lemma RegroupPrefix(a: seq<Byte>, b: seq<Byte>, c: seq<Byte>, d: seq<Byte>, e: seq<Byte>)
    ensures a + b + ([ZERO, LOWER_X] + c) + d + e == a + (b + [ZERO]) + ([LOWER_X] + (c + (d + e)))
  {
  }

  lemma TrailingStops(n: nat, rest: seq<Byte>, base: nat)
    requires !IsDigitOf(At(rest, 0), base)
    ensures !IsDigitOf(At(Fill(SPACE, n) + rest, 0), base)
  {
    if n == 0 {
      assert Fill(SPACE, 0) + rest == rest;
    }
  }

  // ----- signed decimal

  /** The 64-bit pattern that %d passes on for an int. */
  function Pattern(v: int): Quad
    requires -0x8000_0000 <= v < 0x8000_0000
  {
    if v >= 0 then v else v + 0x1_0000_0000_0000_0000
  }

  function Abs(v: int): nat { if v >= 0 then v else -v }

  lemma DecimalBody(spec: Spec, v: int)
    requires spec.specifier == 0x64 && -0x8000_0000 <= v < 0x8000_0000
    ensures NumberBody(spec, Pattern(v), true) == (if v < 0 then [MINUS] else []) + Digits(Abs(v), 10, false)
  {
  }

  /** A non-negative number printed with %d and any flags, width and precision is read back exactly. */
  lemma NonNegativeReadsBack(spec: Spec, v: int, rest: seq<Byte>)
    requires spec.specifier == 0x64 && 0 <= v < 0x8000_0000
    requires !IsDigitOf(At(rest, 0), 10)
    ensures var text := NumberText(spec, Pattern(v), true);
      var l := LayoutOf(spec, |Digits(v, 10, false)|);
      Scanned(text + rest, 10, true) == Number(v, false, |text| - l.trailing)
  {
    hide Digits, Value, DigitValue, IsDigitOf, LayoutOf, Fill;
    DecimalBody(spec, v);
    NumberLayout(spec, Pattern(v), true);
    var body := Digits(v, 10, false);
    assert NumberBody(spec, Pattern(v), true) == body;
    var l := LayoutOf(spec, |body|);
    var ds := Fill(ZERO, l.zeros) + body;
    var tail := Fill(SPACE, l.trailing) + rest;
    hide NumberBody, NumberText, Scanned;
    DigitsRead(v, 10, false);
    DigitsAreDigits(v, 10, false);
    ZerosAndDigits(l.zeros, body, 10);
    ZerosValue(l.zeros, body, 10);
    TrailingStops(l.trailing, rest, 10);
    PlainDigits(l.spaces, ds, tail, 10);
    Regroup(Fill(SPACE, l.spaces), Fill(ZERO, l.zeros), body, Fill(SPACE, l.trailing), rest);
  }

  lemma ZeroIsDigit(base: nat)
    requires base >= 1
    ensures IsDigitOf(ZERO, base)
  {
  }

  lemma ZerosAndDigits(n: nat, ds: seq<Byte>, base: nat)
    requires base >= 1 && forall k :: 0 <= k < |ds| ==> IsDigitOf(ds[k], base)
    ensures forall k :: 0 <= k < n + |ds| ==> IsDigitOf((Fill(ZERO, n) + ds)[k], base)
  {
    hide IsDigitOf;
    ZeroIsDigit(base);
    forall k | 0 <= k < n + |ds|
      ensures IsDigitOf((Fill(ZERO, n) + ds)[k], base)
    {
      assert (Fill(ZERO, n) + ds)[k] == if k < n then ZERO else ds[k - n];
    }
  }

  lemma DigitIsNoSign(c: Byte, base: nat)
    requires IsDigitOf(c, base)
    ensures !IsSpace(c) && c != MINUS && c != PLUS && c != 0
  {
  }

  /** A scan that meets neither sign nor prefix after the spaces. */
  lemma AfterSpaces(t: seq<Byte>, n: nat, end: nat, base: nat, signed: bool)
    requires base == 10 || base == 16
    requires n <= end <= |t| && SpacesEnd(t, 0) == n && DigitsEnd(t, n, base) == end
    requires At(t, n) != MINUS && At(t, n) != PLUS && (base == 16 ==> !HexPrefix(t, n))
    ensures Scanned(t, base, signed) == Number(Value(t[n..end], base), false, end)
  {
    hide Value, SpacesEnd, DigitsEnd, HexPrefix;
  }

  /** Spaces and then digits of a base without prefix are scanned as the digits' value. */
  lemma PlainDigits(n: nat, ds: seq<Byte>, tail: seq<Byte>, base: nat)
    requires base == 10 && ds != []
    requires forall k :: 0 <= k < |ds| ==> IsDigitOf(ds[k], base)
    requires !IsDigitOf(At(tail, 0), base)
    ensures Scanned(Fill(SPACE, n) + ds + tail, base, true) == Number(Value(ds, base), false, n + |ds|)
  {
    hide Value, IsDigitOf, IsSpace, Fill, Scanned, SpacesEnd, DigitsEnd;
    var t := Fill(SPACE, n) + ds + tail;
    var u := ds + tail;
    DigitIsNoSign(ds[0], base);
    assert t == Fill(SPACE, n) + u && u[0] == ds[0];
    SpacesSkipped(n, u, 0);
    ReadDigits(Fill(SPACE, n), ds, tail, base);
    assert t[n] == ds[0];
    AfterSpaces(t, n, n + |ds|, base, true);
  }

  lemma MinusIsNoSpace()
    ensures !IsSpace(MINUS)
  {
  }

  /** A minus sign and then digits. */
  lemma MinusDigits(n: nat, ds: seq<Byte>, tail: seq<Byte>)
    requires ds != [] && forall k :: 0 <= k < |ds| ==> IsDigitOf(ds[k], 10)
    requires !IsDigitOf(At(tail, 0), 10)
    ensures Scanned(Fill(SPACE, n) + [MINUS] + ds + tail, 10, true) == Number(Value(ds, 10), true, n + 1 + |ds|)
  {
    hide Value, IsDigitOf, IsSpace, Fill, Scanned, SpacesEnd, DigitsEnd;
    var pre := Fill(SPACE, n) + [MINUS];
    var t := pre + ds + tail;
    var u := [MINUS] + ds + tail;
    assert t == Fill(SPACE, n) + u;
    MinusIsNoSpace();
    SpacesSkipped(n, u, 0);
    ReadDigits(pre, ds, tail, 10);
    assert t[n] == MINUS;
    AfterMinus(t, n, n + 1 + |ds|);
  }

  lemma AfterMinus(t: seq<Byte>, n: nat, end: nat)
    requires n + 1 <= end <= |t| && SpacesEnd(t, 0) == n && t[n] == MINUS && DigitsEnd(t, n + 1, 10) == end
    ensures Scanned(t, 10, true) == Number(Value(t[n + 1..end], 10), true, end)
  {
    hide Value, SpacesEnd, DigitsEnd;
  }

  /** Zeros and then a minus sign: the scan stops at the sign with nothing but zeros. */
  lemma ZerosThenMinus(n: nat, zeros: nat, tail: seq<Byte>)
    requires zeros > 0
    ensures Scanned(Fill(SPACE, n) + Fill(ZERO, zeros) + ([MINUS] + tail), 10, true) == Number(0, false, n + zeros)
  {
    ZeroIsDigit(10);
    ZerosValue(zeros, [], 10);
    assert Fill(ZERO, zeros) + [] == Fill(ZERO, zeros);
    PlainDigits(n, Fill(ZERO, zeros), [MINUS] + tail, 10);
  }

  lemma NegativeReadsBack(spec: Spec, v: int, rest: seq<Byte>)
    requires spec.specifier == 0x64 && -0x8000_0000 <= v < 0
    requires !IsDigitOf(At(rest, 0), 10) && LayoutOf(spec, 1 + |Digits(-v, 10, false)|).zeros == 0
    ensures var text := NumberText(spec, Pattern(v), true);
      Scanned(text + rest, 10, true) == Number(-v, true, |text| - LayoutOf(spec, 1 + |Digits(-v, 10, false)|).trailing)
  {
    hide Digits, Value, DigitValue, IsDigitOf, LayoutOf, Fill;
    hide NumberBody, NumberText, Scanned, At;
    DecimalBody(spec, v);
    NumberLayout(spec, Pattern(v), true);
    var ds := Digits(-v, 10, false);
    var l := LayoutOf(spec, 1 + |ds|);
    var tail := Fill(SPACE, l.trailing) + rest;
    DigitsRead(-v, 10, false);
    DigitsAreDigits(-v, 10, false);
    TrailingStops(l.trailing, rest, 10);
    MinusDigits(l.spaces, ds, tail);
    assert NumberText(spec, Pattern(v), true) + rest == Fill(SPACE, l.spaces) + [MINUS] + ds + tail;
  }

  lemma ZerosHideSign(spec: Spec, v: int, rest: seq<Byte>)
    requires spec.specifier == 0x64 && -0x8000_0000 <= v < 0
    requires LayoutOf(spec, 1 + |Digits(-v, 10, false)|).zeros > 0
    ensures var l := LayoutOf(spec, 1 + |Digits(-v, 10, false)|);
      Scanned(NumberText(spec, Pattern(v), true) + rest, 10, true) == Number(0, false, l.spaces + l.zeros)
  {
    hide Digits, Value, DigitValue, IsDigitOf, LayoutOf, Fill;
    hide NumberBody, NumberText, Scanned, At;
    DecimalBody(spec, v);
    NumberLayout(spec, Pattern(v), true);
    var ds := Digits(-v, 10, false);
    var l := LayoutOf(spec, 1 + |ds|);
    var tail := Fill(SPACE, l.trailing) + rest;
    ZerosThenMinus(l.spaces, l.zeros, ds + tail);
    assert NumberText(spec, Pattern(v), true) + rest ==
      Fill(SPACE, l.spaces) + Fill(ZERO, l.zeros) + ([MINUS] + (ds + tail));
  }

  /**
  A negative number printed with %d is read back exactly when no zero is printed in front of its sign.
  The minimum is included: its magnitude is what the text says, though it does not fit a long.
  */
  lemma NegativeReadsBackIff(spec: Spec, v: int, rest: seq<Byte>)
    requires spec.specifier == 0x64 && -0x8000_0000 <= v < 0
    requires !IsDigitOf(At(rest, 0), 10)
    ensures var text := NumberText(spec, Pattern(v), true);
      var l := LayoutOf(spec, 1 + |Digits(-v, 10, false)|);
      Scanned(text + rest, 10, true) == Number(-v, true, |text| - l.trailing) <==> l.zeros == 0
  {
    hide Scanned, NumberText, Digits;
    if LayoutOf(spec, 1 + |Digits(-v, 10, false)|).zeros == 0 {
      NegativeReadsBack(spec, v, rest);
    } else {
      ZerosHideSign(spec, v, rest);
    }
  }

  // ----- hexadecimal

  lemma HexBody(spec: Spec, w: Word)
    requires spec.specifier == 0x78 || spec.specifier == 0x58
    ensures NumberBody(spec, w, false) == Digits(w, 16, spec.specifier == 0x58)
  {
    assert [] + Digits(w, 16, spec.specifier == 0x58) == Digits(w, 16, spec.specifier == 0x58);
  }

  lemma PointerBody(spec: Spec, w: Word)
    requires spec.specifier == 0x70
    ensures NumberBody(spec, w, false) == [ZERO, LOWER_X] + Digits(w, 16, false)
  {
  }

  predicate IsX(c: Byte) { c == 0x78 || c == 0x58 }

  lemma DigitIsNoX(c: Byte, base: nat)
    requires IsDigitOf(c, base)
    ensures !IsX(c)
  {
  }

  /** Spaces and hexadecimal digits that no x follows. */
  lemma HexDigits(n: nat, ds: seq<Byte>, tail: seq<Byte>)
    requires ds != [] && forall k :: 0 <= k < |ds| ==> IsDigitOf(ds[k], 16)
    requires !IsDigitOf(At(tail, 0), 16) && !IsX(At(tail, 0))
    ensures Scanned(Fill(SPACE, n) + ds + tail, 16, false) == Number(Value(ds, 16), false, n + |ds|)
  {
    hide Value, IsDigitOf, IsSpace, Fill, Scanned, SpacesEnd, DigitsEnd;
    var t := Fill(SPACE, n) + ds + tail;
    var u := ds + tail;
    DigitIsNoSign(ds[0], 16);
    assert t == Fill(SPACE, n) + u && u[0] == ds[0];
    SpacesSkipped(n, u, 0);
    assert t[n] == ds[0] && At(t, n + 1) == if |ds| > 1 then ds[1] else At(tail, 0);
    if |ds| > 1 {
      DigitIsNoX(ds[1], 16);
    }
    ReadDigits(Fill(SPACE, n), ds, tail, 16);
    AfterSpaces(t, n, n + |ds|, 16, false);
  }

  lemma ZeroFacts()
    ensures !IsSpace(ZERO) && ZERO != PLUS
  {
  }

  lemma AfterPrefix(t: seq<Byte>, n: nat, end: nat)
    requires n + 2 <= end <= |t| && SpacesEnd(t, 0) == n && t[n] == ZERO && t[n + 1] == LOWER_X
      && DigitsEnd(t, n + 2, 16) == end
    ensures Scanned(t, 16, false) == Number(Value(t[n + 2..end], 16), false, end)
  {
    hide Value, SpacesEnd, DigitsEnd;
  }

  /** Spaces, 0x and hexadecimal digits. */
  lemma PrefixedDigits(n: nat, ds: seq<Byte>, tail: seq<Byte>)
    requires ds != [] && forall k :: 0 <= k < |ds| ==> IsDigitOf(ds[k], 16)
    requires !IsDigitOf(At(tail, 0), 16)
    ensures Scanned(Fill(SPACE, n) + [ZERO, LOWER_X] + ds + tail, 16, false) ==
      Number(Value(ds, 16), false, n + 2 + |ds|)
  {
    hide Value, IsDigitOf, IsSpace, Fill, Scanned, SpacesEnd, DigitsEnd;
    var pre := Fill(SPACE, n) + [ZERO, LOWER_X];
    var t := pre + ds + tail;
    var u := [ZERO, LOWER_X] + ds + tail;
    assert t == Fill(SPACE, n) + u;
    ZeroFacts();
    SpacesSkipped(n, u, 0);
    assert t[n] == u[0] && t[n + 1] == u[1];
    ReadDigits(pre, ds, tail, 16);
    AfterPrefix(t, n, n + 2 + |ds|);
  }

  lemma TrailingIsNoX(n: nat, rest: seq<Byte>)
    requires !IsX(At(rest, 0))
    ensures !IsX(At(Fill(SPACE, n) + rest, 0))
  {
    if n == 0 {
      assert Fill(SPACE, 0) + rest == rest;
    }
  }

  /** A word printed with %x or %X and any flags, width and precision is read back by strtoul in base 16. */
  lemma HexReadsBack(spec: Spec, w: Word, rest: seq<Byte>)
    requires spec.specifier == 0x78 || spec.specifier == 0x58
    requires !IsDigitOf(At(rest, 0), 16) && !IsX(At(rest, 0))
    ensures var text := NumberText(spec, w, false);
      var l := LayoutOf(spec, |Digits(w, 16, spec.specifier == 0x58)|);
      Scanned(text + rest, 16, false) == Number(w, false, |text| - l.trailing)
  {
    hide Digits, Value, DigitValue, IsDigitOf, LayoutOf, Fill;
    HexBody(spec, w);
    NumberLayout(spec, w, false);
    var body := Digits(w, 16, spec.specifier == 0x58);
    var l := LayoutOf(spec, |body|);
    var ds := Fill(ZERO, l.zeros) + body;
    var tail := Fill(SPACE, l.trailing) + rest;
    hide NumberBody, NumberText, Scanned;
    DigitsRead(w, 16, spec.specifier == 0x58);
    DigitsAreDigits(w, 16, spec.specifier == 0x58);
    ZerosAndDigits(l.zeros, body, 16);
    ZerosValue(l.zeros, body, 16);
    TrailingStops(l.trailing, rest, 16);
    TrailingIsNoX(l.trailing, rest);
    HexDigits(l.spaces, ds, tail);
    Regroup(Fill(SPACE, l.spaces), Fill(ZERO, l.zeros), body, Fill(SPACE, l.trailing), rest);
  }

  lemma PointerReadsBack(spec: Spec, w: Word, rest: seq<Byte>)
    requires spec.specifier == 0x70 && LayoutOf(spec, 2 + |Digits(w, 16, false)|).zeros == 0
    requires !IsDigitOf(At(rest, 0), 16)
    ensures var text := NumberText(spec, w, false);
      Scanned(text + rest, 16, false) == Number(w, false, |text| - LayoutOf(spec, 2 + |Digits(w, 16, false)|).trailing)
  {
    hide Digits, Value, DigitValue, IsDigitOf, LayoutOf, Fill;
    hide NumberBody, NumberText, Scanned, At;
    PointerBody(spec, w);
    NumberLayout(spec, w, false);
    var ds := Digits(w, 16, false);
    var l := LayoutOf(spec, 2 + |ds|);
    var tail := Fill(SPACE, l.trailing) + rest;
    DigitsRead(w, 16, false);
    DigitsAreDigits(w, 16, false);
    TrailingStops(l.trailing, rest, 16);
    PrefixedDigits(l.spaces, ds, tail);
    RegroupPointer(Fill(SPACE, l.spaces), Fill(ZERO, l.zeros), ds, Fill(SPACE, l.trailing), rest);
  }

  lemma RegroupPointer(a: seq<Byte>, b: seq<Byte>, c: seq<Byte>, d: seq<Byte>, e: seq<Byte>)
    requires b == []
    ensures a + b + ([ZERO, LOWER_X] + c) + d + e == a + [ZERO, LOWER_X] + c + (d + e)
  {
  }

  lemma ZerosHidePrefix(spec: Spec, w: Word, rest: seq<Byte>)
    requires spec.specifier == 0x70 && LayoutOf(spec, 2 + |Digits(w, 16, false)|).zeros > 0
    ensures var l := LayoutOf(spec, 2 + |Digits(w, 16, false)|);
      Scanned(NumberText(spec, w, false) + rest, 16, false) == Number(0, false, l.spaces + l.zeros + 1)
  {
    hide Digits, Value, DigitValue, IsDigitOf, LayoutOf, Fill;
    PointerBody(spec, w);
    NumberLayout(spec, w, false);
    var ds := Digits(w, 16, false);
    var l := LayoutOf(spec, 2 + |ds|);
    hide NumberBody, NumberText, Scanned, PrecisionZeros, Excess;
    var tail := [LOWER_X] + (ds + (Fill(SPACE, l.trailing) + rest));
    var zeros := Fill(ZERO, l.zeros) + [ZERO];
    ZeroIsDigit(16);
    ZerosAndDigits(l.zeros, [ZERO], 16);
    LeadingZeros(l.zeros);
    LowerXIsNoDigit();
    ZerosThenX(l.spaces, zeros, tail);
    ZerosValue(l.zeros, [ZERO], 16);
    ZeroValue();
    RegroupPrefix(Fill(SPACE, l.spaces), Fill(ZERO, l.zeros), ds, Fill(SPACE, l.trailing), rest);
  }

  lemma LeadingZeros(n: nat)
    requires n > 0
    ensures var s := Fill(ZERO, n) + [ZERO]; s[0] == s[1] == ZERO
  {
  }

  lemma LowerXIsNoDigit()
    ensures !IsDigitOf(LOWER_X, 16)
  {
  }

  lemma ZeroValue()
    ensures Value([ZERO], 16) == 0
  {
    assert [ZERO][..0] == [];
  }

  /** At least two zeros before an x hide the prefix: the scan stops at the x. */
  lemma ZerosThenX(n: nat, ds: seq<Byte>, tail: seq<Byte>)
    requires |ds| >= 2 && ds[0] == ds[1] == ZERO && forall k :: 0 <= k < |ds| ==> IsDigitOf(ds[k], 16)
    requires !IsDigitOf(At(tail, 0), 16)
    ensures Scanned(Fill(SPACE, n) + ds + tail, 16, false) == Number(Value(ds, 16), false, n + |ds|)
  {
    hide Value, IsDigitOf, IsSpace, Fill, Scanned, SpacesEnd, DigitsEnd;
    var t := Fill(SPACE, n) + ds + tail;
    var u := ds + tail;
    ZeroFacts();
    assert t == Fill(SPACE, n) + u && u[0] == ZERO;
    SpacesSkipped(n, u, 0);
    assert t[n] == ds[0] && t[n + 1] == ds[1];
    ReadDigits(Fill(SPACE, n), ds, tail, 16);
    AfterSpaces(t, n, n + |ds|, 16, false);
  }

  /** A pointer printed with %p is read back exactly when no zero is printed in front of its 0x. */
  lemma PointerReadsBackIff(spec: Spec, w: Word, rest: seq<Byte>)
    requires spec.specifier == 0x70 && !IsDigitOf(At(rest, 0), 16)
    ensures var text := NumberText(spec, w, false);
      var l := LayoutOf(spec, 2 + |Digits(w, 16, false)|);
      Scanned(text + rest, 16, false) == Number(w, false, |text| - l.trailing) <==> l.zeros == 0
  {
    hide Scanned, Digits;
    var l := LayoutOf(spec, 2 + |Digits(w, 16, false)|);
    if l.zeros == 0 {
      PointerReadsBack(spec, w, rest);
    } else {
      ZerosHidePrefix(spec, w, rest);
      NumberLayout(spec, w, false);
      PointerBody(spec, w);
      hide NumberText, NumberBody;
      assert |NumberText(spec, w, false)| == l.spaces + l.zeros + 2 + |Digits(w, 16, false)| + l.trailing;
    }
  }

  // ----- through the printer

  /** The int that a word of the argument list holds. */
  function AsInt(w: Word): int { if w < 0x8000_0000 then w else w - 0x1_0000_0000 }

  const STAR_D: seq<Byte> := [0x25, 0x2A, 0x64]

  lemma StarDText(args: Args, strings: Strings)
    ensures Render(STAR_D, 0, args, 0, strings) ==
      NumberText(Spec(false, false, args(0), UNSPECIFIED, Plain, 0x64), SignExtend(args(1)), true)
  {
    hide NumberText;
    var d := ParseFormat(STAR_D, 1, args, 0);
    assert STAR_D[1..1] == [];
    assert d == Directive(Spec(false, false, args(0), UNSPECIFIED, Plain, 0x64), 3, 1);
    var text := NumberText(d.spec, SignExtend(args(1)), true);
    assert Render(STAR_D, 0, args, 0, strings) == text + Render(STAR_D, 3, args, 2, strings);
    assert text + [] == text;
  }

  /** Whatever width is passed to "%*d", strtol gives back the number and stops at the end of the text. */
  lemma StarDReadsBack(args: Args, strings: Strings)
    ensures var text := Render(STAR_D, 0, args, 0, strings);
      Scanned(text, 10, true) == Number(Abs(AsInt(args(1))), AsInt(args(1)) < 0, |text|)
  {
    hide NumberText, Scanned, Render;
    StarDText(args, strings);
    var spec := Spec(false, false, args(0), UNSPECIFIED, Plain, 0x64);
    var v := AsInt(args(1));
    var text := NumberText(spec, SignExtend(args(1)), true);
    assert SignExtend(args(1)) == Pattern(v);
    assert text + [] == text;
    NulIsNoDigit(10);
    if v >= 0 {
      NonNegativeReadsBack(spec, v, []);
    } else {
      NegativeReadsBack(spec, v, []);
    }
  }

  lemma NulIsNoDigit(base: nat)
    ensures !IsDigitOf(0, base)
  {
  }
}

/** The printer itself: loops that write into the caller's buffer and count what did not fit. */
module SnprintfRun {
  import opened Machine
  import opened Arith
  import opened CString
  import opened Snprintf

  /** The buffer holds the front of `out` that leaves room for a terminator, and is otherwise untouched. */
  ghost predicate Holds(str: array<Byte>, size: nat, out: seq<Byte>, was: seq<Byte>)
    reads str
  {
    && 1 <= size <= str.Length == |was|
    && var m := Least(|out|, size - 1);
    && str[..m] == out[..m] && str[m..] == was[m..]
  }

  method PutChar(str: array<Byte>, size: nat, pos0: nat, c: Byte, ghost out: seq<Byte>, ghost was: seq<Byte>)
    returns (pos: nat)
    requires Holds(str, size, out, was) && pos0 == |out|
    modifies str
    ensures Holds(str, size, out + [c], was) && pos == |out + [c]|
  {
    if pos0 < size - 1 {
      str[pos0] := c;
      assert str[..pos0 + 1] == str[..pos0] + [c];
      assert str[pos0 + 1..] == was[pos0 + 1..];
    }
    pos := pos0 + 1;
  }

  /** One of the padding loops. */
  method PutFill(str: array<Byte>, size: nat, pos0: nat, c: Byte, n: nat, ghost out: seq<Byte>, ghost was: seq<Byte>)
    returns (pos: nat)
    requires Holds(str, size, out, was) && pos0 == |out|
    modifies str
    ensures Holds(str, size, out + Fill(c, n), was) && pos == |out + Fill(c, n)|
  {
    hide Holds;
    pos := pos0;
    var i := 0;
    assert out + Fill(c, 0) == out;
    while i < n
      invariant 0 <= i <= n && pos == |out + Fill(c, i)|
      invariant Holds(str, size, out + Fill(c, i), was)
    {
      pos := PutChar(str, size, pos, c, out + Fill(c, i), was);
      assert out + Fill(c, i) + [c] == out + Fill(c, i + 1);
      i := i + 1;
    }
  }

  /** A loop that prints n characters of a string. */
  method PutText(str: array<Byte>, size: nat, pos0: nat, s: seq<Byte>, n: nat, ghost out: seq<Byte>,
          ghost was: seq<Byte>)
    returns (pos: nat)
    requires Holds(str, size, out, was) && pos0 == |out| && n <= |s|
    modifies str
    ensures Holds(str, size, out + s[..n], was) && pos == |out + s[..n]|
  {
    hide Holds;
    pos := pos0;
    var i := 0;
    assert out + s[..0] == out;
    while i < n
      invariant 0 <= i <= n && pos == |out + s[..i]|
      invariant Holds(str, size, out + s[..i], was)
    {
      pos := PutChar(str, size, pos, s[i], out + s[..i], was);
      assert out + s[..i] + [s[i]] == out + s[..i + 1];
      i := i + 1;
    }
  }

  /** Text with its padding, as put_string and put_number both lay it out. */
  method PutField(str: array<Byte>, size: nat, pos0: nat, spec: Spec, zeros: nat, s: seq<Byte>, n: nat, pad: nat,
          ghost out: seq<Byte>, ghost was: seq<Byte>)
    returns (pos: nat)
    requires Holds(str, size, out, was) && pos0 == |out| && n <= |s|
    modifies str
    ensures var text := Field(spec, Fill(ZERO, zeros) + s[..n], pad);
      Holds(str, size, out + text, was) && pos == |out + text|
  {
    hide Holds;
    var padChar: Byte := if spec.zero && !spec.left then ZERO else SPACE;
    pos := pos0;
    ghost var done := out;
    if !spec.left {
      pos := PutFill(str, size, pos, padChar, pad, done, was);
      done := done + Fill(padChar, pad);
    }
    pos := PutFill(str, size, pos, ZERO, zeros, done, was);
    done := done + Fill(ZERO, zeros);
    pos := PutText(str, size, pos, s, n, done, was);
    done := done + s[..n];
    if spec.left {
      pos := PutFill(str, size, pos, SPACE, pad, done, was);
      done := done + Fill(SPACE, pad);
    }
    assert done == out + Field(spec, Fill(ZERO, zeros) + s[..n], pad);
  }

  method PutString(str: array<Byte>, size: nat, pos0: nat, s: seq<Byte>, spec: Spec, ghost out: seq<Byte>,
          ghost was: seq<Byte>)
    returns (pos: nat)
    requires Holds(str, size, out, was) && pos0 == |out|
    modifies str
    ensures Holds(str, size, out + StringText(spec, s), was) && pos == |out + StringText(spec, s)|
  {
    hide Holds;
    var len := 0;
    while At(s, len) != 0 && (spec.precision == UNSPECIFIED || len < spec.precision)
      invariant len <= |Text(s)| && (spec.precision == UNSPECIFIED || len <= spec.precision)
      decreases |s| - len
    {
      assert len < |Text(s)| by { TextGoesOn(s, len); }
      len := len + 1;
    }
    TextEnds(s, len);
    StringTextIs(spec, s, len);
    var pad := if spec.width > len then spec.width - len else 0;
    pos := PutField(str, size, pos0, spec, 0, s, len, pad, out, was);
    assert Fill(ZERO, 0) + s[..len] == s[..len];
  }

  lemma StringTextIs(spec: Spec, s: seq<Byte>, len: nat)
    requires len <= |Text(s)| && (spec.precision == UNSPECIFIED || len <= spec.precision)
    requires len == |Text(s)| || (spec.precision != UNSPECIFIED && len == spec.precision)
    ensures StringText(spec, s) == Field(spec, s[..len], Excess(spec.width, len))
  {
    hide Field;
    assert s[..len] == Text(s)[..len];
    assert Text(s)[..|Text(s)|] == Text(s);
  }

  lemma TextGoesOn(s: seq<Byte>, i: nat)
    requires i <= |Text(s)| && At(s, i) != 0
    ensures i < |Text(s)|
  {
  }

  lemma TextEnds(s: seq<Byte>, i: nat)
    requires i <= |Text(s)|
    ensures s[..i] == Text(s)[..i]
    ensures At(s, i) == 0 ==> i == |Text(s)|
  {
  }

  // ----- numbers

  function Power(base: nat, n: nat): nat {
    if n == 0 then 1 else base * Power(base, n - 1)
  }

  lemma {:induction false} DigitsBound(v: nat, base: nat, upper: bool, n: nat)
    requires 2 <= base <= 16 && n >= 1 && v < Power(base, n)
    ensures |Digits(v, base, upper)| <= n
  {
    hide Digits, Power;
    DigitsLength(v, base, upper);
    if v >= base {
      QuotientZero(v, base);
      if n == 1 {
        PowerOne(base);
      } else {
        PowerStep(base, n);
        DivBelow(v, base, Power(base, n - 1));
        DigitsBound(v / base, base, upper, n - 1);
      }
    }
  }

  lemma PowerOne(base: nat)
    ensures Power(base, 1) == base
  {
    assert Power(base, 1) == base * Power(base, 0);
  }

  lemma PowerStep(base: nat, n: nat)
    requires n > 0
    ensures Power(base, n) == base * Power(base, n - 1)
  {
  }

  lemma DigitsLength(v: nat, base: nat, upper: bool)
    requires 2 <= base <= 16
    ensures |Digits(v, base, upper)| == if v < base then 1 else |Digits(v / base, base, upper)| + 1
  {
    hide DigitChar;
  }

  lemma DivBelow(v: nat, base: nat, p: nat)
    requires base >= 2 && v < base * p
    ensures v / base < p
  {
    assert v == base * (v / base) + v % base;
    MulMonotone(base, p, v / base);
  }

  lemma MulMonotone(base: nat, p: nat, q: nat)
    ensures p <= q ==> base * p <= base * q
  {
    if p <= q {
      assert base * q == base * p + base * (q - p);
    }
  }

  lemma MagnitudeFits(value: Quad, signed: bool, base: nat, upper: bool)
    requires base == 10 || base == 16
    ensures |Digits(Magnitude(value, signed), base, upper)| <= 20
  {
    PowerOf10();
    PowerOf16();
    hide Power, Digits;
    DigitsBound(Magnitude(value, signed), base, upper, 20);
  }

  lemma PowerOf10()
    ensures Power(10, 20) > 0x1_0000_0000_0000_0000
  {
    assert Power(10, 5) == 100000;
    assert Power(10, 10) == 10000000000;
    assert Power(10, 15) == 1000000000000000;
  }

  lemma PowerOf16()
    ensures Power(16, 20) > 0x1_0000_0000_0000_0000
  {
    assert Power(16, 5) == 0x10_0000;
    assert Power(16, 10) == 0x100_0000_0000;
    assert Power(16, 15) == 0x1000_0000_0000_0000;
  }

  /** The digits that precede those already written when v is left to print. */
  ghost function Front(v: nat, base: nat, upper: bool): seq<Byte>
    requires 2 <= base <= 16
  {
    if v == 0 then [] else Digits(v, base, upper)
  }

  lemma DigitsStep(v: nat, base: nat, upper: bool)
    requires 2 <= base <= 16
    ensures Digits(v, base, upper) == Front(v / base, base, upper) + [DigitChar(v % base, upper)]
  {
    hide DigitChar;
    QuotientZero(v, base);
  }

  /** The do-while loop: write the digits backwards from the end of the buffer. */
  method DigitsBackwards(buf: array<Byte>, value: nat, base: nat, upper: bool) returns (p: nat)
    requires buf.Length == 32 && 2 <= base <= 16 && |Digits(value, base, upper)| <= 20
    modifies buf
    ensures 11 <= p < 31 && buf[p..31] == Digits(value, base, upper)
  {
    hide DigitChar, Digits, Front;
    DigitsStep(value, base, upper);
    p := 31;
    var v: nat := value;
    p := p - 1;
    buf[p] := DigitChar(v % base, upper);
    v := v / base;
    assert buf[p..31] == [buf[p]];
    while v != 0
      invariant 11 <= p < 31
      invariant Digits(value, base, upper) == Front(v, base, upper) + buf[p..31]
      decreases v
    {
      FrontStep(v, base, upper);
      ghost var tail := buf[p..31];
      p := p - 1;
      buf[p] := DigitChar(v % base, upper);
      assert buf[p..31] == [buf[p]] + tail;
      QuotientZero(v, base);
      v := v / base;
    }
    FrontZero(base, upper);
  }

  lemma FrontStep(v: nat, base: nat, upper: bool)
    requires 2 <= base <= 16 && v > 0
    ensures Front(v, base, upper) == Front(v / base, base, upper) + [DigitChar(v % base, upper)]
  {
    DigitsStep(v, base, upper);
  }

  lemma FrontZero(base: nat, upper: bool)
    requires 2 <= base <= 16
    ensures Front(0, base, upper) == []
  {
  }

  /** Sign or 0x and the digits, written backwards into the local buffer. */
  method BuildBody(buf: array<Byte>, value: Quad, signed: bool, spec: Spec) returns (p: nat)
    requires buf.Length == 32
    modifies buf
    ensures p <= 31 && buf[p..31] == NumberBody(spec, value, signed)
  {
    hide Digits;
    var negative := signed && value >= 0x8000_0000_0000_0000;
    var v: nat := if negative then 0x1_0000_0000_0000_0000 - value else value;
    var base := if spec.specifier == 0x78 || spec.specifier == 0x58 || spec.specifier == 0x70 then 16 else 10;
    MagnitudeFits(value, signed, base, spec.specifier == 0x58);
    p := DigitsBackwards(buf, v, base, spec.specifier == 0x58);
    ghost var digits := buf[p..31];
    if negative {
      p := p - 1;
      buf[p] := MINUS;
      assert buf[p..31] == [MINUS] + digits;
    } else if spec.specifier == 0x70 {
      p := p - 1;
      buf[p] := LOWER_X;
      p := p - 1;
      buf[p] := ZERO;
      assert buf[p..31] == [ZERO, LOWER_X] + digits;
    }
  }

  method PutNumber(str: array<Byte>, size: nat, pos0: nat, value: Quad, signed: bool, spec: Spec,
          ghost out: seq<Byte>, ghost was: seq<Byte>)
    returns (pos: nat)
    requires Holds(str, size, out, was) && pos0 == |out|
    modifies str
    ensures Holds(str, size, out + NumberText(spec, value, signed), was)
      && pos == |out + NumberText(spec, value, signed)|
  {
    hide Holds, NumberBody, Field;
    var buf := new Byte[32](_ => 0);
    var p := BuildBody(buf, value, signed, spec);
    var body := buf[p..31];
    var len := 31 - p;
    var prec := if spec.precision != UNSPECIFIED then spec.precision else 0;
    var zeroPad := if prec > len then prec - len else 0;
    var widthPad := if spec.width > len + zeroPad then spec.width - (len + zeroPad) else 0;
    pos := PutField(str, size, pos0, spec, zeroPad, body, len, widthPad, out, was);
    assert body[..len] == body;
  }

  // ----- formats

  /** Read a quantity: an argument for *, otherwise decimal digits. */
  method ReadQuantity(fmt: seq<Byte>, i: nat, args: Args, k: nat) returns (p: Parsed)
    requires i <= |fmt|
    ensures p == Quantity(fmt, i, args, k)
  {
    if At(fmt, i) == STAR {
      return Parsed(args(k), i + 1, k + 1);
    }
    var value, j := 0, i;
    while IsDigit(At(fmt, j))
      invariant i <= j <= NumberEnd(fmt, i)
      invariant NumberEnd(fmt, j) == NumberEnd(fmt, i)
      invariant value == NumberIn(fmt, i, j)
      decreases |fmt| - j
    {
      value := Wrap32(value * 10 + (At(fmt, j) - ZERO));
      j := j + 1;
    }
    p := Parsed(value, j, k);
  }

  method ReadFlags(fmt: seq<Byte>, i: nat) returns (left: bool, zero: bool, j: nat)
    requires i <= |fmt|
    ensures j == FlagsEnd(fmt, i) && left == (MINUS in fmt[i..j]) && zero == (ZERO in fmt[i..j])
  {
    left, zero, j := false, false, i;
    while At(fmt, j) == MINUS || At(fmt, j) == ZERO
      invariant i <= j <= FlagsEnd(fmt, i) && FlagsEnd(fmt, j) == FlagsEnd(fmt, i)
      invariant left == (MINUS in fmt[i..j]) && zero == (ZERO in fmt[i..j])
      decreases |fmt| - j
    {
      assert fmt[i..j + 1] == fmt[i..j] + [fmt[j]];
      if At(fmt, j) == MINUS {
        left := true;
      }
      if At(fmt, j) == ZERO {
        zero := true;
      }
      j := j + 1;
    }
  }

  method ReadFormat(fmt: seq<Byte>, i: nat, args: Args, k: nat) returns (d: Directive)
    requires i <= |fmt|
    ensures d == ParseFormat(fmt, i, args, k)
  {
    hide Quantity, FlagsEnd;
    var left, zero, f := ReadFlags(fmt, i);
    var width := ReadQuantity(fmt, f, args, k);
    var precision := Parsed(UNSPECIFIED, width.i, width.k);
    if At(fmt, width.i) == DOT {
      precision := ReadQuantity(fmt, width.i + 1, args, width.k);
    }
    var at, length := precision.i, Plain;
    if At(fmt, at) == 0x6C {
      length := Long;
      at := at + 1;
      if At(fmt, at) == 0x6C {
        length := LongLong;
        at := at + 1;
      }
    }
    var specifier := At(fmt, at);
    if specifier != 0 {
      at := at + 1;
    }
    d := Directive(Spec(left, zero, width.value, precision.value, length, specifier), at, precision.k);
  }

  /** The switch over the specifier. */
  method PutDirective(str: array<Byte>, size: nat, pos0: nat, spec: Spec, args: Args, k: nat, strings: Strings,
          ghost out: seq<Byte>, ghost was: seq<Byte>)
    returns (pos: nat, next: nat)
    requires Holds(str, size, out, was) && pos0 == |out|
    modifies str
    ensures var c := Convert(spec, args, k, strings);
      Holds(str, size, out + c.0, was) && pos == |out + c.0| && next == c.1
  {
    hide Holds, NumberText, StringText;
    if spec.specifier == 0x73 {
      var s := if args(k) == 0 then NULL_TEXT else strings(args(k));
      pos := PutString(str, size, pos0, s, spec, out, was);
      next := k + 1;
    } else if spec.specifier == 0x63 {
      pos := PutChar(str, size, pos0, args(k) % 256, out, was);
      next := k + 1;
    } else if spec.specifier == 0x64 {
      if spec.length == LongLong {
        pos := PutNumber(str, size, pos0, QuadArg(args, k), true, spec, out, was);
        next := k + 2;
      } else {
        pos := PutNumber(str, size, pos0, SignExtend(args(k)), true, spec, out, was);
        next := k + 1;
      }
    } else if spec.specifier == 0x75 || spec.specifier == 0x78 || spec.specifier == 0x58 {
      if spec.length == LongLong {
        pos := PutNumber(str, size, pos0, QuadArg(args, k), false, spec, out, was);
        next := k + 2;
      } else {
        pos := PutNumber(str, size, pos0, args(k), false, spec, out, was);
        next := k + 1;
      }
    } else if spec.specifier == 0x70 {
      pos := PutNumber(str, size, pos0, args(k), false, spec, out, was);
      next := k + 1;
    } else {
      pos := PutChar(str, size, pos0, spec.specifier, out, was);
      next := k;
    }
  }

  /**
  For every format and arguments and every size of at least 1: the result is the length of the whole
  output, the buffer holds as much of its front as leaves room for a NUL, the NUL, and nothing else changed.
  */
  method Vsnprintf(str: array<Byte>, size: Word, fmt: seq<Byte>, args: Args, strings: Strings) returns (r: Word)
    requires size <= str.Length && |Render(fmt, 0, args, 0, strings)| < 0x1_0000_0000
    modifies str
    ensures size == 0 ==> r == 0 && str[..] == old(str[..])
    ensures size > 0 ==>
      var out := Render(fmt, 0, args, 0, strings);
      var m := Least(|out|, size - 1);
      r == |out| && str[..] == out[..m] + [0] + old(str[..])[m + 1..]
  {
    if size == 0 {
      return 0;
    }
    ghost var was := str[..];
    assert Holds(str, size, [], was);
    hide Holds, Render;
    r := PutAll(str, size, fmt, args, strings, was);
    Terminate(str, size, r, Render(fmt, 0, args, 0, strings), was);
  }

  /** The NUL behind the output, or at the end of the buffer when the output is longer. */
  method Terminate(str: array<Byte>, size: nat, pos: nat, ghost out: seq<Byte>, ghost was: seq<Byte>)
    requires Holds(str, size, out, was) && pos == |out|
    modifies str
    ensures var m := Least(|out|, size - 1); str[..] == out[..m] + [0] + was[m + 1..]
  {
    ghost var m := Least(|out|, size - 1);
    assert str[..] == str[..m] + str[m..];
    if pos < size {
      str[pos] := 0;
    } else {
      str[size - 1] := 0;
    }
    assert str[m + 1..] == was[m + 1..];
    assert str[..] == str[..m] + [str[m]] + str[m + 1..];
  }

  /** The loop over the format. */
  method PutAll(str: array<Byte>, size: nat, fmt: seq<Byte>, args: Args, strings: Strings, ghost was: seq<Byte>)
    returns (pos: nat)
    requires Holds(str, size, [], was)
    modifies str
    ensures var out := Render(fmt, 0, args, 0, strings); Holds(str, size, out, was) && pos == |out|
  {
    hide Holds, ParseFormat, Convert;
    ghost var out: seq<Byte> := [];
    ghost var whole := Render(fmt, 0, args, 0, strings);
    pos := 0;
    var i, k := 0, 0;
    assert [] + whole == whole;
    while At(fmt, i) != 0
      invariant i <= |fmt| && pos == |out| && Holds(str, size, out, was)
      invariant whole == out + Render(fmt, i, args, k, strings)
      decreases |fmt| - i
    {
      if fmt[i] != PERCENT {
        pos := PutChar(str, size, pos, fmt[i], out, was);
        out := out + [fmt[i]];
        i := i + 1;
      } else {
        var d := ReadFormat(fmt, i + 1, args, k);
        ghost var c := Convert(d.spec, args, d.k, strings);
        pos, k := PutDirective(str, size, pos, d.spec, args, d.k, strings, out, was);
        assert out + (c.0 + Render(fmt, d.i, args, k, strings)) == out + c.0 + Render(fmt, d.i, args, k, strings);
        out := out + c.0;
        i := d.i;
      }
    }
    assert out + [] == out;
  }
}

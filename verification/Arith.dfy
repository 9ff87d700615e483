/** Division with a variable divisor. */
module Arith {
  lemma PlusSize(x: nat, size: nat)
    requires size > 0
    ensures (x + size) % size == x % size
  {
    var q, r := x / size, x % size;
    assert x == size * q + r && x + size == size * (q + 1) + r;
    DivisionUnique(x + size, size, q + 1, r);
  }

  lemma OneMore(n: nat, size: nat)
    ensures (n + 1) * size == n * size + size
  {
  }

  lemma DivisionUnique(x: nat, size: nat, q: nat, r: nat)
    requires size > 0 && x == size * q + r && r < size
    ensures x % size == r && x / size == q
  {
    var q', r' := x / size, x % size;
    assert x == size * q' + r' && 0 <= r' < size;
    if q' < q {
      MulAtLeast(size, q, q');
    } else if q < q' {
      MulAtLeast(size, q', q);
    }
  }

  lemma MulAtLeast(size: nat, a: nat, b: nat)
    requires a > b
    ensures size * a >= size * b + size
  {
    var d := a - b - 1;
    assert size * a == size * b + size + size * d;
    assert size * d >= 0;
  }

  lemma MultipleRemainder(size: nat, q: nat)
    requires size > 0
    ensures (size * q) % size == 0
  {
    DivisionUnique(size * q, size, q, 0);
  }

  lemma QuotientZero(v: nat, base: nat)
    requires 2 <= base
    ensures v / base == 0 <==> v < base
    ensures v > 0 ==> v / base < v
  {
    var q, r := v / base, v % base;
    assert v == base * q + r;
    if q > 0 {
      assert base * q >= 2 * q;
    }
  }
}

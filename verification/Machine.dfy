/** The integers of the 32-bit target: words, bytes, and arithmetic that wraps. */
module Machine {
  const WORD_LIMIT := 0x1_0000_0000

  type Word = w: int | 0 <= w < 0x1_0000_0000
  type Byte = b: int | 0 <= b < 256

  /** The value kept by a 32-bit unsigned variable. */
  function Wrap32(x: int): Word {
    x % 0x1_0000_0000
  }

  datatype Option<T> = None | Some(value: T)

  function Least(a: nat, b: nat): nat { if a < b then a else b }

  function Fill<T>(x: T, n: nat): (r: seq<T>)
    ensures |r| == n
  {
    seq(n, _ => x)
  }

  // Little-endian numbers in a sequence of bytes.

  function U16(s: seq<Byte>, i: nat): int
    requires i + 2 <= |s|
  {
    s[i] as int + 256 * s[i + 1] as int
  }

  function U32(s: seq<Byte>, i: nat): Word
    requires i + 4 <= |s|
  {
    U16(s, i) + 65536 * U16(s, i + 2)
  }

  function Le16(v: int): seq<Byte>
    requires 0 <= v < 65536
  {
    [v % 256, v / 256]
  }

  function Le32(v: Word): seq<Byte> {
    Le16(v % 65536) + Le16(v / 65536)
  }

  lemma WordComesBack(s: seq<Byte>, i: nat, v: Word)
    requires i + 4 <= |s| && s[i..i + 4] == Le32(v)
    ensures U32(s, i) == v
  {
    var w := s[i..i + 4];
    assert w[0] == s[i] && w[1] == s[i + 1] && w[2] == s[i + 2] && w[3] == s[i + 3];
  }

  lemma HalfComesBack(s: seq<Byte>, i: nat, v: int)
    requires 0 <= v < 65536 && i + 2 <= |s| && s[i..i + 2] == Le16(v)
    ensures U16(s, i) == v
  {
    var w := s[i..i + 2];
    assert w[0] == s[i] && w[1] == s[i + 1];
  }
}

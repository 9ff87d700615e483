/** The string and memory routines of the C library that the kernel's file systems rest on. */
module CString {
  import opened Machine

  /** A C string as the bytes before its terminator. */
  ghost predicate NulFree(s: seq<Byte>) {
    forall i :: 0 <= i < |s| ==> s[i] != 0
  }

  /** Byte i of the array that holds string s and its terminator. */
  function At(s: seq<Byte>, i: nat): Byte {
    if i < |s| then s[i] else 0
  }

  /** The C string stored at the start of the bytes s: everything before the first NUL. */
  function Text(s: seq<Byte>): (r: seq<Byte>)
    ensures r <= s && NulFree(r)
    ensures |r| < |s| ==> s[|r|] == 0
  {
    if s == [] || s[0] == 0 then [] else [s[0]] + Text(s[1..])
  }

  lemma {:induction false} TextOf(s: seq<Byte>, t: seq<Byte>)
    requires NulFree(s) && (t == [] || t[0] == 0)
    ensures Text(s + t) == s
  {
    if s == [] {
      assert s + t == t;
    } else {
      assert (s + t)[1..] == s[1..] + t;
      TextOf(s[1..], t);
    }
  }

  // ----- memmove

  /** Copies n bytes between possibly overlapping places of one buffer, choosing the safe direction. */
  method Memmove(a: array<Byte>, dst: nat, src: nat, n: nat)
    requires dst + n <= a.Length && src + n <= a.Length
    modifies a
    ensures a[dst..dst + n] == old(a[src..src + n])
    ensures forall k :: 0 <= k < a.Length && !(dst <= k < dst + n) ==> a[k] == old(a[k])
  {
    ghost var was := a[..];
    if dst < src {
      var i := 0;
      while i < n
        invariant 0 <= i <= n
        invariant forall k :: dst <= k < dst + i ==> a[k] == was[k - dst + src]
        invariant forall k :: 0 <= k < a.Length && !(dst <= k < dst + i) ==> a[k] == was[k]
      {
        a[dst + i] := a[src + i];
        i := i + 1;
      }
    } else {
      var i := n;
      while i != 0
        invariant 0 <= i <= n
        invariant forall k :: dst + i <= k < dst + n ==> a[k] == was[k - dst + src]
        invariant forall k :: 0 <= k < a.Length && !(dst + i <= k < dst + n) ==> a[k] == was[k]
      {
        a[dst + i - 1] := a[src + i - 1];
        i := i - 1;
      }
    }
    assert a[dst..dst + n] == was[src..src + n];
  }

  // ----- strncpy

  /** What strncpy leaves in n bytes: the text of s, cut at n, then NULs. */
  function Padded(s: seq<Byte>, n: nat): (r: seq<Byte>)
    ensures |r| == n
  {
    var t := Text(s);
    if |t| >= n then t[..n] else t + Fill(0, n - |t|)
  }

  lemma PaddedText(s: seq<Byte>, n: nat)
    requires |Text(s)| <= n
    ensures Text(Padded(s, n)) == Text(s)
  {
    TextOf(Text(s), Fill(0, n - |Text(s)|));
  }

  /** The source is read up to its first NUL or for n bytes, and must hold one or the other. */
  method Strncpy(dest: array<Byte>, src: seq<Byte>, n: nat)
    requires n <= dest.Length && (n <= |src| || |Text(src)| < |src|)
    modifies dest
    ensures dest[..n] == Padded(src, n)
    ensures forall k :: n <= k < dest.Length ==> dest[k] == old(dest[k])
  {
    var i := 0;
    while i < n && src[i] != 0
      invariant 0 <= i <= n
      invariant i < n ==> i < |src|
      invariant i <= |Text(src)| && dest[..i] == Text(src)[..i]
      invariant forall k :: n <= k < dest.Length ==> dest[k] == old(dest[k])
    {
      assert i < |Text(src)|;
      dest[i] := src[i];
      i := i + 1;
      assert dest[..i] == dest[..i - 1] + [dest[i - 1]];
    }
    ghost var t := i;
    assert i < n ==> i == |Text(src)|;
    while i < n
      invariant t <= i <= n
      invariant dest[..t] == Text(src)[..t]
      invariant forall k :: t <= k < i ==> dest[k] == 0
      invariant forall k :: n <= k < dest.Length ==> dest[k] == old(dest[k])
    {
      dest[i] := 0;
      i := i + 1;
    }
    assert dest[..n] == dest[..t] + seq(n - t, _ => 0);
  }

  // ----- stricmp

  function ToLower(c: Byte): Byte {
    if 'A' as int <= c <= 'Z' as int then c + 32 else c
  }

  function Lower(s: seq<Byte>): (r: seq<Byte>)
    ensures |r| == |s| && forall i :: 0 <= i < |s| ==> r[i] == ToLower(s[i])
  {
    seq(|s|, i requires 0 <= i < |s| => ToLower(s[i]))
  }

  /** The same byte, or the upper-case and the lower-case form of one ASCII letter. */
  predicate SameLetter(a: Byte, b: Byte) {
    a == b || (0x41 <= a <= 0x5A && b == a + 32) || (0x41 <= b <= 0x5A && a == b + 32)
  }

  /** The same text but for the case of ASCII letters. */
  predicate SameText(s: seq<Byte>, t: seq<Byte>) {
    |s| == |t| && forall i :: 0 <= i < |s| ==> SameLetter(s[i], t[i])
  }

  lemma SameTextIff(s: seq<Byte>, t: seq<Byte>)
    ensures SameText(s, t) <==> Lower(s) == Lower(t)
  {
    if Lower(s) == Lower(t) {
      assert |Lower(s)| == |s| && |Lower(t)| == |t|;
      forall i | 0 <= i < |s| ensures SameLetter(s[i], t[i]) {
        assert Lower(s)[i] == Lower(t)[i];
      }
    }
  }

  lemma SameTextBoth(s: seq<Byte>, a: seq<Byte>, b: seq<Byte>)
    requires SameText(a, b)
    ensures SameText(s, a) <==> SameText(s, b)
  {
    hide SameText, Lower;
    SameTextIff(a, b);
    SameTextIff(s, a);
    SameTextIff(s, b);
  }

  /** Zero exactly for strings that are equal but for the case of ASCII letters. */
  method Stricmp(s1: seq<Byte>, s2: seq<Byte>) returns (r: int)
    requires NulFree(s1) && NulFree(s2)
    ensures r == 0 <==> SameText(s1, s2)
    ensures r == 0 <==> Lower(s1) == Lower(s2)
    ensures r != 0 ==> exists i: nat ::
      && i <= |s1| && i <= |s2| && Lower(s1)[..i] == Lower(s2)[..i]
      && r == ToLower(At(s1, i)) - ToLower(At(s2, i))
  {
    var i := 0;
    while At(s1, i) != 0 && ToLower(At(s1, i)) == ToLower(At(s2, i))
      invariant 0 <= i <= |s1| && i <= |s2|
      invariant Lower(s1)[..i] == Lower(s2)[..i]
      decreases |s1| - i
    {
      i := i + 1;
    }
    r := ToLower(At(s1, i)) - ToLower(At(s2, i));
    SameTextIff(s1, s2);
    if r == 0 {
      assert Lower(s1) == Lower(s1)[..i] && Lower(s2) == Lower(s2)[..i];
    } else {
      assert i < |s1| && i < |s2| ==> Lower(s1)[i] != Lower(s2)[i];
    }
  }

  // ----- strchr

  /** The first position of c at or after `from`, or None. */
  method Strchr(a: array<Byte>, from: nat, c: Byte) returns (found: bool, p: nat)
    requires c != 0 && exists z :: from <= z < a.Length && a[z] == 0
    ensures from <= p < a.Length
    ensures forall k :: from <= k < p ==> a[k] != c && a[k] != 0
    ensures a[p] == if found then c else 0
  {
    p := from;
    while a[p] != 0
      invariant from <= p < a.Length
      invariant forall k :: from <= k < p ==> a[k] != c && a[k] != 0
      invariant exists z :: p <= z < a.Length && a[z] == 0
      decreases a.Length - p
    {
      if a[p] == c {
        return true, p;
      }
      p := p + 1;
    }
    found := false;
  }
}

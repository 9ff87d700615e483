/** When readdir uses a long name, and that it is the name that was written. */
module Fat32Names {
  import opened Machine
  import opened CString
  import opened Fat32
  import opened Bits
  import opened Fat32Listing

  // ----- well-formed runs of long-name slots

  /** Slots numbered top, top-1, ... on disk, only the first flagged, all with the same checksum. */
  ghost predicate Descends(run: seq<Slot>, top: int, sum: Byte) {
    forall i :: 0 <= i < |run| ==>
      && IsLong(run[i]) && !IsDeleted(run[i])
      && Sequence(run[i]) == top - i
      && LongChecksum(run[i]) == sum
      && (StartsLong(run[i]) <==> i == 0)
  }

  /** The bytes one slot adds to the name: its part, with NULs after the first NUL. */
  function Contribution(s: Slot): (r: seq<Byte>)
    ensures |r| <= 13
  {
    Padded(Part(s), |Part(s)|)
  }

  lemma OnLongStarts(st: Lfn, s: Slot)
    requires StartsLong(s)
    ensures OnLong(st, s) == Lfn(Contribution(s), Sequence(s) - 1, LongChecksum(s))
  {
    assert Contribution(s) + [] == Contribution(s);
  }

  lemma OnLongContinues(st: Lfn, s: Slot)
    requires !StartsLong(s)
    ensures OnLong(st, s) ==
      if !Continues(st, s) then Lfn([], 0, st.checksum)
      else if |st.units| + |Contribution(s)| < 255 then Lfn(Contribution(s) + st.units, st.sequence - 1, st.checksum)
      else Lfn([], -1, st.checksum)
  {
  }

  /** The parts joined with the last in front. */
  function Join(parts: seq<seq<Byte>>): seq<Byte> {
    if parts == [] then [] else parts[|parts| - 1] + Join(parts[..|parts| - 1])
  }

  function Contributions(run: seq<Slot>): (cs: seq<seq<Byte>>)
    ensures |cs| == |run| && forall i :: 0 <= i < |run| ==> cs[i] == Contribution(run[i])
  {
    seq(|run|, i requires 0 <= i < |run| => Contribution(run[i]))
  }

  /** The bytes the run contributes, the slot nearest the short entry first. */
  function UnitsOf(run: seq<Slot>): seq<Byte> {
    Join(Contributions(run))
  }

  /** The n slots before slot q are a complete run for checksum sum whose bytes fit the name buffer. */
  ghost predicate CompleteRun(live: seq<Slot>, q: nat, n: nat, sum: Byte)
    requires n <= q <= |live|
  {
    n >= 1 && Descends(live[q - n..q], n, sum) && 1 <= |UnitsOf(live[q - n..q])| <= 254
  }

  // ----- the machine recognises exactly these runs

  lemma SliceInit(live: seq<Slot>, a: nat, p: nat)
    requires a < p <= |live|
    ensures UnitsOf(live[a..p]) == Contribution(live[p - 1]) + UnitsOf(live[a..p - 1])
  {
    hide Contribution;
    assert Contributions(live[a..p])[..p - a - 1] == Contributions(live[a..p - 1]);
  }

  lemma DescendsShorter(live: seq<Slot>, p: nat, m: nat, top: int, sum: Byte)
    requires 1 < m <= p <= |live| && Descends(live[p - m..p], top, sum)
    ensures Descends(live[p - m..p - 1], top, sum)
  {
    var run := live[p - m..p];
    var init := live[p - m..p - 1];
    assert forall i :: 0 <= i < |init| ==> init[i] == run[i];
  }

  lemma DescendsLast(live: seq<Slot>, p: nat, m: nat, top: int, sum: Byte)
    requires 1 <= m <= p <= |live| && Descends(live[p - m..p], top, sum)
    ensures var s := live[p - 1];
      IsLong(s) && !IsDeleted(s) && Sequence(s) == top - m + 1 && LongChecksum(s) == sum && (StartsLong(s) <==> m == 1)
  {
    assert live[p - m..p][m - 1] == live[p - 1];
  }

  lemma LfnAfterLong(live: seq<Slot>, p: nat)
    requires 1 <= p <= |live| && !IsDeleted(live[p - 1])
    ensures IsLong(live[p - 1]) ==> LfnAt(live, p) == OnLong(LfnAt(live, p - 1), live[p - 1])
    ensures !IsLong(live[p - 1]) ==> LfnAt(live, p) == Lfn([], 0, LfnAt(live, p - 1).checksum)
  {
  }

  /** After a descending run that fits, the machine holds its bytes and expects the next number down. */
  lemma {:induction false} RunIsTracked(live: seq<Slot>, p: nat, m: nat, top: nat, sum: Byte)
    requires 1 <= m <= p <= |live| && Descends(live[p - m..p], top, sum)
    requires |UnitsOf(live[p - m..p])| <= 254
    ensures LfnAt(live, p) == Lfn(UnitsOf(live[p - m..p]), top - m, sum)
    decreases m
  {
    hide OnLong, Contribution;
    DescendsLast(live, p, m, top, sum);
    LfnAfterLong(live, p);
    SliceInit(live, p - m, p);
    if m > 1 {
      DescendsShorter(live, p, m, top, sum);
      RunIsTracked(live, p - 1, m - 1, top, sum);
      OnLongContinues(LfnAt(live, p - 1), live[p - 1]);
    } else {
      assert Contributions(live[p - 1..p - 1]) == [];
      OnLongStarts(LfnAt(live, p - 1), live[p - 1]);
    }
  }

  ghost predicate Expecting(st: Lfn) {
    st.sequence > 0 || (st.sequence == 0 && st.units != [])
  }

  /** What the last slot was when the machine expects more or has a usable name. */
  lemma ExpectingCame(st: Lfn, s: Slot)
    requires Expecting(OnLong(st, s))
    ensures Sequence(s) > 0 && OnLong(st, s).checksum == LongChecksum(s) && OnLong(st, s).sequence == Sequence(s) - 1
    ensures !StartsLong(s) ==> Expecting(st) && Continues(st, s) && OnLong(st, s).units == Contribution(s) + st.units
    ensures StartsLong(s) ==> OnLong(st, s).units == Contribution(s)
    ensures |OnLong(st, s).units| <= 254
  {
    if StartsLong(s) {
      OnLongStarts(st, s);
    } else {
      OnLongContinues(st, s);
    }
  }

  ghost predicate RunBefore(live: seq<Slot>, p: nat, m: nat, st: Lfn) {
    1 <= m <= p <= |live| && Descends(live[p - m..p], st.sequence + m, st.checksum)
      && st.units == UnitsOf(live[p - m..p])
  }

  /** A state that expects more, or that could be used, was reached through a descending run. */
  lemma {:induction false} TrackedIsRun(live: seq<Slot>, p: nat, st: Lfn) returns (m: nat)
    requires p <= |live| && (forall i :: 0 <= i < p ==> !IsDeleted(live[i]))
    requires st == LfnAt(live, p) && Expecting(st)
    ensures RunBefore(live, p, m, st) && |st.units| <= 254
    decreases p
  {
    hide OnLong, Contribution;
    assert p > 0;
    var s := live[p - 1];
    var before := LfnAt(live, p - 1);
    LfnAfterLong(live, p);
    ExpectingCame(before, s);
    if StartsLong(s) {
      m := 1;
      FreshRun(live, p, st);
    } else {
      m := TrackedIsRun(live, p - 1, before);
      ExtendRun(live, p, m, before, st);
      m := m + 1;
    }
  }

  lemma FreshRun(live: seq<Slot>, p: nat, st: Lfn)
    requires 1 <= p <= |live|
    requires var s := live[p - 1];
      IsLong(s) && !IsDeleted(s) && StartsLong(s) && st == Lfn(Contribution(s), Sequence(s) - 1, LongChecksum(s))
    ensures RunBefore(live, p, 1, st)
  {
    hide Contribution;
    SliceInit(live, p - 1, p);
    assert Contributions(live[p - 1..p - 1]) == [] && live[p - 1..p] == [live[p - 1]];
    assert Contribution(live[p - 1]) + [] == Contribution(live[p - 1]);
  }

  lemma ExtendRun(live: seq<Slot>, p: nat, k: nat, before: Lfn, st: Lfn)
    requires 1 <= p <= |live| && RunBefore(live, p - 1, k, before)
    requires var s := live[p - 1];
      IsLong(s) && !IsDeleted(s) && Continues(before, s) && !StartsLong(s)
      && st == Lfn(Contribution(s) + before.units, before.sequence - 1, before.checksum)
    ensures RunBefore(live, p, k + 1, st)
  {
    hide Contribution;
    SliceInit(live, p - 1 - k, p);
    var run := live[p - 1 - k..p];
    var init := live[p - 1 - k..p - 1];
    assert forall i :: 0 <= i < k ==> run[i] == init[i];
  }

  /** readdir uses a long name if and only if a complete run for the entry's checksum stands before it. */
  lemma LongNameIff(live: seq<Slot>, q: nat)
    requires q < |live| && (forall i :: 0 <= i < q ==> !IsDeleted(live[i]))
    ensures UsesLong(LfnAt(live, q), live[q]) <==>
      exists n :: 1 <= n <= q && CompleteRun(live, q, n, ShortChecksum(live[q]))
  {
    if UsesLong(LfnAt(live, q), live[q]) {
      var n := TrackedIsRun(live, q, LfnAt(live, q));
      assert CompleteRun(live, q, n, ShortChecksum(live[q]));
    }
    if n :| 1 <= n <= q && CompleteRun(live, q, n, ShortChecksum(live[q])) {
      RunIsTracked(live, q, n, n, ShortChecksum(live[q]));
    }
  }

  /** The name is the run's text when there is one, and the 8.3 name in every other case. */
  lemma NameIs(live: seq<Slot>, q: nat)
    requires q < |live| && (forall i :: 0 <= i < q ==> !IsDeleted(live[i]))
    ensures forall n :: 1 <= n <= q && CompleteRun(live, q, n, ShortChecksum(live[q])) ==>
      EntryAt(live, q).name == Text(UnitsOf(live[q - n..q]))
    ensures (forall n :: 1 <= n <= q ==> !CompleteRun(live, q, n, ShortChecksum(live[q]))) ==>
      EntryAt(live, q).name == Text(ShortName(live[q]))
  {
    LongNameIff(live, q);
    forall n | 1 <= n <= q && CompleteRun(live, q, n, ShortChecksum(live[q]))
      ensures EntryAt(live, q).name == Text(UnitsOf(live[q - n..q]))
    {
      RunIsTracked(live, q, n, n, ShortChecksum(live[q]));
    }
  }

  // ----- the checksum

  function Rotate(sum: Byte): Byte {
    (if sum % 2 == 1 then 0x80 else 0) + sum / 2
  }

  lemma AddInjective(r: Byte, r': Byte, b: Byte, b': Byte)
    ensures (r + b) % 256 == (r' + b) % 256 ==> r == r'
    ensures (r + b) % 256 == (r + b') % 256 ==> b == b'
  {
  }

  lemma RotateInjective(s: Byte, s': Byte)
    ensures Rotate(s) == Rotate(s') ==> s == s'
  {
  }

  lemma RotateAddInjective(s: Byte, s': Byte, b: Byte, b': Byte)
    ensures RotateAdd(s, b) == RotateAdd(s', b) ==> s == s'
    ensures RotateAdd(s, b) == RotateAdd(s, b') ==> b == b'
  {
    AddInjective(Rotate(s), Rotate(s'), b, b);
    AddInjective(Rotate(s), Rotate(s), b, b');
    RotateInjective(s, s');
  }

  lemma {:induction false} BitBelow(h: nat, b: nat, k: nat, i: nat)
    requires i <= k && h < Pow2(k) && b <= 1
    ensures Bit(h + Pow2(k) * b, i) <==> if i == k then b == 1 else Bit(h, i)
  {
    if i > 0 {
      var p := Pow2(k - 1);
      assert Pow2(k) * b == 2 * (p * b);
      assert (h + 2 * (p * b)) / 2 == h / 2 + p * b;
      BitBelow(h / 2, b, k - 1, i - 1);
    } else if k > 0 {
      assert Pow2(k) * b == 2 * (Pow2(k - 1) * b);
    }
  }

  lemma RotateBits(s: Byte, i: nat)
    requires i < 8
    ensures Bit(Rotate(s), i) <==> Bit(s, (i + 1) % 8)
  {
    assert Pow2(3) == 8 && Pow2(7) == 128;
    BitBelow(s / 2, s % 2, 7, i);
    if i == 7 {
      assert Bit(s, 0) <==> s % 2 == 1;
    } else {
      assert Bit(s, i + 1) == Bit(s / 2, i);
    }
  }

  /** r holds the bits of s, each moved one place down and the lowest to the top. */
  ghost predicate RotatedRight(r: Byte, s: Byte) {
    forall i :: 0 <= i < 8 ==> (Bit(r, i) <==> Bit(s, (i + 1) % 8))
  }

  /** The checksum starts at 0; each byte is added, modulo 256, once the sum has been rotated right by one bit. */
  lemma ChecksumByBits(s: seq<Byte>, n: nat)
    requires n < |s|
    ensures Checksum(s, 0) == 0
    ensures exists rotated: Byte ::
      RotatedRight(rotated, Checksum(s, n)) && Checksum(s, n + 1) == (rotated + s[n]) % 256
  {
    var rotated: Byte := Rotate(Checksum(s, n));
    assert 0 <= rotated < 256 && Checksum(s, n + 1) == (rotated + s[n]) % 256;
    hide Checksum, Rotate, Bit;
    forall i | 0 <= i < 8
      ensures Bit(rotated, i) <==> Bit(Checksum(s, n), (i + 1) % 8)
    {
      RotateBits(Checksum(s, n), i);
    }
    assert RotatedRight(rotated, Checksum(s, n));
  }

  /** Two short names that differ in exactly one byte never have the same checksum. */
  lemma {:induction false} ChecksumSeesOneByte(s: seq<Byte>, t: seq<Byte>, k: nat, n: nat)
    requires |s| == |t| && k < n <= |s| && s[k] != t[k]
    requires forall i :: 0 <= i < |s| && i != k ==> s[i] == t[i]
    ensures Checksum(s, n) != Checksum(t, n)
    decreases n
  {
    if n == k + 1 {
      ChecksumPrefix(s, t, k);
      RotateAddInjective(Checksum(s, k), Checksum(s, k), s[k], t[k]);
    } else {
      ChecksumSeesOneByte(s, t, k, n - 1);
      RotateAddInjective(Checksum(s, n - 1), Checksum(t, n - 1), s[n - 1], s[n - 1]);
    }
  }

  lemma {:induction false} ChecksumPrefix(s: seq<Byte>, t: seq<Byte>, n: nat)
    requires n <= |s| && n <= |t| && forall i :: 0 <= i < n ==> s[i] == t[i]
    ensures Checksum(s, n) == Checksum(t, n)
  {
    if n > 0 {
      ChecksumPrefix(s, t, n - 1);
    }
  }
}

/** Long names written as section 7 of the FAT specification says come back from readdir unchanged. */
module Fat32RoundTrip {
  import opened Machine
  import opened CString
  import opened Fat32
  import opened Fat32Listing
  import opened Fat32Names

  type Unit = u: int | 0 <= u < 65536

  // ----- writing a long name

  function SlotCount(name: seq<Byte>): nat { (|name| + 12) / 13 }

  /** The characters, then a NUL and 0xFFFF padding when the last slot is not full. */
  function NameUnits(name: seq<Byte>): (us: seq<Unit>)
    ensures |us| == 13 * SlotCount(name)
  {
    var rest := 13 * SlotCount(name) - |name|;
    Chars(name) + if rest == 0 then [] else [0] + Filler(rest - 1)
  }

  function Chars(name: seq<Byte>): seq<Unit> {
    seq(|name|, i requires 0 <= i < |name| => name[i])
  }

  function Filler(n: nat): seq<Unit> {
    seq(n, _ => 0xFFFF)
  }

  function LittleEndian(us: seq<Unit>): (bs: seq<Byte>)
    ensures |bs| == 2 * |us|
    ensures forall i :: 0 <= i < |us| ==> U16(bs, 2 * i) == us[i]
  {
    if us == [] then []
    else
      var rest := LittleEndian(us[1..]);
      assert forall i :: 1 <= i < |us| ==> U16(rest, 2 * (i - 1)) == us[1..][i - 1] == us[i];
      [us[0] % 256, us[0] / 256] + rest
  }

  function LongSlot(number: Byte, sum: Byte, us: seq<Unit>): (s: Slot)
    requires |us| == 13
  {
    [number] + LittleEndian(us[0..5]) + [0x0F, 0, sum] + LittleEndian(us[5..11]) + [0, 0] + LittleEndian(us[11..13])
  }

  /** Slots n, n-1, ..., 1 of a name of `top` slots, in disk order. */
  function SlotsFrom(us: seq<Unit>, n: nat, top: nat, sum: Byte): (run: seq<Slot>)
    requires n <= top <= 20 && 13 * n <= |us|
    ensures |run| == n
  {
    if n == 0 then []
    else [LongSlot(if n == top then n + 64 else n, sum, us[13 * (n - 1)..13 * n])] + SlotsFrom(us, n - 1, top, sum)
  }

  function LongSlots(name: seq<Byte>, sum: Byte): (run: seq<Slot>)
    requires |name| <= 255
    ensures |run| == SlotCount(name)
  {
    SlotsFrom(NameUnits(name), SlotCount(name), SlotCount(name), sum)
  }

  // ----- reading one slot back

  /** The byte-sized units, as bytes. */
  function Low(us: seq<Unit>): seq<Byte> {
    if us == [] then []
    else Low(us[..|us| - 1]) + if us[|us| - 1] <= 0xFF then [us[|us| - 1]] else []
  }

  lemma {:induction false} LowConcat(a: seq<Unit>, b: seq<Unit>)
    ensures Low(a + b) == Low(a) + Low(b)
  {
    if b == [] {
      assert a + b == a;
    } else {
      assert (a + b)[..|a + b| - 1] == a + b[..|b| - 1];
      LowConcat(a, b[..|b| - 1]);
    }
  }

  lemma {:induction false} LowUnitsOf(s: Slot, at: nat, us: seq<Unit>)
    requires at + 2 * |us| <= SLOT && forall i :: 0 <= i < |us| ==> U16(s, at + 2 * i) == us[i]
    ensures LowUnits(s, at, |us|) == Low(us)
  {
    if us != [] {
      LowUnitsOf(s, at, us[..|us| - 1]);
    }
  }

  lemma FieldOf(pre: seq<Byte>, us: seq<Unit>, post: seq<Byte>, i: nat)
    requires i < |us|
    ensures U16(pre + LittleEndian(us) + post, |pre| + 2 * i) == us[i]
  {
    var bs := LittleEndian(us);
    assert U16(bs, 2 * i) == us[i];
    hide LittleEndian;
    var s := pre + bs + post;
    assert s[|pre| + 2 * i] == bs[2 * i] && s[|pre| + 2 * i + 1] == bs[2 * i + 1];
  }

  /** The units written at position |pre| of a slot are the ones LowUnits reads there. */
  lemma FieldsOf(s: Slot, pre: seq<Byte>, us: seq<Unit>, post: seq<Byte>)
    requires s == pre + LittleEndian(us) + post
    ensures LowUnits(s, |pre|, |us|) == Low(us)
  {
    forall i | 0 <= i < |us| ensures U16(s, |pre| + 2 * i) == us[i] {
      FieldOf(pre, us, post, i);
    }
    LowUnitsOf(s, |pre|, us);
  }

  lemma SlotFields(number: Byte, sum: Byte, us: seq<Unit>)
    requires |us| == 13
    ensures var s := LongSlot(number, sum, us);
      s[0] == number && s[11] == 0x0F && s[13] == sum && Part(s) == Low(us)
  {
    hide U16, LowUnits, Low, LittleEndian;
    var s := LongSlot(number, sum, us);
    var a, b, c := LittleEndian(us[0..5]), LittleEndian(us[5..11]), LittleEndian(us[11..13]);
    assert s == [number] + a + ([0x0F, 0, sum] + b + [0, 0] + c);
    FieldsOf(s, [number], us[0..5], [0x0F, 0, sum] + b + [0, 0] + c);
    assert s == ([number] + a + [0x0F, 0, sum]) + b + ([0, 0] + c);
    FieldsOf(s, [number] + a + [0x0F, 0, sum], us[5..11], [0, 0] + c);
    assert s == ([number] + a + [0x0F, 0, sum] + b + [0, 0]) + c + [];
    FieldsOf(s, [number] + a + [0x0F, 0, sum] + b + [0, 0], us[11..13], []);
    LowConcat(us[0..5], us[5..11]);
    LowConcat(us[0..5] + us[5..11], us[11..13]);
    assert us == us[0..5] + us[5..11] + us[11..13];
  }

  // ----- reading a run back

  lemma {:induction false} JoinCons(p: seq<Byte>, parts: seq<seq<Byte>>)
    ensures Join([p] + parts) == Join(parts) + p
  {
    if parts == [] {
      assert [p] + parts == [p] && [p][..0] == [];
    } else {
      assert ([p] + parts)[..|parts|] == [p] + parts[..|parts| - 1];
      JoinCons(p, parts[..|parts| - 1]);
    }
  }

  lemma UnitsOfCons(s: Slot, run: seq<Slot>)
    ensures UnitsOf([s] + run) == UnitsOf(run) + Contribution(s)
  {
    hide Contribution;
    JoinCons(Contribution(s), Contributions(run));
    assert Contributions([s] + run) == [Contribution(s)] + Contributions(run);
  }

  /** At most one NUL among the low units of each slot, and only as the last of them. */
  ghost predicate NulLast(us: seq<Unit>) {
    forall i, j :: 0 <= i < j < |us| && us[i] == 0 ==> us[j] > 0xFF
  }

  lemma {:induction false} LowNulFree(us: seq<Unit>)
    requires forall i :: 0 <= i < |us| ==> us[i] != 0
    ensures NulFree(Low(us))
  {
    if us != [] {
      LowNulFree(us[..|us| - 1]);
    }
  }

  lemma {:induction false} LowKeepsNulLast(us: seq<Unit>)
    requires NulLast(us)
    ensures Padded(Low(us), |Low(us)|) == Low(us)
  {
    if us != [] {
      var last := us[|us| - 1];
      var init := us[..|us| - 1];
      if last > 0xFF {
        LowKeepsNulLast(init);
      } else {
        forall i | 0 <= i < |init| ensures init[i] != 0 {
          assert us[i] != 0;
        }
        LowNulFree(init);
        if last == 0 {
          TextOf(Low(init), [0]);
        } else {
          TextOf(Low(us), []);
          assert Low(us) + [] == Low(us);
        }
      }
    }
  }

  lemma NameUnitsNulLast(name: seq<Byte>, a: nat, b: nat)
    requires NulFree(name) && a <= b <= |NameUnits(name)|
    ensures NulLast(NameUnits(name)[a..b])
  {
  }

  lemma ChunkComesBack(name: seq<Byte>, n: nat, number: Byte, sum: Byte)
    requires NulFree(name) && 1 <= n <= SlotCount(name)
    ensures var chunk := NameUnits(name)[13 * (n - 1)..13 * n];
      Contribution(LongSlot(number, sum, chunk)) == Low(chunk)
  {
    hide LongSlot, Part, Low;
    var chunk := NameUnits(name)[13 * (n - 1)..13 * n];
    SlotFields(number, sum, chunk);
    NameUnitsNulLast(name, 13 * (n - 1), 13 * n);
    LowKeepsNulLast(chunk);
  }

  lemma {:induction false} UnitsComeBack(name: seq<Byte>, n: nat, top: nat, sum: Byte)
    requires NulFree(name) && n <= top <= 20 && n <= SlotCount(name)
    ensures UnitsOf(SlotsFrom(NameUnits(name), n, top, sum)) == Low(NameUnits(name)[..13 * n])
  {
    hide LongSlot, Contribution, NameUnits;
    var us := NameUnits(name);
    if n > 0 {
      var chunk := us[13 * (n - 1)..13 * n];
      var number: Byte := if n == top then n + 64 else n;
      ChunkComesBack(name, n, number, sum);
      UnitsComeBack(name, n - 1, top, sum);
      UnitsOfCons(LongSlot(number, sum, chunk), SlotsFrom(us, n - 1, top, sum));
      LowConcat(us[..13 * (n - 1)], chunk);
      assert us[..13 * n] == us[..13 * (n - 1)] + chunk;
    }
  }

  lemma {:induction false} LowOfBytes(s: seq<Byte>)
    ensures Low(Chars(s)) == s
  {
    if s != [] {
      LowOfBytes(s[..|s| - 1]);
      assert Chars(s)[..|s| - 1] == Chars(s[..|s| - 1]);
    }
  }

  lemma {:induction false} LowOfPadding(n: nat)
    ensures Low(Filler(n)) == []
  {
    if n > 0 {
      LowOfPadding(n - 1);
      assert Filler(n)[..n - 1] == Filler(n - 1);
    }
  }

  function Terminator(name: seq<Byte>): seq<Byte> {
    if |name| % 13 == 0 then [] else [0]
  }

  lemma LowOfName(name: seq<Byte>)
    ensures Low(NameUnits(name)) == name + Terminator(name)
  {
    hide Low, Chars, Filler;
    var rest := 13 * SlotCount(name) - |name|;
    assert rest == 0 <==> |name| % 13 == 0;
    LowOfBytes(name);
    if rest > 0 {
      LowOfPadding(rest - 1);
      LowOfNul();
      LowConcat([0], Filler(rest - 1));
      LowConcat(Chars(name), [0] + Filler(rest - 1));
    } else {
      assert NameUnits(name) == Chars(name);
    }
  }

  lemma LowOfNul()
    ensures Low([0]) == [0]
  {
    assert [0][..0] == [];
  }

  lemma {:induction false} SlotsDescend(us: seq<Unit>, n: nat, top: nat, sum: Byte, i: nat)
    requires i < n <= top <= 20 && 13 * n <= |us|
    ensures var s := SlotsFrom(us, n, top, sum)[i];
      && IsLong(s) && !IsDeleted(s) && !IsLast(s) && Sequence(s) == n - i && LongChecksum(s) == sum
      && (StartsLong(s) <==> n - i == top)
    decreases n
  {
    hide LongSlot;
    if i == 0 {
      SlotFields(if n == top then n + 64 else n, sum, us[13 * (n - 1)..13 * n]);
    } else {
      SlotsDescend(us, n - 1, top, sum, i - 1);
    }
  }

  /** What readdir's machine needs to know about a written name. */
  lemma WrittenRun(name: seq<Byte>, sum: Byte)
    requires NulFree(name) && 1 <= |name| <= 255
    ensures var run := LongSlots(name, sum);
      Descends(run, |run|, sum) && UnitsOf(run) == name + Terminator(name)
  {
    var n := SlotCount(name);
    var run := LongSlots(name, sum);
    forall i | 0 <= i < |run|
      ensures IsLong(run[i]) && !IsDeleted(run[i]) && Sequence(run[i]) == n - i && LongChecksum(run[i]) == sum
        && (StartsLong(run[i]) <==> i == 0)
    {
      SlotsDescend(NameUnits(name), n, n, sum, i);
    }
    UnitsComeBack(name, n, n, sum);
    assert NameUnits(name)[..13 * n] == NameUnits(name);
    LowOfName(name);
  }

  // ----- the round trip

  /** Slot q is a short entry whose long name is written directly before it. */
  ghost predicate Written(live: seq<Slot>, q: nat, name: seq<Byte>) {
    && q < |live| && NulFree(name) && 1 <= |name| <= 255 && SlotCount(name) <= q
    && live[q - SlotCount(name)..q] == LongSlots(name, ShortChecksum(live[q]))
  }

  lemma RunStart(live: seq<Slot>, q: nat, n: nat, sum: Byte)
    requires 1 <= n <= q <= |live| && Descends(live[q - n..q], n, sum)
    ensures StartsLong(live[q - n]) && forall k :: q - n < k < q ==> !StartsLong(live[k])
  {
    var run := live[q - n..q];
    assert run[0] == live[q - n];
    forall k | q - n < k < q
      ensures !StartsLong(live[k])
    {
      assert run[k - (q - n)] == live[k];
    }
  }

  /** No other run than the one of n slots is complete before slot q. */
  lemma OnlyRun(live: seq<Slot>, q: nat, n: nat, m: nat, sum: Byte)
    requires 1 <= n <= q <= |live| && 1 <= m <= q
    requires Descends(live[q - n..q], n, sum) && Descends(live[q - m..q], m, sum)
    ensures n == m
  {
    RunStart(live, q, n, sum);
    RunStart(live, q, m, sum);
  }

  lemma TooLongIsNoRun(live: seq<Slot>, q: nat, name: seq<Byte>)
    requires Written(live, q, name) && |name| >= 254
    ensures forall m :: 1 <= m <= q ==> !CompleteRun(live, q, m, ShortChecksum(live[q]))
  {
    hide UnitsOf, LongSlots;
    var sum := ShortChecksum(live[q]);
    WrittenRun(name, sum);
    forall m | 1 <= m <= q
      ensures !CompleteRun(live, q, m, sum)
    {
      if CompleteRun(live, q, m, sum) {
        OnlyRun(live, q, SlotCount(name), m, sum);
      }
    }
  }

  /** A written name of 1 to 255 characters is read back exactly when it has at most 253. */
  lemma NameComesBack(live: seq<Slot>, q: nat, name: seq<Byte>)
    requires Written(live, q, name) && (forall i :: 0 <= i < q ==> !IsDeleted(live[i]))
    ensures EntryAt(live, q).name == if |name| <= 253 then name else Text(ShortName(live[q]))
  {
    hide UnitsOf, LongSlots, EntryAt, ShortChecksum;
    var sum := ShortChecksum(live[q]);
    NameIs(live, q);
    if |name| <= 253 {
      WrittenRun(name, sum);
      assert CompleteRun(live, q, SlotCount(name), sum);
      TextOf(name, Terminator(name));
    } else {
      TooLongIsNoRun(live, q, name);
    }
  }

  /**
  The same through readdir itself: whatever surrounds the entry and wherever sectors and clusters end,
  the call for its index returns it under the written name.
  */
  lemma ReaddirRoundTrip(items: seq<Item>, q: nat, name: seq<Byte>)
    requires Written(Body(items), q, name) && IsEntry(Body(items)[q])
    ensures var r := Answer(items, Rank(Body(items), q));
      r.Found? && r.entry.name == if |name| <= 253 then name else Text(ShortName(Body(items)[q]))
  {
    NameComesBack(Body(items), q, name);
    NoneMissed(items, q);
  }
}

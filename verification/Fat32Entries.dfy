/** Directory entries written as section 6 of the FAT specification says come back from readdir whole. */
module Fat32Entries {
  import opened Machine
  import opened CString
  import opened Fat32
  import opened Fat32Listing
  import opened Fat32Names
  import opened Fat32RoundTrip

  const BLANK: Byte := 0x20

  /**
  The 32 bytes of a short entry: name and extension padded with spaces, attributes, times, the high and the
  low half of the first cluster, and the file size.
  */
  function ShortSlot(base: seq<Byte>, ext: seq<Byte>, attributes: Byte, cluster: Word, times: seq<Byte>,
          size: Word): Slot
    requires |base| <= 8 && |ext| <= 3 && |times| == 12
  {
    base + Fill(BLANK, 8 - |base|) + ext + Fill(BLANK, 3 - |ext|) + [attributes] + times[..8]
    + Le16(cluster / 65536) + times[8..] + Le16(cluster % 65536) + Le32(size)
  }

  /** What a short name may consist of, for the purpose of reading it back. */
  ghost predicate Plain(s: seq<Byte>) {
    forall i :: 0 <= i < |s| ==> s[i] != BLANK && s[i] != 0
  }

  /** The name shown for base and extension. */
  function ShortText(base: seq<Byte>, ext: seq<Byte>): seq<Byte> {
    base + if ext == [] then [] else ['.' as int] + ext
  }

  lemma ShortFields(base: seq<Byte>, ext: seq<Byte>, attributes: Byte, cluster: Word, times: seq<Byte>, size: Word)
    requires |base| <= 8 && |ext| <= 3 && |times| == 12
    ensures var s := ShortSlot(base, ext, attributes, cluster, times, size);
      && s[0..8] == base + Fill(BLANK, 8 - |base|) && s[8..11] == ext + Fill(BLANK, 3 - |ext|) && s[11] == attributes
      && s[20..22] == Le16(cluster / 65536) && s[26..28] == Le16(cluster % 65536)
  {
  }

  lemma {:induction false} UpToPadding(s: seq<Byte>, n: nat)
    requires Plain(s)
    ensures UpToSpace(s + Fill(BLANK, n)) == s
  {
    var p := s + Fill(BLANK, n);
    if s == [] {
      assert n > 0 ==> p[0] == BLANK;
    } else {
      assert p[1..] == s[1..] + Fill(BLANK, n);
      UpToPadding(s[1..], n);
    }
  }

  /** The name readdir makes of a written short entry. */
  lemma ShortNameComesBack(base: seq<Byte>, ext: seq<Byte>, attributes: Byte, cluster: Word, times: seq<Byte>,
          size: Word)
    requires |base| <= 8 && |ext| <= 3 && |times| == 12 && Plain(base) && Plain(ext)
    ensures var s := ShortSlot(base, ext, attributes, cluster, times, size);
      ShortName(s) == ShortText(base, ext) && Text(ShortName(s)) == ShortText(base, ext)
  {
    var s := ShortSlot(base, ext, attributes, cluster, times, size);
    ShortFields(base, ext, attributes, cluster, times, size);
    UpToPadding(base, 8 - |base|);
    UpToPadding(ext, 3 - |ext|);
    assert s[8] == s[8..11][0];
    var name := ShortText(base, ext);
    TextOf(name, []);
    assert name + [] == name;
  }

  lemma ClusterComesBack(base: seq<Byte>, ext: seq<Byte>, attributes: Byte, cluster: Word, times: seq<Byte>, size: Word)
    requires |base| <= 8 && |ext| <= 3 && |times| == 12
    ensures var s := ShortSlot(base, ext, attributes, cluster, times, size);
      && U16(s, 20) * 65536 + U16(s, 26) == cluster
      && s[11] == attributes
  {
    hide Le16, Le32, U16;
    var s := ShortSlot(base, ext, attributes, cluster, times, size);
    ShortFields(base, ext, attributes, cluster, times, size);
    HalfComesBack(s, 20, cluster / 65536);
    HalfComesBack(s, 26, cluster % 65536);
  }

  /** Slot q is such an entry, neither a label nor part of a long name. */
  ghost predicate EntryIn(live: seq<Slot>, q: nat, base: seq<Byte>, ext: seq<Byte>, attributes: Byte, cluster: Word)
  {
    && q < |live| && |base| <= 8 && |ext| <= 3 && Plain(base) && Plain(ext)
    && attributes != 0x0F && attributes / 8 % 2 == 0
    && exists times, size :: |times| == 12 && live[q] == ShortSlot(base, ext, attributes, cluster, times, size)
  }

  lemma EntryFields(live: seq<Slot>, q: nat, base: seq<Byte>, ext: seq<Byte>, attributes: Byte, cluster: Word)
    requires EntryIn(live, q, base, ext, attributes, cluster)
    requires forall i :: 0 <= i < |live| ==> !IsDeleted(live[i])
    ensures IsEntry(live[q]) && Text(ShortName(live[q])) == ShortText(base, ext)
    ensures EntryAt(live, q).ino == cluster && EntryAt(live, q).isDir == (attributes / 16 % 2 == 1)
  {
    hide LfnAt, ShortSlot, ShortName, ShortText;
    var times, size :| |times| == 12 && live[q] == ShortSlot(base, ext, attributes, cluster, times, size);
    ClusterComesBack(base, ext, attributes, cluster, times, size);
    ShortNameComesBack(base, ext, attributes, cluster, times, size);
  }

  /**
  An entry with a written long name comes back whole: the written name - the short one if the long one exceeds 253
  characters - the written cluster, and whether it is a directory.
  */
  lemma LongEntryComesBack(items: seq<Item>, q: nat, name: seq<Byte>, base: seq<Byte>, ext: seq<Byte>, attributes: Byte,
          cluster: Word)
    requires Written(Body(items), q, name) && EntryIn(Body(items), q, base, ext, attributes, cluster)
    ensures Answer(items, Rank(Body(items), q)) ==
      Found(Dirent(cluster, if |name| <= 253 then name else ShortText(base, ext), attributes / 16 % 2 == 1))
  {
    var live := Body(items);
    assert q < |live|;
    hide EntryIn, EntryAt, Written, ShortText, ShortName, Answer;
    EntryFields(live, q, base, ext, attributes, cluster);
    NameComesBack(live, q, name);
    NoneMissed(items, q);
  }

  /** An entry without a long name of its own comes back under its 8.3 name, with cluster and directory flag. */
  lemma ShortEntryComesBack(items: seq<Item>, q: nat, base: seq<Byte>, ext: seq<Byte>, attributes: Byte, cluster: Word)
    requires EntryIn(Body(items), q, base, ext, attributes, cluster)
    requires q == 0 || !IsLong(Body(items)[q - 1])
    ensures Answer(items, Rank(Body(items), q)) ==
      Found(Dirent(cluster, ShortText(base, ext), attributes / 16 % 2 == 1))
  {
    var live := Body(items);
    NoRunBefore(live, q, ShortChecksum(live[q]));
    hide EntryIn, EntryAt, ShortText, ShortName, Answer, CompleteRun, ShortChecksum;
    EntryFields(live, q, base, ext, attributes, cluster);
    NameIs(live, q);
    NoneMissed(items, q);
  }

  lemma NoRunBefore(live: seq<Slot>, q: nat, sum: Byte)
    requires q < |live| && (q == 0 || !IsLong(live[q - 1]))
    ensures forall m :: 1 <= m <= q ==> !CompleteRun(live, q, m, sum)
  {
    forall m | 1 <= m <= q
      ensures !CompleteRun(live, q, m, sum)
    {
      assert live[q - m..q][m - 1] == live[q - 1];
    }
  }

  /** What the slots of a directory come to: one that begins with 0 ends it, one that begins with 0xE5 is left out. */
  lemma SlotRead(s: Slot, rest: seq<Item>)
    ensures Body([Entry(s)] + rest) == if s[0] == 0 then [] else if s[0] == 0xE5 then Body(rest) else [s] + Body(rest)
  {
    var items := [Entry(s)] + rest;
    assert items[1..] == rest;
  }

  /** A written slot with bit 3 of the attributes, a volume label, is no entry, though it counts as a short one. */
  lemma LabelIsNoEntry(base: seq<Byte>, ext: seq<Byte>, attributes: Byte, cluster: Word, times: seq<Byte>, size: Word)
    requires 1 <= |base| <= 8 && |ext| <= 3 && |times| == 12 && base[0] != 0xE5 && attributes != 0x0F
    ensures var s := ShortSlot(base, ext, attributes, cluster, times, size);
      IsShort(s) && (IsEntry(s) <==> attributes / 8 % 2 == 0)
  {
    var s := ShortSlot(base, ext, attributes, cluster, times, size);
    ShortFields(base, ext, attributes, cluster, times, size);
    assert s[0] == s[0..8][0];
  }
}

/** fat32_readdir: the loops over clusters, sectors and slots, with the long name built in place. */
module Fat32Readdir {
  import opened Machine
  import opened CString
  import opened Fat32

  const LFN_BUFFER := 256

  /** The state kept in lfn_buffer, lfn_pos, lfn_sequence and lfn_checksum stands for st. */
  ghost predicate Holds(buf: array<Byte>, pos: nat, sequence: int, checksum: Byte, st: Lfn)
    reads buf
  {
    && buf.Length == LFN_BUFFER && pos < 255
    && st == Lfn(buf[..pos], sequence, checksum)
    && buf[pos] == 0
  }

  method ComputeChecksum(sfn: seq<Byte>) returns (sum: Byte)
    requires |sfn| == 11
    ensures sum == Checksum(sfn)
  {
    sum := 0;
    var i := 0;
    while i < 11
      invariant 0 <= i <= 11 && sum == Checksum(sfn, i)
    {
      sum := ((if sum % 2 == 1 then 0x80 else 0) + sum / 2 + sfn[i]) % 256;
      i := i + 1;
    }
  }

  /** One of the three loops that pick the byte-sized characters out of a slot. */
  method CopyUnits(s: Slot, at: nat, n: nat, temp: array<Byte>, start: nat) returns (pos: nat)
    requires at + 2 * n <= SLOT && start + n <= 13 && temp.Length == 14
    modifies temp
    ensures start <= pos <= start + n
    ensures temp[..pos] == old(temp[..start]) + LowUnits(s, at, n)
  {
    pos := start;
    var k := 0;
    while k < n && pos < 13
      invariant 0 <= k <= n && start <= pos <= start + k
      invariant temp[..pos] == old(temp[..start]) + LowUnits(s, at, k)
    {
      var u := U16(s, at + 2 * k);
      if u <= 0xFF && u != 0xFFFF {
        temp[pos] := u;
        pos := pos + 1;
        assert temp[..pos] == temp[..pos - 1] + [u];
      }
      k := k + 1;
    }
  }

  method ExtractPart(s: Slot, temp: array<Byte>) returns (pos: nat)
    requires temp.Length == 14
    modifies temp
    ensures pos == |Part(s)| && temp[..pos] == Part(s)
  {
    hide LowUnits;
    pos := CopyUnits(s, 1, 5, temp, 0);
    assert temp[..pos] == LowUnits(s, 1, 5);
    pos := CopyUnits(s, 14, 6, temp, pos);
    assert temp[..pos] == LowUnits(s, 1, 5) + LowUnits(s, 14, 6);
    pos := CopyUnits(s, 28, 2, temp, pos);
    assert temp[..pos] == Part(s);
    temp[pos] := 0;
  }

  /** The long-name branch of the slot loop. */
  method TakeLong(s: Slot, buf: array<Byte>, temp: array<Byte>, pos0: nat, sequence0: int, checksum0: Byte,
          ghost st: Lfn)
    returns (pos: nat, sequence: int, checksum: Byte)
    requires Holds(buf, pos0, sequence0, checksum0, st) && temp.Length == 14 && temp != buf
    modifies buf, temp
    ensures Holds(buf, pos, sequence, checksum, OnLong(st, s))
  {
    pos, sequence, checksum := pos0, sequence0, checksum0;
    var seqno := s[0] % 32;
    if s[0] / 64 % 2 == 1 {
      pos := 0;
      sequence := seqno;
      checksum := s[13];
      buf[0] := 0;
    }
    ghost var begun := Begin(st, s);
    assert Holds(buf, pos, sequence, checksum, begun);
    if seqno != sequence || checksum != s[13] {
      pos := 0;
      sequence := 0;
      buf[0] := 0;
      return;
    }
    var n := ExtractPart(s, temp);
    if pos + n < 255 {
      PrependPart(buf, pos, temp, n);
      pos := pos + n;
    } else {
      pos := 0;
      sequence := 0;
      buf[0] := 0;
    }
    sequence := sequence - 1;
  }

  /** Shift the collected name right by n bytes and copy the new part in front of it. */
  method PrependPart(buf: array<Byte>, pos: nat, temp: array<Byte>, n: nat)
    requires buf.Length == LFN_BUFFER && pos + n < 255 && buf[pos] == 0
    requires temp.Length == 14 && n <= 13 && temp != buf
    modifies buf
    ensures buf[..pos + n] == Padded(temp[..n], n) + old(buf[..pos]) && buf[pos + n] == 0
  {
    hide Padded;
    Memmove(buf, n, 0, pos + 1);
    assert buf[n..n + pos + 1] == old(buf[..pos + 1]);
    assert buf[n + pos] == buf[n..n + pos + 1][pos] == 0;
    ghost var moved := buf[n..n + pos];
    Strncpy(buf, temp[..n], n);
    assert buf[n..n + pos] == moved;
    assert buf[..pos + n] == buf[..n] + buf[n..n + pos];
  }

  /** Copy s up to its first space to name, from position start. */
  method CopyUpToSpace(s: seq<Byte>, name: array<Byte>, start: nat) returns (k: nat)
    requires start + |s| <= name.Length
    modifies name
    ensures k == start + |UpToSpace(s)| && name[..k] == old(name[..start]) + UpToSpace(s)
  {
    k := start;
    var m := 0;
    while m < |s| && s[m] != 0x20
      invariant 0 <= m <= |UpToSpace(s)| && k == start + m
      invariant name[..k] == old(name[..start]) + UpToSpace(s)[..m]
    {
      assert m < |UpToSpace(s)| by { NotYetSpace(s, m); }
      name[k] := s[m];
      k := k + 1;
      m := m + 1;
      assert name[..k] == name[..k - 1] + [s[m - 1]];
    }
    assert m == |UpToSpace(s)|;
  }

  lemma NotYetSpace(s: seq<Byte>, m: nat)
    requires m <= |UpToSpace(s)| && m < |s| && s[m] != 0x20
    ensures m < |UpToSpace(s)|
  {
  }

  method BuildShort(s: Slot, name: array<Byte>)
    requires name.Length == 13
    modifies name
    ensures Text(name[..]) == Text(ShortName(s)) && |Text(name[..])| < 13
  {
    hide UpToSpace, Text;
    var k := FillShort(s, name);
    name[k] := 0;
    assert name[..k] == ShortName(s);
    assert name[..] == ShortName(s) + ([0] + name[k + 1..]);
    TextPrefix(ShortName(s), [0] + name[k + 1..]);
  }

  method FillShort(s: Slot, name: array<Byte>) returns (k: nat)
    requires name.Length == 13
    modifies name
    ensures k == |ShortName(s)| && name[..k] == ShortName(s)
  {
    hide UpToSpace;
    k := CopyUpToSpace(s[0..8], name, 0);
    assert name[..k] == UpToSpace(s[0..8]);
    if s[8] != 0x20 {
      name[k] := 0x2E;
      k := k + 1;
      assert name[..k] == UpToSpace(s[0..8]) + [0x2E];
      k := CopyUpToSpace(s[8..11], name, k);
    }
  }

  /** Bytes after a NUL do not matter. */
  lemma {:induction false} TextPrefix(s: seq<Byte>, t: seq<Byte>)
    requires t != [] && t[0] == 0
    ensures Text(s + t) == Text(s) && |Text(s + t)| < |s + t|
  {
    if s == [] {
      assert s + t == t;
    } else {
      assert (s + t)[1..] == s[1..] + t;
      TextPrefix(s[1..], t);
    }
  }

  /** The short-entry branch that produces a directory entry. */
  method TakeShort(s: Slot, buf: array<Byte>, pos: nat, sequence: int, checksum: Byte, dname: array<Byte>,
          ghost st: Lfn)
    returns (entry: Dirent)
    requires Holds(buf, pos, sequence, checksum, st) && dname.Length == 256 && dname != buf
    modifies dname
    ensures entry == DirentOf(st, s)
    ensures Text(dname[..]) == entry.name && |entry.name| < 255
  {
    hide Text, ShortName, Checksum;
    var name := new Byte[13](_ => 0);
    BuildShort(s, name);
    var sum := ComputeChecksum(s[..11]);
    var useLong := pos > 0 && sequence == 0 && sum == checksum;
    assert useLong == UsesLong(st, s);
    var final := if useLong then buf[..] else name[..];
    ghost var text := Text(if useLong then st.units else ShortName(s));
    if useLong {
      assert buf[..] == buf[..pos] + ([0] + buf[pos + 1..]);
      TextPrefix(buf[..pos], [0] + buf[pos + 1..]);
    }
    assert Text(final) == text && |text| < 255;
    Strncpy(dname, final, 255);
    dname[255] := 0;
    PaddedText(final, 255);
    assert dname[..] == Padded(final, 255) + [0];
    TextPrefix(Padded(final, 255), [0]);
    entry := Dirent(U16(s, 20) * 65536 + U16(s, 26), Text(dname[..]), s[11] / 16 % 2 == 1);
  }

  lemma UnrollSector(s: Sector, j: nat, rest: seq<Item>)
    requires j < SECTOR && j % SLOT == 0
    ensures var items := SectorItems(s, j) + rest;
      items != [] && items[0] == Entry(s[j..j + SLOT]) && items[1..] == SectorItems(s, j + SLOT) + rest
  {
  }

  lemma SectorEnds(s: Sector, rest: seq<Item>)
    ensures SectorItems(s, SECTOR) + rest == rest
  {
  }

  /** One slot that does not end the directory: skip, collect, count, or ask for it to be returned. */
  method TakeSlot(slot: Slot, index: nat, buf: array<Byte>, temp: array<Byte>, pos0: nat, sequence0: int,
          checksum0: Byte, current0: nat, ghost st: Lfn)
    returns (emit: bool, pos: nat, sequence: int, checksum: Byte, current: nat)
    requires Holds(buf, pos0, sequence0, checksum0, st) && temp.Length == 14 && temp != buf
    modifies buf, temp
    ensures emit == Emits(slot, current0, index)
    ensures emit ==> Holds(buf, pos, sequence, checksum, st)
    ensures !emit ==>
      Holds(buf, pos, sequence, checksum, NextLfn(st, slot)) && current == NextCount(slot, current0, index)
  {
    emit, pos, sequence, checksum, current := false, pos0, sequence0, checksum0, current0;
    if slot[0] == 0xE5 {
      return;
    }
    if slot[11] == 0x0F {
      pos, sequence, checksum := TakeLong(slot, buf, temp, pos, sequence, checksum, st);
      return;
    }
    if current < index {
      current := current + 1;
      pos := 0;
      sequence := 0;
      buf[0] := 0;
      return;
    }
    if slot[11] / 8 % 2 == 1 {
      pos := 0;
      sequence := 0;
      buf[0] := 0;
      return;
    }
    emit := true;
  }

  /** The loop over the sixteen slots of one sector; `rest` is what follows it in the directory. */
  method ScanSector(sector: Sector, index: nat, buf: array<Byte>, temp: array<Byte>, dname: array<Byte>, pos0: nat,
          sequence0: int, checksum0: Byte, current0: nat, ghost st0: Lfn, ghost rest: seq<Item>)
    returns (r: Option<Result>, pos: nat, sequence: int, checksum: Byte, current: nat, ghost st: Lfn)
    requires Holds(buf, pos0, sequence0, checksum0, st0)
    requires temp.Length == 14 && dname.Length == 256 && temp != buf && dname != buf && dname != temp
    modifies buf, temp, dname
    ensures r.None? ==> Holds(buf, pos, sequence, checksum, st)
    ensures Scan(SectorItems(sector) + rest, st0, current0, index) ==
      if r.Some? then r.value else Scan(rest, st, current, index)
    ensures r.Some? && r.value.Found? ==> Text(dname[..]) == r.value.entry.name && |r.value.entry.name| < 255
  {
    hide DirentOf, NextLfn, NextCount, Emits, Holds, SectorItems;
    pos, sequence, checksum, current, st := pos0, sequence0, checksum0, current0, st0;
    var j := 0;
    while j < 512
      invariant 0 <= j <= SECTOR && j % SLOT == 0
      invariant Holds(buf, pos, sequence, checksum, st)
      invariant Scan(SectorItems(sector) + rest, st0, current0, index) ==
        Scan(SectorItems(sector, j) + rest, st, current, index)
    {
      UnrollSector(sector, j, rest);
      var slot: Slot := sector[j..j + SLOT];
      if slot[0] == 0x00 {
        return Some(Finished), pos, sequence, checksum, current, st;
      }
      var emit;
      emit, pos, sequence, checksum, current := TakeSlot(slot, index, buf, temp, pos, sequence, checksum, current, st);
      if emit {
        var entry := TakeShort(slot, buf, pos, sequence, checksum, dname, st);
        return Some(Found(entry)), pos, sequence, checksum, current, st;
      }
      st := NextLfn(st, slot);
      j := j + 32;
    }
    SectorEnds(sector, rest);
    r := None;
  }

  lemma ScanUnreadable(items: seq<Item>, st: Lfn, current: nat, index: nat)
    requires items != [] && items[0] == Unreadable
    ensures Scan(items, st, current, index) == Failed
  {
  }

  /** The loop over the sectors of one cluster. */
  method ScanCluster(fs: Fs, lba: Word, index: nat, buf: array<Byte>, temp: array<Byte>, dname: array<Byte>,
          pos0: nat, sequence0: int, checksum0: Byte, current0: nat, ghost st0: Lfn, ghost rest: seq<Item>)
    returns (r: Option<Result>, pos: nat, sequence: int, checksum: Byte, current: nat, ghost st: Lfn)
    requires Holds(buf, pos0, sequence0, checksum0, st0)
    requires temp.Length == 14 && dname.Length == 256 && temp != buf && dname != buf && dname != temp
    modifies buf, temp, dname
    ensures r.None? ==> Holds(buf, pos, sequence, checksum, st)
    ensures Scan(ClusterItems(fs, lba) + rest, st0, current0, index) ==
      if r.Some? then r.value else Scan(rest, st, current, index)
    ensures r.Some? && r.value.Found? ==> Text(dname[..]) == r.value.entry.name && |r.value.entry.name| < 255
  {
    pos, sequence, checksum, current, st := pos0, sequence0, checksum0, current0, st0;
    hide Scan, SectorItems, Holds;
    var i := 0;
    while i < fs.sectorsPerCluster
      invariant 0 <= i <= fs.sectorsPerCluster
      invariant Holds(buf, pos, sequence, checksum, st)
      invariant Scan(ClusterItems(fs, lba) + rest, st0, current0, index) ==
        Scan(ClusterItems(fs, lba, i) + rest, st, current, index)
    {
      if Wrap32(lba + i) !in fs.sectors {
        ScanUnreadable(ClusterItems(fs, lba, i) + rest, st, current, index);
        return Some(Failed), pos, sequence, checksum, current, st;
      }
      var sector := fs.sectors[Wrap32(lba + i)];
      ghost var more := ClusterItems(fs, lba, i + 1) + rest;
      assert ClusterItems(fs, lba, i) + rest == SectorItems(sector) + more;
      r, pos, sequence, checksum, current, st := ScanSector(sector, index, buf, temp, dname, pos, sequence, checksum,
          current, st, more);
      if r.Some? {
        return;
      }
      i := i + 1;
    }
    assert ClusterItems(fs, lba, i) + rest == rest;
    r := None;
  }

  /** What readdir answers for index `index` in the directory stored in `chain`. */
  ghost function ReaddirOf(fs: Fs, chain: seq<Word>, index: nat): Result {
    Scan(ChainItems(fs, chain), IDLE, 0, index)
  }

  /**
  Return the entry for `index` in the directory that starts at `first`, its name also in dname as a C
  string, and the index for the next call. The chain argument exists exactly when the walk ends.
  */
  method Readdir(fs: Fs, first: Word, index: nat, dname: array<Byte>, ghost chain: seq<Word>)
    returns (r: Result, index': nat)
    requires IsChain(fs, first, chain) && dname.Length == 256
    modifies dname
    ensures r == ReaddirOf(fs, chain, index)
    ensures r.Found? ==> Text(dname[..]) == r.entry.name && |r.entry.name| < 255
    ensures index' == if r.Found? then index + 1 else index
  {
    var cluster := first;
    var buf := new Byte[LFN_BUFFER](_ => 0);
    var temp := new Byte[14](_ => 0);
    var pos, sequence, checksum, current := 0, 0, 0, 0;
    ghost var st, todo := IDLE, chain;
    assert buf[..0] == [];
    while cluster != END
      invariant IsChain(fs, cluster, todo)
      invariant Holds(buf, pos, sequence, checksum, st)
      invariant ReaddirOf(fs, chain, index) == Scan(ChainItems(fs, todo), st, current, index)
      decreases |todo|
    {
      var o;
      o, pos, sequence, checksum, current, st := ScanCluster(fs, ClusterLba(fs, cluster), index, buf, temp, dname,
        pos, sequence, checksum, current, st, ChainItems(fs, todo[1..]));
      if o.Some? {
        return o.value, if o.value.Found? then index + 1 else index;
      }
      cluster := NextCluster(fs, cluster);
      todo := todo[1..];
    }
    r, index' := Finished, index;
  }
}

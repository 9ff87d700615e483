/** A volume laid out as section 4 of the FAT specification says, and a file read back from it. */
module Fat32Volume {
  import opened Machine
  import opened Arith
  import opened Fat32
  import opened Fat32Read

  const END_MARK: Word := 0x0FFF_FFF8

  /** Entry c of the file allocation table lies in four bytes, low byte first, 4c bytes behind the table's start. */
  ghost predicate TableOn(fs: Fs, fat: seq<Word>) {
    && |fat| <= 0x1000_0000
    && forall c :: 0 <= c < |fat| ==> EntryOn(fs, c, fat[c])
  }

  ghost predicate EntryOn(fs: Fs, c: nat, entry: Word) {
    var sector, at := fs.fatStart + 4 * c / 512, 4 * c % 512;
    sector < 0x1_0000_0000 && sector in fs.sectors && fs.sectors[sector][at..at + 4] == Le32(entry)
  }

  /** The table links the clusters of a file, in their low 28 bits, and ends with an end mark. */
  ghost predicate Links(fat: seq<Word>, chain: seq<Word>) {
    forall i :: 0 <= i < |chain| ==> LinkAt(fat, chain, i)
  }

  ghost predicate LinkAt(fat: seq<Word>, chain: seq<Word>, i: nat)
    requires i < |chain|
  {
    && 2 <= chain[i] < |fat|
    && var entry := fat[chain[i]] % 0x1000_0000;
       if i + 1 < |chain| then entry == chain[i + 1] < END_MARK else entry >= END_MARK
  }

  /** Cluster c lies in consecutive sectors; the first cluster of the data region has number 2. */
  ghost predicate ClusterOn(fs: Fs, c: Word, bytes: seq<Byte>) {
    && |bytes| == ClusterSize(fs)
    && forall j :: 0 <= j < fs.sectorsPerCluster ==> SectorOn(fs, c, bytes, j)
  }

  ghost predicate SectorOn(fs: Fs, c: Word, bytes: seq<Byte>, j: nat) {
    var sector := fs.dataStart + (c - 2) * fs.sectorsPerCluster + j;
    && 2 <= c && 0 <= sector < 0x1_0000_0000 && sector in fs.sectors && 512 * j + 512 <= |bytes|
    && fs.sectors[sector] == bytes[512 * j..512 * j + 512]
  }

  /** The clusters of the chain hold the parts of a file. */
  ghost predicate FileOn(fs: Fs, fat: seq<Word>, chain: seq<Word>, parts: seq<seq<Byte>>) {
    && TableOn(fs, fat) && Links(fat, chain) && |parts| == |chain|
    && forall i :: 0 <= i < |chain| ==> ClusterOn(fs, chain[i], parts[i])
  }

  lemma EntryComesBack(fs: Fs, fat: seq<Word>, c: Word)
    requires TableOn(fs, fat) && c < |fat|
    ensures FatEntry(fs, c) == fat[c] % 0x1000_0000
  {
    assert EntryOn(fs, c, fat[c]);
    var sector, at := fs.fatStart + 4 * c / 512, 4 * c % 512;
    assert Wrap32(c * 4) == 4 * c;
    hide Le32;
    WordComesBack(fs.sectors[sector], at, fat[c]);
  }

  lemma NextComesBack(fs: Fs, fat: seq<Word>, chain: seq<Word>, i: nat)
    requires TableOn(fs, fat) && Links(fat, chain) && i < |chain|
    ensures chain[i] != END && NextCluster(fs, chain[i]) == if i + 1 < |chain| then chain[i + 1] else END
  {
    assert LinkAt(fat, chain, i);
    assert chain[i] < 0x1000_0000;
    hide TableOn, FatEntry;
    EntryComesBack(fs, fat, chain[i]);
  }

  lemma {:induction false} ChainComesBack(fs: Fs, fat: seq<Word>, chain: seq<Word>, i: nat)
    requires TableOn(fs, fat) && Links(fat, chain) && i < |chain|
    ensures IsChain(fs, chain[i], chain[i..])
    decreases |chain| - i
  {
    hide TableOn, Links, NextCluster;
    NextComesBack(fs, fat, chain, i);
    assert chain[i..][1..] == chain[i + 1..];
    if i + 1 < |chain| {
      ChainComesBack(fs, fat, chain, i + 1);
    } else {
      assert chain[i + 1..] == [];
      assert IsChain(fs, NextCluster(fs, chain[i]), []);
    }
  }

  lemma SectorComesBack(fs: Fs, c: Word, bytes: seq<Byte>, j: nat)
    requires SectorOn(fs, c, bytes, j) && j < fs.sectorsPerCluster
    ensures var at := Wrap32(ClusterLba(fs, c) + j);
      at in fs.sectors && fs.sectors[at] == bytes[512 * j..512 * j + 512]
  {
    LbaComesBack(fs, c, j, (c - 2) * fs.sectorsPerCluster);
  }

  lemma LbaComesBack(fs: Fs, c: Word, j: nat, offset: int)
    requires 2 <= c && offset == (c - 2) * fs.sectorsPerCluster && 0 <= fs.dataStart + offset + j < 0x1_0000_0000
    ensures Wrap32(ClusterLba(fs, c) + j) == fs.dataStart + offset + j
  {
    assert offset >= 0;
    assert Wrap32(c - 2) == c - 2;
    assert Wrap32((c - 2) * fs.sectorsPerCluster) == offset;
    assert ClusterLba(fs, c) == fs.dataStart + offset;
  }

  lemma {:induction false} SectorsComeBack(fs: Fs, c: Word, bytes: seq<Byte>, n: nat)
    requires ClusterOn(fs, c, bytes) && n <= fs.sectorsPerCluster
    ensures SectorsData(fs, ClusterLba(fs, c), n) == bytes[..512 * n]
  {
    hide ClusterLba, SectorOn;
    if n > 0 {
      SectorsComeBack(fs, c, bytes, n - 1);
      assert SectorOn(fs, c, bytes, n - 1);
      SectorComesBack(fs, c, bytes, n - 1);
      assert bytes[..512 * n] == bytes[..512 * (n - 1)] + bytes[512 * (n - 1)..512 * n];
    }
  }

  lemma ClusterComesBack(fs: Fs, c: Word, bytes: seq<Byte>)
    requires ClusterOn(fs, c, bytes)
    ensures Readable(fs, c) && ClusterData(fs, c) == bytes
  {
    hide ClusterLba, SectorOn;
    forall j | 0 <= j < fs.sectorsPerCluster
      ensures SectorReadable(fs, ClusterLba(fs, c), j)
    {
      assert SectorOn(fs, c, bytes, j);
      SectorComesBack(fs, c, bytes, j);
    }
    SectorsComeBack(fs, c, bytes, fs.sectorsPerCluster);
    assert bytes[..|bytes|] == bytes;
  }

  function Joined(parts: seq<seq<Byte>>): seq<Byte> {
    if parts == [] then [] else parts[0] + Joined(parts[1..])
  }

  lemma {:induction false} ContentsComeBack(fs: Fs, chain: seq<Word>, parts: seq<seq<Byte>>)
    requires |parts| == |chain| && forall i :: 0 <= i < |chain| ==> ClusterOn(fs, chain[i], parts[i])
    ensures Contents(fs, chain) == Joined(parts)
    decreases |chain|
  {
    hide ClusterOn, ClusterData;
    if chain != [] {
      ClusterComesBack(fs, chain[0], parts[0]);
      ContentsComeBack(fs, chain[1..], parts[1..]);
    }
  }

  /**
  A written file is read back: its chain is the written one, no read fails, and a read returns as many bytes
  as are asked for and exist, each the byte written at its place.
  */
  lemma FileComesBack(fs: Fs, fat: seq<Word>, chain: seq<Word>, parts: seq<seq<Byte>>, count: nat, offset: nat)
    requires FileOn(fs, fat, chain, parts) && chain != []
    ensures IsChain(fs, chain[0], chain)
    ensures var r := ReadFrom(fs, chain, count, offset);
      && r.Bytes?
      && |r.bytes| == Least(count, if offset < |Joined(parts)| then |Joined(parts)| - offset else 0)
      && forall i :: 0 <= i < |r.bytes| ==> offset + i < |Joined(parts)| && r.bytes[i] == Joined(parts)[offset + i]
  {
    hide ClusterOn, TableOn, ReadFrom, Contents, Joined;
    assert chain[0..] == chain;
    ChainComesBack(fs, fat, chain, 0);
    ContentsComeBack(fs, chain, parts);
    forall i | 0 <= i < |chain| ensures Readable(fs, chain[i]) {
      ClusterComesBack(fs, chain[i], parts[i]);
    }
    assert AllReadable(fs, chain, count, offset);
    ReadMeaning(fs, chain, count, offset);
  }

  /**
  An empty file has cluster 0 on disk, and entry 0 of the table is an end mark. Its reads take the sectors two
  clusters before the data region for its contents: only a read of no bytes finds the end of the file.
  */
  lemma EmptyFileRead(fs: Fs, fat: seq<Word>, count: nat)
    requires TableOn(fs, fat) && fat != [] && fat[0] % 0x1000_0000 >= END_MARK && fs.sectorsPerCluster > 0
    ensures IsChain(fs, 0, [0]) && ClusterLba(fs, 0) == (fs.dataStart - 2 * fs.sectorsPerCluster) % 0x1_0000_0000
    ensures ReadFrom(fs, [0], count, 0) == Bytes([]) <==> count == 0
    ensures var r := ReadFrom(fs, [0], count, 0); r.Bytes? ==> |r.bytes| == Least(count, ClusterSize(fs))
  {
    EntryComesBack(fs, fat, 0);
    assert IsChain(fs, END, []);
    BeforeData(fs.dataStart, fs.sectorsPerCluster);
    hide TableOn, FatEntry, ReadFrom, Contents, AllReadable;
    assert [0][1..] == [];
    ReadMeaning(fs, [0], count, 0);
  }

  lemma BeforeData(start: Word, size: Byte)
    ensures Wrap32(start + Wrap32(Wrap32(0 - 2) * size)) == (start - 2 * size) % 0x1_0000_0000
  {
    assert Wrap32(0 - 2) == 0x1_0000_0000 - 2;
    var x := 0x1_0000_0000 * size - 2 * size;
    assert Wrap32(0 - 2) * size == x;
    if size > 0 {
      DivisionUnique(x, 0x1_0000_0000, size - 1, 0x1_0000_0000 - 2 * size);
      var sum := start + (0x1_0000_0000 - 2 * size);
      assert sum - 0x1_0000_0000 == start - 2 * size;
      assert if sum < 0x1_0000_0000 then sum % 0x1_0000_0000 == sum else sum % 0x1_0000_0000 == sum - 0x1_0000_0000;
    }
  }
}

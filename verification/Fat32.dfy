/**
The FAT32 volume as the kernel reads it: file allocation table, cluster chains, and directory
enumeration with long names (Microsoft FAT File System Specification, August 2005, sections 4, 6, 7).
*/
module Fat32 {
  import opened Machine
  import opened CString

  const SECTOR := 512
  const SLOT := 32
  const END: Word := 0xFFFFFFFF

  type Sector = s: seq<Byte> | |s| == 512 witness seq(512, _ => 0)
  type Slot = s: seq<Byte> | |s| == 32 witness seq(32, _ => 0)

  /** A mounted volume; a sector the device cannot read is absent from `sectors`. */
  datatype Fs = Fs(sectorsPerCluster: Byte, fatStart: Word, dataStart: Word, sectors: map<Word, Sector>)

  // ----- the file allocation table

  function FatEntry(fs: Fs, cluster: Word): Word {
    var offset := Wrap32(cluster * 4);
    var lba := Wrap32(fs.fatStart + offset / SECTOR);
    if lba !in fs.sectors then END else U32(fs.sectors[lba], offset % SECTOR) % 0x1000_0000
  }

  function NextCluster(fs: Fs, cluster: Word): Word {
    var next := FatEntry(fs, cluster);
    if next >= 0x0FFF_FFF8 then END else next
  }

  function ClusterLba(fs: Fs, cluster: Word): Word {
    Wrap32(fs.dataStart + Wrap32(Wrap32(cluster - 2) * fs.sectorsPerCluster))
  }

  /** Following the table from `cluster` visits exactly `chain` and then ends. */
  ghost predicate IsChain(fs: Fs, cluster: Word, chain: seq<Word>)
    decreases |chain|
  {
    if chain == [] then cluster == END
    else cluster == chain[0] && cluster != END && IsChain(fs, NextCluster(fs, cluster), chain[1..])
  }

  /** A chain is decided by its first cluster: walks that end visit the same clusters. */
  lemma {:induction false} ChainUnique(fs: Fs, cluster: Word, a: seq<Word>, b: seq<Word>)
    requires IsChain(fs, cluster, a) && IsChain(fs, cluster, b)
    ensures a == b
    decreases |a|
  {
    if a != [] {
      ChainUnique(fs, NextCluster(fs, cluster), a[1..], b[1..]);
    }
  }

  /** A walk that ends never comes back to a cluster. */
  lemma ChainAcyclic(fs: Fs, cluster: Word, chain: seq<Word>, i: nat, j: nat)
    requires IsChain(fs, cluster, chain) && i < j < |chain|
    ensures chain[i] != chain[j]
  {
    ChainSuffix(fs, cluster, chain, i);
    ChainSuffix(fs, cluster, chain, j);
    if chain[i] == chain[j] {
      ChainUnique(fs, chain[i], chain[i..], chain[j..]);
    }
  }

  lemma {:induction false} ChainSuffix(fs: Fs, cluster: Word, chain: seq<Word>, i: nat)
    requires IsChain(fs, cluster, chain) && i < |chain|
    ensures IsChain(fs, chain[i], chain[i..])
    decreases i
  {
    if i > 0 {
      ChainSuffix(fs, NextCluster(fs, cluster), chain[1..], i - 1);
      assert chain[1..][i - 1..] == chain[i..];
    } else {
      assert chain[0..] == chain;
    }
  }

  // ----- the slots of a directory

  datatype Item = Entry(slot: Slot) | Unreadable

  function SectorItems(s: Sector, from: nat := 0): seq<Item>
    requires from <= SECTOR && from % SLOT == 0
    decreases SECTOR - from
  {
    if from == SECTOR then [] else [Entry(s[from..from + SLOT])] + SectorItems(s, from + SLOT)
  }

  /** Sectors i and later of a cluster; nothing is read beyond one the device refuses. */
  function ClusterItems(fs: Fs, lba: Word, i: nat := 0): seq<Item>
    requires i <= fs.sectorsPerCluster
    decreases fs.sectorsPerCluster - i
  {
    if i == fs.sectorsPerCluster then []
    else if Wrap32(lba + i) in fs.sectors then
      SectorItems(fs.sectors[Wrap32(lba + i)]) + ClusterItems(fs, lba, i + 1)
    else [Unreadable] + ClusterItems(fs, lba, i + 1)
  }

  function ChainItems(fs: Fs, chain: seq<Word>): seq<Item> {
    if chain == [] then [] else ClusterItems(fs, ClusterLba(fs, chain[0])) + ChainItems(fs, chain[1..])
  }

  // ----- one slot

  predicate IsLast(s: Slot) { s[0] == 0 }
  predicate IsDeleted(s: Slot) { s[0] == 0xE5 }
  predicate IsLong(s: Slot) { s[11] == 0x0F }
  predicate IsLabel(s: Slot) { s[11] / 8 % 2 == 1 }
  predicate IsDirectory(s: Slot) { s[11] / 16 % 2 == 1 }
  predicate StartsLong(s: Slot) { s[0] / 64 % 2 == 1 }
  function Sequence(s: Slot): nat { s[0] % 32 }
  function LongChecksum(s: Slot): Byte { s[13] }

  function RotateAdd(sum: Byte, b: Byte): Byte {
    ((if sum % 2 == 1 then 0x80 else 0) + sum / 2 + b) % 256
  }

  /** The checksum of the first n bytes of a short name. */
  function Checksum(s: seq<Byte>, n: nat := |s|): Byte
    requires n <= |s|
  {
    if n == 0 then 0 else RotateAdd(Checksum(s, n - 1), s[n - 1])
  }

  function ShortChecksum(s: Slot): Byte { Checksum(s[..11]) }

  /** s up to its first space. */
  function UpToSpace(s: seq<Byte>): (r: seq<Byte>)
    ensures r <= s && 0x20 !in r
    ensures |r| < |s| ==> s[|r|] == 0x20
  {
    if s == [] || s[0] == 0x20 then [] else [s[0]] + UpToSpace(s[1..])
  }

  function ShortName(s: Slot): (r: seq<Byte>)
    ensures |r| <= 12
  {
    UpToSpace(s[0..8]) + if s[8] == 0x20 then [] else [0x2E] + UpToSpace(s[8..11])
  }

  /** The 16-bit units at byte offset `at` that fit in a byte, as bytes. */
  function LowUnits(s: Slot, at: nat, n: nat): (r: seq<Byte>)
    requires at + 2 * n <= SLOT
    ensures |r| <= n
  {
    if n == 0 then []
    else
      var u := U16(s, at + 2 * (n - 1));
      LowUnits(s, at, n - 1) + if u <= 0xFF then [u] else []
  }

  /** The name characters one long-name slot contributes. */
  function Part(s: Slot): (r: seq<Byte>)
    ensures |r| <= 13
  {
    LowUnits(s, 1, 5) + LowUnits(s, 14, 6) + LowUnits(s, 28, 2)
  }

  // ----- the long-name state machine

  /** The name collected so far, the sequence number expected next, and the checksum of the run. */
  datatype Lfn = Lfn(units: seq<Byte>, sequence: int, checksum: Byte)

  const IDLE := Lfn([], 0, 0)

  function Reset(st: Lfn): Lfn { Lfn([], 0, st.checksum) }

  function Begin(st: Lfn, s: Slot): Lfn {
    if StartsLong(s) then Lfn([], Sequence(s), LongChecksum(s)) else st
  }

  predicate Continues(st: Lfn, s: Slot) {
    Sequence(s) == st.sequence && LongChecksum(s) == st.checksum
  }

  function Prepend(st: Lfn, s: Slot): Lfn {
    var part := Part(s);
    if |st.units| + |part| < 255 then
      Lfn(Padded(part, |part|) + st.units, st.sequence - 1, st.checksum)
    else Lfn([], -1, st.checksum)
  }

  function OnLong(st: Lfn, s: Slot): Lfn {
    var begun := Begin(st, s);
    if Continues(begun, s) then Prepend(begun, s) else Reset(begun)
  }

  // ----- readdir as a function of the slots

  datatype Dirent = Dirent(ino: Word, name: seq<Byte>, isDir: bool)
  datatype Result = Failed | Finished | Found(entry: Dirent)

  predicate UsesLong(st: Lfn, s: Slot) {
    st.units != [] && st.sequence == 0 && ShortChecksum(s) == st.checksum
  }

  function DirentOf(st: Lfn, s: Slot): Dirent {
    Dirent(U16(s, 20) * 65536 + U16(s, 26),
           Text(if UsesLong(st, s) then st.units else ShortName(s)),
           IsDirectory(s))
  }

  predicate IsShort(s: Slot) { !IsDeleted(s) && !IsLong(s) }

  /** Whether readdir returns this slot, having already counted `current` of the `index` entries to skip. */
  predicate Emits(s: Slot, current: nat, index: nat) {
    IsShort(s) && current >= index && !IsLabel(s)
  }

  function NextLfn(st: Lfn, s: Slot): Lfn {
    if IsDeleted(s) then st else if IsLong(s) then OnLong(st, s) else Reset(st)
  }

  function NextCount(s: Slot, current: nat, index: nat): nat {
    if IsShort(s) && current < index then current + 1 else current
  }

  /** The outcome of readdir on the remaining items, after `current` short entries were counted. */
  function Scan(items: seq<Item>, st: Lfn, current: nat, index: nat): Result {
    if items == [] then Finished
    else match items[0]
      case Unreadable => Failed
      case Entry(s) =>
        if IsLast(s) then Finished
        else if Emits(s, current, index) then Found(DirentOf(st, s))
        else Scan(items[1..], NextLfn(st, s), NextCount(s, current, index), index)
  }
}

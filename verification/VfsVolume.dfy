/** Files of a written volume are found by their paths and read back. */
module VfsVolume {
  import opened Machine
  import opened CString
  import opened Fat32
  import opened Fat32Listing
  import opened Fat32Names
  import opened Fat32RoundTrip
  import opened Fat32Entries
  import opened Fat32Read
  import opened Fat32Volume
  import opened VfsPath

  // ----- directories as they are stored

  /** The slots of 32 bytes in the contents of a directory. */
  function Cut(bytes: seq<Byte>): (items: seq<Item>)
    requires |bytes| % 32 == 0
    ensures |items| == |bytes| / 32
  {
    if bytes == [] then [] else [Entry(bytes[..32])] + Cut(bytes[32..])
  }

  lemma {:induction false} CutJoin(a: seq<Byte>, b: seq<Byte>)
    requires |a| % 32 == 0 && |b| % 32 == 0
    ensures Cut(a + b) == Cut(a) + Cut(b)
  {
    if a == [] {
      assert a + b == b;
    } else {
      assert (a + b)[..32] == a[..32] && (a + b)[32..] == a[32..] + b;
      CutJoin(a[32..], b);
    }
  }

  lemma {:induction false} SectorCut(s: Sector, from: nat)
    requires from <= SECTOR && from % SLOT == 0
    ensures SectorItems(s, from) == Cut(s[from..])
    decreases SECTOR - from
  {
    if from < SECTOR {
      assert s[from..][..32] == s[from..from + 32] && s[from..][32..] == s[from + 32..];
      SectorCut(s, from + SLOT);
    }
  }

  lemma {:induction false} ClusterCut(fs: Fs, c: Word, bytes: seq<Byte>, i: nat)
    requires ClusterOn(fs, c, bytes) && i <= fs.sectorsPerCluster
    ensures 512 * i <= |bytes| && |bytes| % 32 == 0
    ensures ClusterItems(fs, ClusterLba(fs, c), i) == Cut(bytes[512 * i..])
    decreases fs.sectorsPerCluster - i
  {
    hide ClusterLba, SectorOn, SectorItems;
    assert |bytes| == 512 * fs.sectorsPerCluster;
    if i < fs.sectorsPerCluster {
      assert SectorOn(fs, c, bytes, i);
      SectorComesBack(fs, c, bytes, i);
      var sector := bytes[512 * i..512 * i + 512];
      SectorCut(sector, 0);
      assert sector[0..] == sector;
      ClusterCut(fs, c, bytes, i + 1);
      CutJoin(sector, bytes[512 * (i + 1)..]);
      assert bytes[512 * i..] == sector + bytes[512 * (i + 1)..];
    } else {
      assert bytes[512 * i..] == [];
    }
  }

  lemma {:induction false} ChainCut(fs: Fs, chain: seq<Word>, parts: seq<seq<Byte>>)
    requires |parts| == |chain| && forall i :: 0 <= i < |chain| ==> ClusterOn(fs, chain[i], parts[i])
    ensures |Joined(parts)| % 32 == 0 && ChainItems(fs, chain) == Cut(Joined(parts))
    decreases |chain|
  {
    hide ClusterOn, ClusterItems, ClusterLba;
    if chain != [] {
      ClusterCut(fs, chain[0], parts[0], 0);
      assert parts[0][0..] == parts[0];
      ChainCut(fs, chain[1..], parts[1..]);
      CutJoin(parts[0], Joined(parts[1..]));
    }
  }

  /** The slots that readdir meets in a written directory are those written, in order. */
  lemma DirectoryComesBack(fs: Fs, fat: seq<Word>, chain: seq<Word>, parts: seq<seq<Byte>>)
    requires FileOn(fs, fat, chain, parts) && chain != []
    ensures ChainFrom(fs, chain[0]) == chain
    ensures |Joined(parts)| % 32 == 0 && ItemsOf(fs, chain[0]) == Cut(Joined(parts))
  {
    hide ClusterOn, TableOn, Links, IsChain, ChainFrom, ChainItems, Joined, Cut;
    FirstChain(fs, fat, chain);
    ChainCut(fs, chain, parts);
  }

  lemma FirstChain(fs: Fs, fat: seq<Word>, chain: seq<Word>)
    requires TableOn(fs, fat) && Links(fat, chain) && chain != []
    ensures ChainFrom(fs, chain[0]) == chain
  {
    hide TableOn, Links, IsChain;
    assert chain[0..] == chain;
    ChainComesBack(fs, fat, chain, 0);
    ChainUnique(fs, chain[0], chain, ChainFrom(fs, chain[0]));
  }

  // ----- entries by name

  /** Slot q is a written entry under a long name of up to 253 characters or, without one, under its 8.3 name. */
  ghost predicate EntryOf(live: seq<Slot>, q: nat, e: Dirent) {
    q < |live| && exists base, ext, attributes ::
      && EntryIn(live, q, base, ext, attributes, e.ino) && (e.isDir <==> attributes / 16 % 2 == 1)
      && (if q > 0 && IsLong(live[q - 1]) then Written(live, q, e.name) && |e.name| <= 253
          else e.name == ShortText(base, ext))
  }

  lemma EntryFound(live: seq<Slot>, q: nat, e: Dirent)
    requires EntryOf(live, q, e) && forall i :: 0 <= i < |live| ==> !IsDeleted(live[i])
    ensures q < |live| && IsEntry(live[q]) && EntryAt(live, q) == e
  {
    hide EntryIn, EntryAt, Written, ShortText, ShortName, CompleteRun, ShortChecksum;
    var base, ext, attributes :|
      && EntryIn(live, q, base, ext, attributes, e.ino) && (e.isDir <==> attributes / 16 % 2 == 1)
      && (if q > 0 && IsLong(live[q - 1]) then Written(live, q, e.name) && |e.name| <= 253
          else e.name == ShortText(base, ext));
    EntryFields(live, q, base, ext, attributes, e.ino);
    if q > 0 && IsLong(live[q - 1]) {
      NameComesBack(live, q, e.name);
    } else {
      NoRunBefore(live, q, ShortChecksum(live[q]));
      NameIs(live, q);
    }
  }

  /** The entry e is written, and the first in the directory whose name is `name` up to case. */
  ghost predicate FirstNamed(items: seq<Item>, e: Dirent, name: seq<Byte>) {
    var live := Body(items);
    SameText(e.name, name) && exists q :: 0 <= q < |live| && EntryOf(live, q, e) && NoneNamed(live, q, name)
  }

  ghost predicate NoneNamed(live: seq<Slot>, q: nat, name: seq<Byte>)
    requires q <= |live|
  {
    forall j :: 0 <= j < q && IsEntry(live[j]) ==> !SameText(EntryAt(live, j).name, name)
  }

  /** A written entry is found: its stored name, its first cluster, and whether it is a directory. */
  lemma NameFound(items: seq<Item>, e: Dirent, name: seq<Byte>)
    requires FirstNamed(items, e, name)
    ensures MatchIn(items, name) == At(Node(e.name, e.ino, e.isDir))
  {
    hide EntryOf, EntryAt, SameText;
    var live := Body(items);
    var q :| 0 <= q < |live| && EntryOf(live, q, e) && NoneNamed(live, q, name);
    EntryFound(live, q, e);
    FirstMatchIs(live, name, q);
  }

  // ----- paths

  /** The root is the directory at cluster 2, which mounting sets. */
  lemma RootResolves(fs: Fs)
    ensures Resolve(fs, [SLASH]) == Resolve(fs, []) == At(Node([], 2, true))
  {
    assert Relative([SLASH]) == [] && Relative([]) == [];
  }

  /** One step of a way: the contents of the directory and the entry taken. */
  datatype Place = Place(chain: seq<Word>, parts: seq<seq<Byte>>, entry: Dirent)

  ghost predicate StepOn(fs: Fs, fat: seq<Word>, cluster: Word, place: Place, name: seq<Byte>) {
    && FileOn(fs, fat, place.chain, place.parts) && place.chain != [] && place.chain[0] == cluster
    && name != [] && SLASH !in name
    && |Joined(place.parts)| % 32 == 0 && FirstNamed(Cut(Joined(place.parts)), place.entry, name)
  }

  /** The names lead from the directory at `cluster` through the places: all but the last entry are directories. */
  ghost predicate Leads(fs: Fs, fat: seq<Word>, cluster: Word, way: seq<Place>, names: seq<seq<Byte>>)
    decreases |way|
  {
    && |way| == |names| && way != []
    && StepOn(fs, fat, cluster, way[0], names[0])
    && (|way| > 1 ==> way[0].entry.isDir && Leads(fs, fat, way[0].entry.ino, way[1..], names[1..]))
  }

  /** The names with a slash before each. */
  function PathOf(names: seq<seq<Byte>>): seq<Byte> {
    if names == [] then [] else [SLASH] + names[0] + PathOf(names[1..])
  }

  lemma {:induction false} SplitPath(fs: Fs, fat: seq<Word>, cluster: Word, way: seq<Place>, names: seq<seq<Byte>>)
    requires Leads(fs, fat, cluster, way, names)
    ensures PathOf(names) != [] && PathOf(names)[0] == SLASH && Split(PathOf(names)[1..]) == names
    decreases |names|
  {
    hide FileOn, FirstNamed;
    var p := PathOf(names)[1..];
    if |names| == 1 {
      assert PathOf(names[1..]) == [];
      assert p == names[0];
      SplitNoSlash(names[0]);
    } else {
      SplitPath(fs, fat, way[0].entry.ino, way[1..], names[1..]);
      var rest := PathOf(names[1..]);
      assert p == names[0] + [SLASH] + rest[1..];
      SplitAtSlash(names[0], rest[1..]);
    }
  }

  lemma {:induction false} WalkWay(fs: Fs, fat: seq<Word>, current: Node, way: seq<Place>, names: seq<seq<Byte>>)
    requires Leads(fs, fat, current.cluster, way, names) && current.isDir
    ensures var e := way[|way| - 1].entry; Walk(fs, current, names) == At(Node(e.name, e.ino, e.isDir))
    decreases |names|
  {
    hide FileOn, FirstNamed, ItemsOf, MatchIn, ChainFrom, Cut, Joined;
    var place := way[0];
    DirectoryComesBack(fs, fat, place.chain, place.parts);
    NameFound(Cut(Joined(place.parts)), place.entry, names[0]);
    assert Child(fs, current, names[0]) == At(Node(place.entry.name, place.entry.ino, place.entry.isDir));
    if |names| > 1 {
      WalkWay(fs, fat, Node(place.entry.name, place.entry.ino, place.entry.isDir), way[1..], names[1..]);
    }
  }

  /** A path through written directories names the written entry at its end. */
  lemma PathFound(fs: Fs, fat: seq<Word>, way: seq<Place>, names: seq<seq<Byte>>)
    requires Leads(fs, fat, 2, way, names) && |PathOf(names)| <= 255
    ensures var e := way[|way| - 1].entry; Resolve(fs, PathOf(names)) == At(Node(e.name, e.ino, e.isDir))
  {
    hide Leads, Split, PathOf, Walk;
    SplitPath(fs, fat, 2, way, names);
    assert Relative(PathOf(names)) == PathOf(names)[1..];
    WalkWay(fs, fat, ROOT, way, names);
  }

  /**
  A written file is read back through its path: every read from the node's cluster returns the bytes written, as many as
  are asked for and exist.
  */
  lemma FileReadBack(fs: Fs, fat: seq<Word>, way: seq<Place>, names: seq<seq<Byte>>, chain: seq<Word>,
          parts: seq<seq<Byte>>, count: nat, offset: nat)
    requires Leads(fs, fat, 2, way, names) && |PathOf(names)| <= 255
    requires FileOn(fs, fat, chain, parts) && chain != [] && way[|way| - 1].entry.ino == chain[0]
    ensures Resolve(fs, PathOf(names)).At?
    ensures var r := ReadFrom(fs, ChainFrom(fs, Resolve(fs, PathOf(names)).node.cluster), count, offset);
      && r.Bytes?
      && |r.bytes| == Least(count, if offset < |Joined(parts)| then |Joined(parts)| - offset else 0)
      && forall i :: 0 <= i < |r.bytes| ==> offset + i < |Joined(parts)| && r.bytes[i] == Joined(parts)[offset + i]
  {
    hide Leads, ReadFrom, Resolve, PathOf, FileOn, ChainFrom, Joined;
    PathFound(fs, fat, way, names);
    DirectoryComesBack(fs, fat, chain, parts);
    FileComesBack(fs, fat, chain, parts, count, offset);
  }
}

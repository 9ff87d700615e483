/** Reading file data through a cluster chain. */
module Fat32Read {
  import opened Machine
  import opened Arith
  import opened Fat32

  const EIO := 5

  datatype Data = Bytes(bytes: seq<Byte>) | ReadError

  function ClusterSize(fs: Fs): nat { fs.sectorsPerCluster * SECTOR }

  /** Whether the device can read every sector of a cluster. */
  predicate Readable(fs: Fs, cluster: Word) {
    forall i :: 0 <= i < fs.sectorsPerCluster ==> SectorReadable(fs, ClusterLba(fs, cluster), i)
  }

  predicate SectorReadable(fs: Fs, lba: Word, i: nat) { Wrap32(lba + i) in fs.sectors }

  /** The bytes of the first n sectors of a cluster; a sector that cannot be read counts as zeros. */
  function SectorsData(fs: Fs, lba: Word, n: nat): (bs: seq<Byte>)
    ensures |bs| == n * SECTOR
  {
    if n == 0 then []
    else
      var at := Wrap32(lba + n - 1);
      SectorsData(fs, lba, n - 1) + if at in fs.sectors then fs.sectors[at] else seq(SECTOR, _ => 0)
  }

  function ClusterData(fs: Fs, cluster: Word): (bs: seq<Byte>)
    ensures |bs| == ClusterSize(fs)
  {
    SectorsData(fs, ClusterLba(fs, cluster), fs.sectorsPerCluster)
  }

  /** The bytes of a file: its clusters one after the other. */
  function Contents(fs: Fs, chain: seq<Word>): (bs: seq<Byte>)
    ensures |bs| == |chain| * ClusterSize(fs)
  {
    if chain == [] then []
    else
      OneMore(|chain| - 1, ClusterSize(fs));
      ClusterData(fs, chain[0]) + Contents(fs, chain[1..])
  }

  /** At most `count` bytes of s from `offset` on. */
  function Slice(s: seq<Byte>, offset: nat, count: nat): seq<Byte> {
    if offset >= |s| then [] else if offset + count >= |s| then s[offset..] else s[offset..offset + count]
  }

  /** What the two loops of fat32_read collect. */
  function ReadFrom(fs: Fs, chain: seq<Word>, count: nat, offset: nat): Data {
    if chain == [] then Bytes([])
    else if offset >= ClusterSize(fs) then ReadFrom(fs, chain[1..], count, offset - ClusterSize(fs))
    else if count == 0 then Bytes([])
    else if !Readable(fs, chain[0]) then ReadError
    else
      var n := Least(count, ClusterSize(fs) - offset);
      After(ClusterData(fs, chain[0])[offset..offset + n], ReadFrom(fs, chain[1..], count - n, 0))
  }

  /** d with the bytes collected earlier in front. */
  function After(done: seq<Byte>, d: Data): Data {
    match d
    case Bytes(bs) => Bytes(done + bs)
    case ReadError => ReadError
  }

  lemma AfterAfter(done: seq<Byte>, part: seq<Byte>, d: Data)
    ensures After(done, After(part, d)) == After(done + part, d)
  {
    if d.Bytes? {
      assert done + (part + d.bytes) == done + part + d.bytes;
    }
  }

  // ----- what a read means

  /** Cluster i of the file holds some of the requested bytes. */
  ghost predicate Touched(size: nat, i: nat, count: nat, offset: nat) {
    count > 0 && i * size < offset + count && offset < i * size + size
  }

  ghost predicate AllReadable(fs: Fs, chain: seq<Word>, count: nat, offset: nat) {
    forall i :: 0 <= i < |chain| && Touched(ClusterSize(fs), i, count, offset) ==> Readable(fs, chain[i])
  }

  lemma TouchedShift(size: nat, i: nat, count: nat, offset: nat)
    requires i > 0
    ensures offset >= size ==> (Touched(size, i, count, offset) <==> Touched(size, i - 1, count, offset - size))
    ensures offset < size && offset + count > size ==>
      (Touched(size, i, count, offset) <==> Touched(size, i - 1, count - (size - offset), 0))
    ensures offset + count <= size ==> !Touched(size, i, count, offset)
  {
    assert i * size == (i - 1) * size + size;
    assert (i - 1) * size >= 0;
  }

  /** A read fails exactly when a cluster that holds requested bytes cannot be read. */
  lemma {:induction false} ReadFailsIff(fs: Fs, chain: seq<Word>, count: nat, offset: nat)
    ensures ReadFrom(fs, chain, count, offset) == ReadError <==> !AllReadable(fs, chain, count, offset)
    decreases |chain|
  {
    if chain != [] {
      var size := ClusterSize(fs);
      var (c, o) := if offset >= size then (count, offset - size) else (count - Least(count, size - offset), 0);
      ReadFailsIff(fs, chain[1..], c, o);
      assert Touched(size, 0, count, offset) <==> count > 0 && offset < size;
      forall i | 0 < i < |chain|
        ensures Touched(size, i, count, offset) <==> Touched(size, i - 1, c, o)
      {
        TouchedShift(size, i, count, offset);
      }
      AllReadableSplit(fs, chain, count, offset, c, o);
    }
  }

  lemma AllReadableSplit(fs: Fs, chain: seq<Word>, count: nat, offset: nat, c: nat, o: nat)
    requires chain != []
    requires forall i :: 0 < i < |chain| ==>
      (Touched(ClusterSize(fs), i, count, offset) <==> Touched(ClusterSize(fs), i - 1, c, o))
    ensures AllReadable(fs, chain, count, offset) <==>
      (Touched(ClusterSize(fs), 0, count, offset) ==> Readable(fs, chain[0])) && AllReadable(fs, chain[1..], c, o)
  {
    hide Touched, Readable;
    var rest := chain[1..];
    if AllReadable(fs, chain, count, offset) {
      forall i | 0 <= i < |rest| && Touched(ClusterSize(fs), i, c, o)
        ensures Readable(fs, rest[i])
      {
        assert Touched(ClusterSize(fs), i + 1, count, offset) && rest[i] == chain[i + 1];
      }
    }
    if AllReadable(fs, rest, c, o) {
      forall i | 0 < i < |chain| && Touched(ClusterSize(fs), i, count, offset)
        ensures Readable(fs, chain[i])
      {
        assert rest[i - 1] == chain[i];
      }
    }
  }

  /** A read that does not fail returns exactly the requested part of the file that exists. */
  lemma {:induction false} ReadIsSlice(fs: Fs, chain: seq<Word>, count: nat, offset: nat)
    ensures var r := ReadFrom(fs, chain, count, offset);
      r.Bytes? ==> r.bytes == Slice(Contents(fs, chain), offset, count)
    decreases |chain|
  {
    if chain != [] {
      var size := ClusterSize(fs);
      var a, b := ClusterData(fs, chain[0]), Contents(fs, chain[1..]);
      if offset >= size {
        ReadIsSlice(fs, chain[1..], count, offset - size);
        SliceSkip(a, b, offset, count);
      } else {
        var n := Least(count, size - offset);
        ReadIsSlice(fs, chain[1..], count - n, 0);
        SliceJoin(a, b, offset, count);
      }
    }
  }

  lemma SliceSkip(a: seq<Byte>, b: seq<Byte>, offset: nat, count: nat)
    requires offset >= |a|
    ensures Slice(a + b, offset, count) == Slice(b, offset - |a|, count)
  {
  }

  lemma SliceJoin(a: seq<Byte>, b: seq<Byte>, offset: nat, count: nat)
    requires offset < |a|
    ensures var n := Least(count, |a| - offset);
      Slice(a + b, offset, count) == a[offset..offset + n] + Slice(b, 0, count - n)
  {
  }

  /** The number of bytes a read returns: what is asked for, or what is left of the n clusters. */
  lemma SliceLength(s: seq<Byte>, offset: nat, count: nat)
    ensures |Slice(s, offset, count)| == Least(count, if offset < |s| then |s| - offset else 0)
  {
  }

  /**
  fat32_read as its callers see it: -EIO exactly when a cluster with requested bytes is unreadable, and
  otherwise the bytes of the concatenated clusters from the offset on, as many as are asked for and exist.
  */
  lemma ReadMeaning(fs: Fs, chain: seq<Word>, count: nat, offset: nat)
    ensures var total := |chain| * ClusterSize(fs);
      match ReadFrom(fs, chain, count, offset)
      case ReadError => !AllReadable(fs, chain, count, offset)
      case Bytes(bs) =>
        && AllReadable(fs, chain, count, offset)
        && |bs| == Least(count, if offset < total then total - offset else 0)
        && forall i :: 0 <= i < |bs| ==> offset + i < total && bs[i] == Contents(fs, chain)[offset + i]
  {
    hide ReadFrom, AllReadable, Contents;
    ReadFailsIff(fs, chain, count, offset);
    ReadIsSlice(fs, chain, count, offset);
    SliceLength(Contents(fs, chain), offset, count);
  }

  /** Two reads in a row: the second starts where the first ended, and a failed read is the end of it. */
  function ReadThen(fs: Fs, chain: seq<Word>, a: nat, b: nat, offset: nat): Data {
    match ReadFrom(fs, chain, a, offset)
    case ReadError => ReadError
    case Bytes(first) => After(first, ReadFrom(fs, chain, b, offset + |first|))
  }

  /** Reading a bytes and then b bytes is reading a + b bytes: the same bytes, and a failure in the same cases. */
  lemma ReadTwice(fs: Fs, chain: seq<Word>, a: nat, b: nat, offset: nat)
    ensures ReadThen(fs, chain, a, b, offset) == ReadFrom(fs, chain, a + b, offset)
  {
    hide ReadFrom, Contents, AllReadable;
    ReadFailsIff(fs, chain, a + b, offset);
    ReadFailsIff(fs, chain, a, offset);
    if AllReadable(fs, chain, a + b, offset) {
      FewerTouched(fs, chain, a + b, offset, a, offset);
    }
    if AllReadable(fs, chain, a, offset) {
      ReadIsSlice(fs, chain, a, offset);
      SliceLength(Contents(fs, chain), offset, a);
      ReadOn(fs, chain, a, b, offset, |ReadFrom(fs, chain, a, offset).bytes|);
    }
  }

  lemma ReadOn(fs: Fs, chain: seq<Word>, a: nat, b: nat, offset: nat, n: nat)
    requires AllReadable(fs, chain, a, offset) && ReadFrom(fs, chain, a, offset).Bytes?
    requires n == |ReadFrom(fs, chain, a, offset).bytes|
    requires n == Least(a, if offset < |Contents(fs, chain)| then |Contents(fs, chain)| - offset else 0)
    ensures After(ReadFrom(fs, chain, a, offset).bytes, ReadFrom(fs, chain, b, offset + n))
      == ReadFrom(fs, chain, a + b, offset)
  {
    hide ReadFrom, Contents, AllReadable;
    ReadFailsIff(fs, chain, a + b, offset);
    ReadFailsIff(fs, chain, b, offset + n);
    if AllReadable(fs, chain, a + b, offset) {
      FewerTouched(fs, chain, a + b, offset, b, offset + n);
    }
    if AllReadable(fs, chain, b, offset + n) {
      AllTouched(fs, chain, a, b, offset, n);
    }
    ReadIsSlice(fs, chain, a + b, offset);
    ReadIsSlice(fs, chain, a, offset);
    ReadIsSlice(fs, chain, b, offset + n);
    SplitRead(Contents(fs, chain), offset, a, b);
  }

  /** What the two reads touch is all that the one read touches. */
  lemma AllTouched(fs: Fs, chain: seq<Word>, a: nat, b: nat, offset: nat, n: nat)
    requires AllReadable(fs, chain, a, offset) && AllReadable(fs, chain, b, offset + n)
    requires n == Least(a, if offset < |Contents(fs, chain)| then |Contents(fs, chain)| - offset else 0)
    ensures AllReadable(fs, chain, a + b, offset)
  {
    hide Readable;
    var size := ClusterSize(fs);
    forall i | 0 <= i < |chain| && Touched(size, i, a + b, offset)
      ensures Readable(fs, chain[i])
    {
      MulAtLeast(size, |chain|, i);
      assert size * i == i * size && size * |chain| == |chain| * size;
      assert Touched(size, i, a, offset) || Touched(size, i, b, offset + n);
    }
  }

  lemma FewerTouched(fs: Fs, chain: seq<Word>, count: nat, offset: nat, c: nat, o: nat)
    requires AllReadable(fs, chain, count, offset) && offset <= o && o + c <= offset + count
    ensures AllReadable(fs, chain, c, o)
  {
    hide Readable;
    forall i | 0 <= i < |chain| && Touched(ClusterSize(fs), i, c, o)
      ensures Readable(fs, chain[i])
    {
      assert Touched(ClusterSize(fs), i, count, offset);
    }
  }

  /** Reading a bytes and then b bytes from where the first read ended gives the same as reading a + b. */
  lemma SplitRead(s: seq<Byte>, offset: nat, a: nat, b: nat)
    ensures var first := Slice(s, offset, a);
      first + Slice(s, offset + |first|, b) == Slice(s, offset, a + b)
  {
  }

  // ----- fat32_read

  /** Copy the sectors of a cluster into the cluster buffer. */
  method ReadCluster(fs: Fs, cluster: Word, buffer: array<Byte>) returns (ok: bool)
    requires ClusterSize(fs) <= buffer.Length
    modifies buffer
    ensures ok == Readable(fs, cluster)
    ensures ok ==> buffer[..ClusterSize(fs)] == ClusterData(fs, cluster)
  {
    var lba := ClusterLba(fs, cluster);
    var n := 0;
    while n < fs.sectorsPerCluster
      invariant 0 <= n <= fs.sectorsPerCluster
      invariant forall i :: 0 <= i < n ==> SectorReadable(fs, lba, i)
      invariant buffer[..n * SECTOR] == SectorsData(fs, lba, n)
    {
      if Wrap32(lba + n) !in fs.sectors {
        assert !SectorReadable(fs, lba, n);
        return false;
      }
      ghost var before := buffer[..n * SECTOR];
      CopyInto(buffer, n * SECTOR, fs.sectors[Wrap32(lba + n)]);
      n := n + 1;
      assert buffer[..(n - 1) * SECTOR] == before;
      assert buffer[..n * SECTOR] == buffer[..(n - 1) * SECTOR] + buffer[(n - 1) * SECTOR..n * SECTOR];
    }
    ok := true;
  }

  method CopyInto(dest: array<Byte>, at: nat, src: seq<Byte>)
    requires at + |src| <= dest.Length
    modifies dest
    ensures dest[at..at + |src|] == src
    ensures forall k :: 0 <= k < dest.Length && !(at <= k < at + |src|) ==> dest[k] == old(dest[k])
  {
    var i := 0;
    while i < |src|
      invariant 0 <= i <= |src|
      invariant forall k :: at <= k < at + i ==> dest[k] == src[k - at]
      invariant forall k :: 0 <= k < dest.Length && !(at <= k < at + i) ==> dest[k] == old(dest[k])
    {
      dest[at + i] := src[i];
      i := i + 1;
    }
  }

  /** Append a part after the bytes already copied. */
  method AppendPart(buf: array<Byte>, at: nat, ghost done: seq<Byte>, part: seq<Byte>, ghost was: seq<Byte>)
    requires at == |done| && |was| == buf.Length && |done| + |part| <= buf.Length
    requires buf[..] == done + was[|done|..]
    modifies buf
    ensures buf[..] == done + part + was[|done| + |part|..]
  {
    CopyInto(buf, at, part);
  }

  /** The buffer holds `done` in front of its former contents, or only the former contents. */
  ghost predicate Delivered(buf: array<Byte>, copies: bool, done: seq<Byte>, was: seq<Byte>)
    reads buf
  {
    |done| <= |was| == buf.Length && buf[..] == if copies then done + was[|done|..] else was
  }

  /** Step over the clusters that lie wholly before the offset. */
  method SkipClusters(fs: Fs, first: Word, count: nat, offset0: nat, ghost chain: seq<Word>)
    returns (cluster: Word, offset: nat, ghost todo: seq<Word>)
    requires IsChain(fs, first, chain)
    ensures IsChain(fs, cluster, todo) && (cluster != END ==> offset < ClusterSize(fs))
    ensures ReadFrom(fs, chain, count, offset0) == ReadFrom(fs, todo, count, offset)
  {
    hide Readable, ClusterData, FatEntry;
    cluster, offset, todo := first, offset0, chain;
    var size := fs.sectorsPerCluster * 512;
    while offset >= size && cluster != END
      invariant IsChain(fs, cluster, todo)
      invariant ReadFrom(fs, chain, count, offset0) == ReadFrom(fs, todo, count, offset)
      decreases |todo|
    {
      offset := offset - size;
      cluster := NextCluster(fs, cluster);
      todo := todo[1..];
    }
  }

  /** Read one cluster and copy n of its bytes behind those already delivered. */
  method TakeCluster(fs: Fs, cluster: Word, offset: nat, n: nat, clusterBuffer: array<Byte>, buf: array<Byte>,
          copies: bool, at: nat, ghost done: seq<Byte>, ghost was: seq<Byte>)
    returns (ok: bool)
    requires ClusterSize(fs) <= clusterBuffer.Length && offset + n <= ClusterSize(fs) && clusterBuffer != buf
    requires at == |done| && |was| == buf.Length && at + n <= buf.Length
    requires Delivered(buf, copies, done, was)
    modifies clusterBuffer, buf
    ensures ok == Readable(fs, cluster)
    ensures !ok ==> Delivered(buf, copies, done, was)
    ensures ok ==> Delivered(buf, copies, done + ClusterData(fs, cluster)[offset..offset + n], was)
  {
    ok := ReadCluster(fs, cluster, clusterBuffer);
    if !ok {
      return;
    }
    hide Readable, ClusterData;
    if copies {
      var data := clusterBuffer[..ClusterSize(fs)];
      AppendPart(buf, at, done, data[offset..offset + n], was);
    }
  }

  lemma ReadStep(fs: Fs, todo: seq<Word>, count: nat, offset: nat, done: seq<Byte>)
    requires todo != [] && 0 < count && offset < ClusterSize(fs)
    ensures !Readable(fs, todo[0]) ==> After(done, ReadFrom(fs, todo, count, offset)) == ReadError
    ensures var n := Least(count, ClusterSize(fs) - offset);
      Readable(fs, todo[0]) ==>
        After(done, ReadFrom(fs, todo, count, offset)) ==
        After(done + ClusterData(fs, todo[0])[offset..offset + n], ReadFrom(fs, todo[1..], count - n, 0))
  {
    hide Readable, ClusterData;
    var n := Least(count, ClusterSize(fs) - offset);
    AfterAfter(done, ClusterData(fs, todo[0])[offset..offset + n], ReadFrom(fs, todo[1..], count - n, 0));
  }

  /**
  Read up to `count` bytes at `offset` of the file that starts at `first`. The committed source lost its
  memcpy inside a comment; `copies` says whether the copy is made, everything else is the same.
  */
  method Read(fs: Fs, first: Word, buf: array<Byte>, count: nat, offset0: nat, copies: bool, ghost chain: seq<Word>)
    returns (r: int)
    requires IsChain(fs, first, chain) && ClusterSize(fs) <= 4096 && count <= buf.Length
    modifies buf
    ensures match ReadFrom(fs, chain, count, offset0)
      case ReadError => r == -EIO
      case Bytes(bs) => r == |bs| <= count && buf[..] == if copies then bs + old(buf[..])[|bs|..] else old(buf[..])
    ensures !copies ==> buf[..] == old(buf[..])
    ensures forall k :: count <= k < buf.Length ==> buf[k] == old(buf[k])
  {
    var cluster, offset;
    ghost var todo, was := chain, buf[..];
    cluster, offset, todo := SkipClusters(fs, first, count, offset0, chain);
    assert Delivered(buf, copies, [], was);
    assert After([], ReadFrom(fs, todo, count, offset)) == ReadFrom(fs, todo, count, offset);
    ghost var done;
    r, done := CopyClusters(fs, cluster, buf, count, offset, copies, todo, was);
  }

  /** The copying loop. */
  method CopyClusters(fs: Fs, first: Word, buf: array<Byte>, count: nat, offset0: nat, copies: bool,
          ghost chain: seq<Word>, ghost was: seq<Byte>)
    returns (r: int, ghost done: seq<Byte>)
    requires IsChain(fs, first, chain) && ClusterSize(fs) <= 4096 && count <= buf.Length
    requires Delivered(buf, copies, [], was) && |was| == buf.Length && (first != END ==> offset0 < ClusterSize(fs))
    modifies buf
    ensures Delivered(buf, copies, done, was) && |done| <= count
    ensures match After([], ReadFrom(fs, chain, count, offset0))
      case ReadError => r == -EIO
      case Bytes(bs) => bs == done && r == |done|
  {
    hide ClusterData, Readable, FatEntry, ReadFrom, Delivered;
    var cluster: Word, offset: nat := first, offset0;
    ghost var todo := chain;
    done := [];
    var size := fs.sectorsPerCluster * 512;
    var clusterBuffer := new Byte[4096](_ => 0);
    var bytesRead: nat := 0;
    while cluster != END && bytesRead < count
      invariant IsChain(fs, cluster, todo) && (cluster != END ==> offset < size)
      invariant bytesRead == |done| <= count
      invariant After([], ReadFrom(fs, chain, count, offset0)) ==
        After(done, ReadFrom(fs, todo, count - bytesRead, offset))
      invariant Delivered(buf, copies, done, was) && |was| == buf.Length
      decreases |todo|
    {
      var toCopy := if count - bytesRead < size - offset then count - bytesRead else size - offset;
      ReadStep(fs, todo, count - bytesRead, offset, done);
      var ok := TakeCluster(fs, cluster, offset, toCopy, clusterBuffer, buf, copies, bytesRead, done, was);
      if !ok {
        return -EIO, done;
      }
      done := done + ClusterData(fs, cluster)[offset..offset + toCopy];
      bytesRead := bytesRead + toCopy;
      offset := 0;
      cluster := NextCluster(fs, cluster);
      todo := todo[1..];
    }
    ReadDone(fs, todo, count - bytesRead, offset, done);
    r := bytesRead;
  }

  lemma ReadDone(fs: Fs, todo: seq<Word>, count: nat, offset: nat, done: seq<Byte>)
    requires todo == [] || count == 0
    ensures After(done, ReadFrom(fs, todo, count, offset)) == Bytes(done)
  {
    NoneWanted(fs, todo, offset);
    assert done + [] == done;
  }

  lemma {:induction false} NoneWanted(fs: Fs, todo: seq<Word>, offset: nat)
    ensures ReadFrom(fs, todo, 0, offset) == Bytes([])
    decreases |todo|
  {
    if todo != [] && offset >= ClusterSize(fs) {
      NoneWanted(fs, todo[1..], offset - ClusterSize(fs));
    }
  }
}

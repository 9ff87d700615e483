/** The descriptor table of the virtual file system, over a mounted FAT32 volume. */
module Vfs {
  import opened Machine
  import opened CString
  import opened Fat32
  import opened Fat32Read
  import opened VfsPath

  const MAX_FDS := 32
  const ENOENT := 2
  const EBADF := 9
  const EACCES := 13
  const EINVAL := 22
  const EMFILE := 24
  const ENOSYS := 38
  const LONG_MAX := 0x7FFF_FFFF

  datatype Descriptor = Descriptor(node: Option<Node>, offset: int, flags: Word)

  const CLOSED := Descriptor(None, 0, 0)

  /** What a read of `count` bytes through descriptor d yields, and the descriptor afterwards. */
  ghost function ReadThrough(fs: Fs, d: Descriptor, count: nat): (Data, Descriptor)
    requires d.node.Some? && d.offset >= 0
  {
    var r := ReadFrom(fs, ChainFrom(fs, d.node.value.cluster), count, d.offset);
    (r, if r.Bytes? then d.(offset := d.offset + |r.bytes|) else d)
  }

  /**
  Reading a and then b bytes through a descriptor: both reads succeed if and only if one read of a + b does, and then
  they deliver its bytes and end at its offset.
  */
  lemma ReadThroughTwice(fs: Fs, d: Descriptor, a: nat, b: nat)
    requires d.node.Some? && d.offset >= 0
    ensures var (r1, d1) := ReadThrough(fs, d, a);
      var (r2, d2) := ReadThrough(fs, d1, b);
      var (r, d') := ReadThrough(fs, d, a + b);
      && (r1.Bytes? && r2.Bytes? <==> r.Bytes?)
      && (r.Bytes? ==> r1.bytes + r2.bytes == r.bytes && d2 == d')
      && (r1 == ReadError ==> d1 == d)
  {
    hide ReadFrom;
    ReadTwice(fs, ChainFrom(fs, d.node.value.cluster), a, b, d.offset);
  }

  /** The node's chain ends, and its bytes can be counted by a signed 32-bit offset. */
  ghost predicate Measurable(fs: Fs, n: Node) {
    Walkable(fs, n.cluster) && |Contents(fs, ChainFrom(fs, n.cluster))| <= LONG_MAX
  }

  /** A read that returns something ends inside the file. */
  lemma ReadEndsInside(fs: Fs, n: Node, count: nat, offset: nat)
    requires Measurable(fs, n)
    ensures var r := ReadFrom(fs, ChainFrom(fs, n.cluster), count, offset);
      r.Bytes? ==> |r.bytes| <= count && (r.bytes != [] ==> offset + |r.bytes| <= LONG_MAX)
  {
    var chain := ChainFrom(fs, n.cluster);
    hide ReadFrom, Contents;
    ReadIsSlice(fs, chain, count, offset);
    SliceLength(Contents(fs, chain), offset, count);
  }

  class FileSystem {
    const fs: Fs
    const table: array<Descriptor>

    ghost predicate Valid()
      reads this, table
    {
      && table.Length == MAX_FDS
      && ClusterSize(fs) <= 4096
      && forall i :: 0 <= i < MAX_FDS ==> 0 <= table[i].offset <= LONG_MAX
    }

    predicate IsOpen(fd: int)
      reads this, table
      requires table.Length == MAX_FDS
    {
      0 <= fd < MAX_FDS && table[fd].node.Some?
    }

    constructor (fs: Fs)
      requires ClusterSize(fs) <= 4096
      ensures Valid() && fresh(table) && this.fs == fs
      ensures forall i :: 0 <= i < MAX_FDS ==> table[i] == CLOSED
    {
      this.fs := fs;
      table := new Descriptor[MAX_FDS](_ => CLOSED);
    }

    /** Opens the named node read-only in the lowest free slot; `hangs` stands for a lookup that never ends. */
    method Open(path: seq<Byte>, flags: Word, ghost dirs: set<Word>) returns (hangs: bool, r: int)
      requires Valid() && Closed(fs, dirs) && NulFree(path)
      modifies table
      ensures Valid()
      ensures hangs <==> Resolve(fs, path) == Stuck
      ensures Resolve(fs, path) == Stuck ==> r == -1
      ensures Resolve(fs, path) == Missing ==> r == -ENOENT
      ensures Resolve(fs, path).At? && flags % 2 == 1 ==> r == -EACCES
      ensures Resolve(fs, path).At? && flags % 2 == 0 ==>
        if forall i :: 0 <= i < MAX_FDS ==> old(table[i]).node.Some? then r == -EMFILE
        else 0 <= r < MAX_FDS && old(table[r]).node.None? && forall i :: 0 <= i < r ==> old(table[i]).node.Some?
      ensures table[..] ==
        if r < 0 then old(table[..]) else old(table[..])[r := Descriptor(Some(Resolve(fs, path).node), 0, flags)]
    {
      var found := ResolvePath(fs, path, dirs);
      if found == Stuck {
        return true, -1;
      }
      hangs := false;
      if found == Missing {
        return false, -ENOENT;
      }
      if flags % 2 == 1 {
        return false, -EACCES;
      }
      var i := 0;
      while i < MAX_FDS
        invariant 0 <= i <= MAX_FDS
        invariant forall k :: 0 <= k < i ==> table[k].node.Some?
        invariant table[..] == old(table[..])
      {
        if table[i].node.None? {
          table[i] := Descriptor(Some(found.node), 0, flags);
          return false, i;
        }
        i := i + 1;
      }
      r := -EMFILE;
    }

    /** Reads at the descriptor's offset and moves it by what was read; other descriptors do not change. */
    method Read(fd: int, buf: array<Byte>, count: nat, copies: bool) returns (r: int)
      requires Valid() && count <= buf.Length
      requires IsOpen(fd) ==> Measurable(fs, table[fd].node.value)
      modifies table, buf
      ensures Valid()
      ensures !old(IsOpen(fd)) ==> r == -EBADF && table[..] == old(table[..]) && buf[..] == old(buf[..])
      ensures old(IsOpen(fd)) ==>
        var (data, d) := ReadThrough(fs, old(table[fd]), count);
        && table[..] == old(table[..])[fd := d]
        && match data {
             case ReadError => r == -EIO
             case Bytes(bs) => r == |bs| <= buf.Length
               && buf[..] == if copies then bs + old(buf[..])[|bs|..] else old(buf[..])
           }
    {
      if fd < 0 || fd >= MAX_FDS || table[fd].node.None? {
        return -EBADF;
      }
      var node := table[fd].node.value;
      ghost var chain := ChainFrom(fs, node.cluster);
      assert IsChain(fs, node.cluster, chain);
      ReadEndsInside(fs, node, count, table[fd].offset);
      hide ReadFrom, Measurable, IsChain, ChainFrom;
      r := Fat32Read.Read(fs, node.cluster, buf, count, table[fd].offset, copies, chain);
      if r > 0 {
        table[fd] := table[fd].(offset := table[fd].offset + r);
      }
    }

    /** Moves the offset: absolute or relative, never below zero. */
    method Lseek(fd: int, offset: int, origin: nat) returns (r: int)
      requires Valid() && -LONG_MAX - 1 <= offset <= LONG_MAX
      requires IsOpen(fd) && origin == 1 ==> table[fd].offset + offset <= LONG_MAX
      modifies table
      ensures Valid()
      ensures if !old(IsOpen(fd)) then r == -EBADF
        else if origin == 2 then r == -ENOSYS
        else if origin > 2 then r == -EINVAL
        else var target := if origin == 0 then offset else old(table[fd]).offset + offset;
          r == if target < 0 then -EINVAL else target
      ensures table[..] == if r < 0 then old(table[..]) else old(table[..])[fd := old(table[fd]).(offset := r)]
    {
      if fd < 0 || fd >= MAX_FDS || table[fd].node.None? {
        return -EBADF;
      }
      var target;
      if origin == 0 {
        target := offset;
      } else if origin == 1 {
        target := table[fd].offset + offset;
      } else if origin == 2 {
        return -ENOSYS;
      } else {
        return -EINVAL;
      }
      if target < 0 {
        return -EINVAL;
      }
      table[fd] := table[fd].(offset := target);
      r := target;
    }

    method Close(fd: int) returns (r: int)
      requires Valid()
      modifies table
      ensures Valid()
      ensures if old(IsOpen(fd)) then r == 0 && table[..] == old(table[..])[fd := old(table[fd]).(node := None)]
        else r == -EBADF && table[..] == old(table[..])
    {
      if fd < 0 || fd >= MAX_FDS || table[fd].node.None? {
        return -EBADF;
      }
      table[fd] := table[fd].(node := None);
      r := 0;
    }
  }
}

/**
32-bit paging: the page-table pool, its bump allocator, the boot mappings and the single-page mapper,
judged by the page walk of section 4.3 of the Intel Software Developer's Manual, Volume 3A.
*/
module Paging {
  import opened Machine
  import opened Arith
  import opened Bits

  // Pages and tables hold 4096 bytes, tables and directories 1024 entries, the pool 1280 tables; a 4 GiB
  // address space has 0x100000 pages.

  const RW := 3                // PAGE_PRESENT | PAGE_WRITE

  // ----- the page walk

  /** Foreign: the directory entry points outside the pool of page tables. */
  datatype Translation = Unmapped | Foreign | Mapped(frame: nat, flags: nat)

  predicate Present(entry: Word) { entry % 2 == 1 }

  /** The pool index of the table a directory entry points to. */
  function TableIndex(pool: Word, entry: Word): int { (entry - entry % 4096 - pool) / 4096 }

  predicate InPool(pool: Word, entry: Word) {
    pool <= entry - entry % 4096 && TableIndex(pool, entry) < 1280
  }

  function Leaf(entry: Word): Translation {
    if Present(entry) then Mapped(entry / 4096, entry % 4096) else Unmapped
  }

  function Walk(pool: Word, dir: seq<Word>, tables: seq<Word>, page: nat): Translation
    requires |dir| == 1024 && |tables| == 1280 * 1024 && page < 0x10_0000
  {
    var entry := dir[page / 1024];
    if !Present(entry) then Unmapped
    else if !InPool(pool, entry) then Foreign
    else Leaf(tables[TableIndex(pool, entry) * 1024 + page % 1024])
  }

  predicate PoolOk(pool: Word) {
    pool % 4096 == 0 && pool + 1280 * 4096 <= WORD_LIMIT
  }

  /** The directory entry for table t of the pool. */
  function TableEntry(pool: Word, t: nat): Word
    requires PoolOk(pool) && t < 1280
  {
    pool + t * 4096 + RW
  }

  lemma TableEntryPoints(pool: Word, t: nat)
    requires PoolOk(pool) && t < 1280
    ensures var e := TableEntry(pool, t); Present(e) && InPool(pool, e) && TableIndex(pool, e) == t
  {
    var e := TableEntry(pool, t);
    var q := pool / 4096;
    assert pool == 4096 * q && e == 4096 * (q + t) + 3;
    PageParts(q + t, 3);
  }

  // ----- the boot mappings

  /** The page-table entry for frame f: present and writable; the frame number wraps at 4 GiB. */
  function FrameEntry(f: nat): Word { Wrap32(f * 4096) + RW }

  lemma WrapPage(f: nat)
    ensures Wrap32(f * 4096) == (f % 0x10_0000) * 4096
  {
    var q, r := f / 0x10_0000, f % 0x10_0000;
    assert f == 0x10_0000 * q + r;
    assert f * 4096 == 0x1_0000_0000 * q + r * 4096;
    assert 0 <= r * 4096 < 0x1_0000_0000;
  }

  lemma FrameEntryLeaf(f: nat)
    ensures Wrap32(f * 4096) % 4096 == 0 && Wrap32(f * 4096) <= 0xFFFF_F000
    ensures Leaf(FrameEntry(f)) == Mapped(f % 0x10_0000, RW)
  {
    hide Wrap32;
    WrapPage(f);
    var r := f % 0x10_0000;
    PageParts(r, 0);
    PageParts(r, RW);
    assert FrameEntry(f) == 4096 * r + RW;
    assert RW % 2 == 1;
  }

  /** What the kernel maps at boot, with `reserved` pages of low memory and a window at frame `window`. */
  function BootMap(reserved: nat, window: nat, page: nat): Translation {
    if 0x09000 <= page < 0x09400 then if page == 0x09000 then Mapped(page, RW) else Unmapped
    else if page < reserved then Mapped(page, RW)
    else if page == 0xC0005 then Mapped(page, RW)
    else if 0xC0000 <= page < 0xC0400 then Mapped(page - 0xC0000, RW)
    else if 0xD0000 <= page < 0xD2400 then
      if page < 0xD2000 then Mapped((page - 0xD0000 + window) % 0x10_0000, RW) else Unmapped
    else if 0xE0000 <= page then if page < 0xFFFFF then Mapped(page, RW) else Unmapped
    else if 0xC0000 <= page < 0xC0000 + reserved then Mapped(page - 0xC0000, RW)
    else Unmapped
  }

  /**
  Reserved memory is mapped at its own addresses exactly when it takes at most 0x9001 pages (144 MiB and one
  page).
  */
  lemma LowIdentityIff(reserved: nat, window: nat)
    ensures (forall p :: 0 <= p < reserved && p < 0xC0000 ==> BootMap(reserved, window, p) == Mapped(p, RW)) <==>
      reserved <= 0x9001
  {
    if reserved > 0x9001 {
      assert BootMap(reserved, window, 0x9001) == Unmapped;
    }
  }

  /** Frame p is mapped 3 GiB above its own address. */
  predicate InHigherHalf(reserved: nat, window: nat, p: nat) {
    BootMap(reserved, window, 0xC0000 + p) == Mapped(p, RW)
  }

  /**
  Reserved memory is mapped at 0xC0000000, page 0xC0005 aside, exactly when it takes at most 256 MiB; when the window
  happens to begin at 256 MiB, exactly when it takes at most 288 MiB.
  */
  lemma HigherHalfIff(reserved: nat, window: nat)
    requires reserved <= 0x40000
    ensures (forall p :: 0 <= p < reserved && p != 5 ==> InHigherHalf(reserved, window, p)) <==>
      reserved <= if window % 0x10_0000 == 0x10000 then 0x12000 else 0x10000
  {
    if window % 0x10_0000 == 0x10000 {
      WindowInPlace(reserved, window);
      if reserved > 0x12000 {
        assert !InHigherHalf(reserved, window, 0x12000);
      }
    } else if reserved > 0x10000 {
      assert !InHigherHalf(reserved, window, 0x10000);
    }
  }

  /** A window that begins at 256 MiB maps the pages that the higher half would map there. */
  lemma WindowInPlace(reserved: nat, window: nat)
    requires reserved <= 0x40000 && window % 0x10_0000 == 0x10000
    ensures forall p :: 0x10000 <= p < 0x12000 ==> InHigherHalf(reserved, window, p)
  {
    var k := window / 0x10_0000;
    forall p | 0x10000 <= p < 0x12000
      ensures InHigherHalf(reserved, window, p)
    {
      assert window == 0x10_0000 * k + 0x10000;
      DivisionUnique(p - 0x10000 + window, 0x10_0000, k, p);
    }
  }

  /** The tables of low memory. */
  function LowTables(reserved: nat): nat { (reserved + 1023) / 1024 }

  /** Word x of the pool after boot. */
  function TableWord(reserved: nat, window: nat, x: nat): Word {
    var b := LowTables(reserved) * 1024;
    if x < b then if x < reserved then FrameEntry(x) else 0
    else if x < b + 0x2000 then FrameEntry(window + (x - b))
    else if x < b + 0x2400 then 0
    else if x < b + 0x223FF then FrameEntry(0xE0000 + (x - b - 0x2400))
    else if x == b + 0x223FF then 0
    else if x == b + 0x22400 then FrameEntry(0x9000)
    else if x < b + 0x22800 then 0
    else if x < b + 0x22C00 then KernelStartEntry(x - b - 0x22800)
    else 0
  }

  /** The table that directory entry i points to after boot, or -1. */
  function BootTable(reserved: nat, i: nat): int {
    var k := LowTables(reserved);
    if i == 36 then k + 137
    else if i < k then i
    else if i == 768 then k + 138
    else if 832 <= i <= 840 then k + i - 832
    else if 896 <= i then k + 9 + i - 896
    else if 768 < i < 768 + k then i - 768
    else -1
  }

  /** Directory entry i after boot. */
  function DirectoryWord(pool: Word, reserved: nat, i: nat): Word
    requires PoolOk(pool) && reserved <= 0x40000 && i < 1024
  {
    if BootTable(reserved, i) < 0 then 0 else TableEntry(pool, BootTable(reserved, i))
  }

  ghost predicate TablesLaid(tables: seq<Word>, reserved: nat, window: nat) {
    |tables| == 1280 * 1024 && forall x :: 0 <= x < |tables| ==> tables[x] == TableWord(reserved, window, x)
  }

  ghost predicate DirectoryLaid(pool: Word, dir: seq<Word>, reserved: nat)
    requires PoolOk(pool) && reserved <= 0x40000
  {
    |dir| == 1024 && forall i :: 0 <= i < |dir| ==> dir[i] == DirectoryWord(pool, reserved, i)
  }

  lemma EntryWalk(pool: Word, dir: seq<Word>, tables: seq<Word>, page: nat, t: nat)
    requires PoolOk(pool) && |dir| == 1024 && |tables| == 1280 * 1024 && page < 0x10_0000 && t < 1280
    requires dir[page / 1024] == TableEntry(pool, t)
    ensures Walk(pool, dir, tables, page) == Leaf(tables[t * 1024 + page % 1024])
  {
    TableEntryPoints(pool, t);
    hide TableEntry, PoolOk, InPool, TableIndex, Leaf;
  }

  lemma LowWalk(pool: Word, dir: seq<Word>, tables: seq<Word>, reserved: nat, window: nat, page: nat)
    requires PoolOk(pool) && |dir| == 1024 && |tables| == 1280 * 1024 && page < 0x10_0000 && 1 <= reserved <= 0x40000
    requires TablesLaid(tables, reserved, window) && DirectoryLaid(pool, dir, reserved)
    requires page < 0xC0000
    ensures Walk(pool, dir, tables, page) == BootMap(reserved, window, page)
  {
    hide FrameEntry, TableEntry, Leaf, Walk;
    var k := LowTables(reserved);
    var i := page / 1024;
    var x := page % 1024;
    assert dir[i] == DirectoryWord(pool, reserved, i);
    assert page == i * 1024 + x;
    if i == 36 {
      EntryWalk(pool, dir, tables, page, k + 137);
      assert tables[(k + 137) * 1024 + x] == TableWord(reserved, window, (k + 137) * 1024 + x);
      if page == 0x9000 { FrameEntryLeaf(0x9000); } else { ZeroLeaf(); }
    } else if i < k {
      EntryWalk(pool, dir, tables, page, i);
      assert tables[page] == TableWord(reserved, window, page);
      if page < reserved { FrameEntryLeaf(page); } else { ZeroLeaf(); }
    } else {
      AbsentWalk(pool, dir, tables, page);
    }
  }

  lemma ZeroLeaf()
    ensures Leaf(0) == Unmapped
  {
  }

  lemma AbsentWalk(pool: Word, dir: seq<Word>, tables: seq<Word>, page: nat)
    requires |dir| == 1024 && |tables| == 1280 * 1024 && page < 0x10_0000 && dir[page / 1024] == 0
    ensures Walk(pool, dir, tables, page) == Unmapped
  {
  }

  lemma KernelStartWalk(pool: Word, dir: seq<Word>, tables: seq<Word>, reserved: nat, window: nat, page: nat)
    requires PoolOk(pool) && |dir| == 1024 && |tables| == 1280 * 1024 && 1 <= reserved <= 0x40000
    requires TablesLaid(tables, reserved, window) && DirectoryLaid(pool, dir, reserved)
    requires 0xC0000 <= page < 0xC0400
    ensures Walk(pool, dir, tables, page) == BootMap(reserved, window, page)
  {
    hide FrameEntry, TableEntry, Leaf, Walk;
    var x := (LowTables(reserved) + 138) * 1024 + page % 1024;
    assert dir[768] == DirectoryWord(pool, reserved, 768);
    EntryWalk(pool, dir, tables, page, LowTables(reserved) + 138);
    assert tables[x] == TableWord(reserved, window, x);
    FrameEntryLeaf(if page == 0xC0005 then page else page - 0xC0000);
  }

  lemma HighHalfWalk(pool: Word, dir: seq<Word>, tables: seq<Word>, reserved: nat, window: nat, page: nat)
    requires PoolOk(pool) && |dir| == 1024 && |tables| == 1280 * 1024 && page < 0x10_0000 && 1 <= reserved <= 0x40000
    requires TablesLaid(tables, reserved, window) && DirectoryLaid(pool, dir, reserved)
    requires 0xC0000 <= page < 0xD0000
    ensures Walk(pool, dir, tables, page) == BootMap(reserved, window, page)
  {
    hide FrameEntry, TableEntry, Leaf, Walk;
    var k := LowTables(reserved);
    var i := page / 1024;
    var x := page % 1024;
    assert dir[i] == DirectoryWord(pool, reserved, i);
    assert page == i * 1024 + x;
    if i == 768 {
      KernelStartWalk(pool, dir, tables, reserved, window, page);
    } else if i < 768 + k {
      EntryWalk(pool, dir, tables, page, i - 768);
      assert tables[page - 0xC0000] == TableWord(reserved, window, page - 0xC0000);
      if page - 0xC0000 < reserved { FrameEntryLeaf(page - 0xC0000); } else { ZeroLeaf(); }
    } else {
      AbsentWalk(pool, dir, tables, page);
    }
  }

  lemma TopWalk(pool: Word, dir: seq<Word>, tables: seq<Word>, reserved: nat, window: nat, page: nat)
    requires PoolOk(pool) && |dir| == 1024 && |tables| == 1280 * 1024 && page < 0x10_0000 && 1 <= reserved <= 0x40000
    requires TablesLaid(tables, reserved, window) && DirectoryLaid(pool, dir, reserved)
    requires 0xD0000 <= page
    ensures Walk(pool, dir, tables, page) == BootMap(reserved, window, page)
  {
    hide FrameEntry, TableEntry, Leaf, Walk;
    var k := LowTables(reserved);
    var i := page / 1024;
    var x := page % 1024;
    assert dir[i] == DirectoryWord(pool, reserved, i);
    assert page == i * 1024 + x;
    if 832 <= i <= 840 {
      EntryWalk(pool, dir, tables, page, k + i - 832);
      assert tables[k * 1024 + (page - 0xD0000)] == TableWord(reserved, window, k * 1024 + (page - 0xD0000));
      if page < 0xD2000 { FrameEntryLeaf(window + (page - 0xD0000)); } else { ZeroLeaf(); }
    } else if 896 <= i {
      EntryWalk(pool, dir, tables, page, k + 9 + i - 896);
      assert tables[(k + 9) * 1024 + (page - 0xE0000)] ==
        TableWord(reserved, window, (k + 9) * 1024 + (page - 0xE0000));
      if page < 0xFFFFF { FrameEntryLeaf(page); } else { ZeroLeaf(); }
    } else if i < 768 + k {
      EntryWalk(pool, dir, tables, page, i - 768);
      assert tables[page - 0xC0000] == TableWord(reserved, window, page - 0xC0000);
      if page - 0xC0000 < reserved { FrameEntryLeaf(page - 0xC0000); } else { ZeroLeaf(); }
    } else {
      AbsentWalk(pool, dir, tables, page);
    }
  }

  /** Laid-out tables and directory translate every virtual page as intended. */
  lemma BootWalk(pool: Word, dir: seq<Word>, tables: seq<Word>, reserved: nat, window: nat, page: nat)
    requires PoolOk(pool) && |dir| == 1024 && |tables| == 1280 * 1024 && page < 0x10_0000 && 1 <= reserved <= 0x40000
    requires TablesLaid(tables, reserved, window) && DirectoryLaid(pool, dir, reserved)
    ensures Walk(pool, dir, tables, page) == BootMap(reserved, window, page)
  {
    if page < 0xC0000 {
      LowWalk(pool, dir, tables, reserved, window, page);
    } else if page < 0xD0000 {
      HighHalfWalk(pool, dir, tables, reserved, window, page);
    } else {
      TopWalk(pool, dir, tables, reserved, window, page);
    }
  }

  /** No two directory entries share a table, except entry i and entry i + 768 of low memory. */
  lemma BootSharing(pool: Word, dir: seq<Word>, reserved: nat, i: nat, j: nat)
    requires PoolOk(pool) && |dir| == 1024 && reserved <= 0x40000 && DirectoryLaid(pool, dir, reserved)
    requires i < j < 1024 && Present(dir[i]) && Present(dir[j])
    ensures TableIndex(pool, dir[i]) == TableIndex(pool, dir[j]) <==>
      j == i + 768 && 0 < i < LowTables(reserved) && i < 128 && i != 36 && !(64 <= i <= 72)
    ensures TableIndex(pool, dir[i]) < LowTables(reserved) + 139 <= 1280
  {
    hide TableIndex, Present, DirectoryLaid;
    BootEntry(pool, dir, reserved, i);
    BootEntry(pool, dir, reserved, j);
  }

  lemma BootEntry(pool: Word, dir: seq<Word>, reserved: nat, i: nat)
    requires PoolOk(pool) && |dir| == 1024 && reserved <= 0x40000 && DirectoryLaid(pool, dir, reserved) && i < 1024
    ensures Present(dir[i]) <==> BootTable(reserved, i) >= 0
    ensures Present(dir[i]) ==>
      InPool(pool, dir[i]) && TableIndex(pool, dir[i]) == BootTable(reserved, i) < LowTables(reserved) + 139
  {
    assert dir[i] == DirectoryWord(pool, reserved, i);
    if BootTable(reserved, i) >= 0 {
      TableEntryPoints(pool, BootTable(reserved, i));
    }
  }

  // ----- physical page bitmap

  ghost predicate Marked(bitmap: seq<Word>, page: nat)
    requires |bitmap| == 32768 && page < 0x10_0000
  {
    Bit(bitmap[page / 32], page % 32)
  }

  lemma MarkedAfter(bitmap: seq<Word>, page: nat, q: nat)
    requires |bitmap| == 32768 && page < 0x10_0000 && q < 0x10_0000
    ensures SetBit(bitmap[page / 32], page % 32) < 0x1_0000_0000
    ensures Marked(bitmap[page / 32 := SetBit(bitmap[page / 32], page % 32)], q) <==> q == page || Marked(bitmap, q)
  {
    SetBitFits(bitmap[page / 32], page % 32);
    BitOfSet(bitmap[page / 32], page % 32, q % 32);
    assert q == 32 * (q / 32) + q % 32 && page == 32 * (page / 32) + page % 32;
  }

  lemma SetBitFits(w: Word, n: nat)
    requires n < 32
    ensures SetBit(w, n) < 0x1_0000_0000
  {
    Pow2Of32();
    SetBitBound(w, n, 32);
  }

  // ----- the mapper's specification

  /** Directory entries that are present point below table `last`, to tables of the pool. */
  ghost predicate Owned(pool: Word, dir: seq<Word>, last: nat)
    requires |dir| == 1024
  {
    forall i :: 0 <= i < 1024 && Present(dir[i]) ==> InPool(pool, dir[i]) && 0 <= TableIndex(pool, dir[i]) < last
  }

  /** The two pages are translated by the same page-table entry. */
  ghost predicate SharesEntry(pool: Word, dir: seq<Word>, p: nat, q: nat)
    requires |dir| == 1024 && p < 0x10_0000 && q < 0x10_0000
  {
    var d, e := dir[p / 1024], dir[q / 1024];
    p % 1024 == q % 1024 && Present(d) && Present(e) && TableIndex(pool, d) == TableIndex(pool, e)
  }

  /** Entry e of the table for the first 4 MiB of the higher half. */
  function KernelStartEntry(e: nat): Word { FrameEntry(if e == 5 then 0xC0005 else e) }

  /** Directory entry i once the first n tables are entered twice. */
  function LowDirectoryWord(pool: Word, was: seq<Word>, n: nat, i: nat): Word
    requires PoolOk(pool) && |was| == 1024 && n <= 256 && i < 1024
  {
    if i < n then TableEntry(pool, i) else if 768 <= i < 768 + n then TableEntry(pool, i - 768) else was[i]
  }

  class PageTables {
    const pool: Word
    const tables: array<Word>
    const bitmap: array<Word>
    var last: nat

    ghost predicate Valid()
      reads this, tables, bitmap
    {
      PoolOk(pool) && tables.Length == 1280 * 1024 && bitmap.Length == 32768 && tables != bitmap && last <= 1280
    }

    constructor (pool: Word)
      requires PoolOk(pool)
      ensures Valid() && this.pool == pool && last == 0 && fresh(tables) && fresh(bitmap)
      ensures forall x :: 0 <= x < tables.Length ==> tables[x] == 0
      ensures forall x :: 0 <= x < bitmap.Length ==> bitmap[x] == 0
    {
      this.pool := pool;
      tables := new Word[1280 * 1024](_ => 0);
      bitmap := new Word[32768](_ => 0);
      last := 0;
    }

    // ----- boot

    /** One of the loops that fill consecutive tables, from table `first`, for the pages start..end. */
    method FillTables(first: nat, start: nat, end: nat, frame: nat)
      requires Valid() && start <= end && start % 1024 == 0 && first * 1024 + (end - start) <= tables.Length
      modifies tables
      ensures forall x :: 0 <= x < tables.Length ==>
        tables[x] ==
          (if first * 1024 <= x < first * 1024 + (end - start) then FrameEntry(frame + (x - first * 1024))
           else old(tables[x]))
    {
      var i := start;
      while i < end
        invariant start <= i <= end
        invariant forall x :: 0 <= x < tables.Length ==>
          tables[x] ==
            (if first * 1024 <= x < first * 1024 + (i - start) then FrameEntry(frame + (x - first * 1024))
             else old(tables[x]))
      {
        SlotIsLinear(first, start, i);
        tables[(first + (i - start) / 1024) * 1024 + i % 1024] := FrameEntry(frame + (i - start));
        i := i + 1;
      }
    }

    lemma SlotIsLinear(first: nat, start: nat, i: nat)
      requires start <= i && start % 1024 == 0
      ensures (first + (i - start) / 1024) * 1024 + i % 1024 == first * 1024 + (i - start)
    {
    }

    /** The loop for the first 4 MiB of the higher half, where page 0xC0005 keeps its own frame. */
    method FillKernelStart(first: nat)
      requires Valid() && first * 1024 + 1024 <= tables.Length
      modifies tables
      ensures forall x :: 0 <= x < tables.Length ==>
        tables[x] ==
          (if first * 1024 <= x < first * 1024 + 1024 then KernelStartEntry(x - first * 1024) else old(tables[x]))
    {
      var i := 0xC0000;
      while i < 0xC0400
        invariant 0xC0000 <= i <= 0xC0400
        invariant forall x :: 0 <= x < tables.Length ==>
          tables[x] ==
            (if first * 1024 <= x < first * 1024 + (i - 0xC0000) then KernelStartEntry(x - first * 1024)
             else old(tables[x]))
      {
        SlotIsLinear(first, 0xC0000, i);
        if i >= 0xC0005 && i < 0xC0006 {
          tables[(first + (i - 0xC0000) / 1024) * 1024 + i % 1024] := FrameEntry(i);
        } else {
          tables[(first + (i - 0xC0000) / 1024) * 1024 + i % 1024] := FrameEntry(i - 0xC0000);
        }
        i := i + 1;
      }
    }

    /** Point directory entries from..to, the last included, at the next tables of the pool. */
    method FillDirectory(dir: array<Word>, from: nat, to: nat)
      requires Valid() && dir.Length == 1024 && dir != tables && dir != bitmap
      requires from <= to < 1024 && last + (to - from) < 1280
      modifies this`last, dir
      ensures Valid() && last == old(last) + (to - from) + 1
      ensures forall i :: 0 <= i < 1024 ==>
        dir[i] == if from <= i <= to then TableEntry(pool, old(last) + (i - from)) else old(dir[i])
    {
      var i := from;
      while i <= to
        invariant from <= i <= to + 1 && last == old(last) + (i - from) && Valid()
        invariant forall k :: 0 <= k < 1024 ==>
          dir[k] == if from <= k < i then TableEntry(pool, old(last) + (k - from)) else old(dir[k])
      {
        dir[i] := TableEntry(pool, last);
        last := last + 1;
        i := i + 1;
      }
    }

    /** Map low memory twice: at its own address and at 0xC0000000. */
    method FillLowDirectory(dir: array<Word>, count: nat)
      requires Valid() && dir.Length == 1024 && dir != tables && dir != bitmap && count <= 256
      modifies this`last, dir
      ensures Valid() && last == count
      ensures forall i :: 0 <= i < 1024 ==> dir[i] == LowDirectoryWord(pool, old(dir[..]), count, i)
    {
      var i := 0;
      while i < count
        invariant 0 <= i <= count
        invariant forall k :: 0 <= k < 1024 ==> dir[k] == LowDirectoryWord(pool, old(dir[..]), i, k)
      {
        dir[i] := TableEntry(pool, i);
        dir[i + 768] := TableEntry(pool, i);
        i := i + 1;
      }
      last := i;
    }

    method MarkPages(count: nat)
      requires Valid() && count <= 0x10_0000
      modifies bitmap
      ensures forall p :: 0 <= p < 0x10_0000 ==> (Marked(bitmap[..], p) <==> p < count || Marked(old(bitmap[..]), p))
    {
      var i := 0;
      while i < count
        invariant 0 <= i <= count
        invariant forall p :: 0 <= p < 0x10_0000 ==> (Marked(bitmap[..], p) <==> p < i || Marked(old(bitmap[..]), p))
      {
        SetMapped(i);
        i := i + 1;
      }
    }

    method SetMapped(page: nat)
      requires Valid() && page < 0x10_0000
      modifies bitmap
      ensures forall p :: 0 <= p < 0x10_0000 ==> (Marked(bitmap[..], p) <==> p == page || Marked(old(bitmap[..]), p))
    {
      ghost var was := bitmap[..];
      SetBitFits(bitmap[page / 32], page % 32);
      bitmap[page / 32] := SetBit(bitmap[page / 32], page % 32);
      assert bitmap[..] == was[page / 32 := SetBit(was[page / 32], page % 32)];
      forall p | 0 <= p < 0x10_0000
        ensures Marked(bitmap[..], p) <==> p == page || Marked(was, p)
      {
        MarkedAfter(was, page, p);
      }
    }

    /** The last byte that the kernel image or a boot module occupies. */
    method LastReserved(kernelEnd: Word, moduleEnds: seq<Word>) returns (end: Word)
      ensures kernelEnd <= end && forall i :: 0 <= i < |moduleEnds| ==> moduleEnds[i] <= end
      ensures end == kernelEnd || end in moduleEnds
    {
      var lastModule := 0;
      var i := 0;
      while i < |moduleEnds|
        invariant 0 <= i <= |moduleEnds|
        invariant forall k :: 0 <= k < i ==> moduleEnds[k] <= lastModule
        invariant lastModule == 0 || lastModule in moduleEnds
      {
        if moduleEnds[i] > lastModule {
          lastModule := moduleEnds[i];
        }
        i := i + 1;
      }
      end := if lastModule > kernelEnd then lastModule else kernelEnd;
    }

    /**
    init_paging_stage1 on zeroed tables: afterwards the walk of every virtual page is the boot map, the
    reserved pages are the marked ones, and the mapper may be used.
    */
    method InitStage1(dir: array<Word>, kernelEnd: Word, moduleEnds: seq<Word>, ramTop: Word)
      returns (reservedEnd: Word)
      requires Valid() && dir.Length == 1024 && dir != tables && dir != bitmap
      requires forall x :: 0 <= x < tables.Length ==> tables[x] == 0
      requires forall i :: 0 <= i < 1024 ==> dir[i] == 0
      requires kernelEnd <= 0x3FFF_F000 && forall i :: 0 <= i < |moduleEnds| ==> moduleEnds[i] <= 0x3FFF_F000
      modifies this`last, dir, tables, bitmap
      ensures kernelEnd <= reservedEnd && forall i :: 0 <= i < |moduleEnds| ==> moduleEnds[i] <= reservedEnd
      ensures reservedEnd == kernelEnd || reservedEnd in moduleEnds
      ensures Valid() && last == LowTables(ReservedPages(reservedEnd)) + 139 && Owned(pool, dir[..], last)
      ensures forall p :: 0 <= p < 0x10_0000 ==>
        Walk(pool, dir[..], tables[..], p) == BootMap(ReservedPages(reservedEnd), WindowFrame(ramTop), p)
      ensures forall p :: 0 <= p < 0x10_0000 ==>
        (Marked(bitmap[..], p) <==> p * 4096 < reservedEnd + 4096 || Marked(old(bitmap[..]), p))
      ensures LowPages(pool, dir[..], tables[..], reservedEnd) && HighPages(pool, dir[..], tables[..], reservedEnd)
      ensures TopPages(pool, dir[..], tables[..])
      ensures ramTop % 4096 == 0 && ramTop >= 0x0200_1000 ==>
        WindowPages(pool, dir[..], tables[..], ramTop - 0x0200_1000)
    {
      reservedEnd := LastReserved(kernelEnd, moduleEnds);
      FillBoot(dir, reservedEnd, ramTop);
      BootOwned(pool, dir[..], ReservedPages(reservedEnd));
      hide Walk, BootMap, TablesLaid, DirectoryLaid, Owned, Marked;
      forall p | 0 <= p < 0x10_0000
        ensures Walk(pool, dir[..], tables[..], p) == BootMap(ReservedPages(reservedEnd), WindowFrame(ramTop), p)
      {
        BootWalk(pool, dir[..], tables[..], ReservedPages(reservedEnd), WindowFrame(ramTop), p);
      }
      BootInBytes(pool, dir[..], tables[..], reservedEnd, ramTop);
      WholePages(reservedEnd);
    }

    /** The five regions of init_paging_stage1, from the end of reserved memory and the top of RAM on. */
    method FillBoot(dir: array<Word>, reservedEnd: nat, ramTop: Word)
      requires Valid() && dir.Length == 1024 && dir != tables && dir != bitmap
      requires forall x :: 0 <= x < tables.Length ==> tables[x] == 0
      requires forall i :: 0 <= i < 1024 ==> dir[i] == 0
      requires ReservedPages(reservedEnd) <= 0x40000
      modifies this`last, dir, tables, bitmap
      ensures Valid() && last == LowTables(ReservedPages(reservedEnd)) + 139
      ensures TablesLaid(tables[..], ReservedPages(reservedEnd), WindowFrame(ramTop))
      ensures DirectoryLaid(pool, dir[..], ReservedPages(reservedEnd))
      ensures forall p :: 0 <= p < 0x10_0000 ==>
        (Marked(bitmap[..], p) <==> p < ReservedPages(reservedEnd) || Marked(old(bitmap[..]), p))
    {
      hide FrameEntry, KernelStartEntry, TableEntry, Marked;
      var reserved := (reservedEnd + 2 * 4096 - 1) / 4096;
      var window := Wrap32(ramTop - 0x0200_1000) / 4096;
      last := 0;
      FillTables(0, 0, reserved, 0);
      var k := (reserved + 1024 - 1) / 1024;
      FillLowDirectory(dir, k);
      FillTables(last, 0, 0xD2000 - 0xD0000, window);
      FillDirectory(dir, 0xD0000 / 1024, 0xD2000 / 1024);
      assert forall x :: 0 <= x < tables.Length ==>
        tables[x] == (if x < k * 1024 + 0x2400 then TableWord(reserved, window, x) else 0);
      FillUpper(dir, reserved, window);
      MarkPages(reserved);
    }

    /** The regions behind the window: the top of memory, page 0x9000 and the start of the kernel. */
    method FillUpper(dir: array<Word>, ghost reserved: nat, ghost window: nat)
      requires Valid() && dir.Length == 1024 && dir != tables && dir != bitmap && 1 <= reserved <= 0x40000
      requires last == LowTables(reserved) + 9
      requires forall x :: 0 <= x < tables.Length ==>
        tables[x] == (if x < LowTables(reserved) * 1024 + 0x2400 then TableWord(reserved, window, x) else 0)
      modifies this`last, dir, tables
      ensures Valid() && last == LowTables(reserved) + 139
      ensures TablesLaid(tables[..], reserved, window)
      ensures forall i :: 0 <= i < 1024 ==>
        dir[i] == (if i == 36 || i == 768 || 896 <= i then DirectoryWord(pool, reserved, i) else old(dir[i]))
    {
      hide FrameEntry, KernelStartEntry, TableEntry;
      FillTables(last, 0xE0000, 0xFFFFF, 0xE0000);
      FillDirectory(dir, 0xE0000 / 1024, 0xFFFFF / 1024);
      FillTables(last, 0x9000, 0x9001, 0x9000);
      FillDirectory(dir, 0x9000 / 1024, 0x9001 / 1024);
      FillKernelStart(last);
      FillDirectory(dir, 0xC0005 / 1024, 0xC0006 / 1024);
    }

    // ----- the single-page mapper

    /** Take the next table of the pool, emptied; None when the pool is used up. */
    method GetFreePagetable(flush: bool) returns (address: Word)
      requires Valid()
      modifies this`last, tables
      ensures Valid()
      ensures old(last) >= 1280 ==> address == 0xFFFF_FFFF && last == old(last) && tables[..] == old(tables[..])
      ensures old(last) < 1280 ==>
        && address == pool + old(last) * 4096 && last == old(last) + 1
        && forall x :: 0 <= x < tables.Length ==>
          tables[x] == (if flush && old(last) * 1024 <= x < old(last) * 1024 + 1024 then 0 else old(tables[x]))
    {
      if last >= 1280 {
        return 0xFFFF_FFFF;
      }
      var t := last;
      last := last + 1;
      if flush {
        var i := 0;
        while i < 1024
          invariant 0 <= i <= 1024 && last == t + 1
          invariant forall x :: 0 <= x < tables.Length ==>
            tables[x] == (if t * 1024 <= x < t * 1024 + i then 0 else old(tables[x]))
        {
          tables[t * 1024 + i] := 0;
          i := i + 1;
        }
      }
      address := pool + t * 4096;
    }

    /** Whether the committed guard refuses a page that is already mapped: it compares the masked bit with 1. */
    predicate GuardFires(page: nat)
      reads bitmap
      requires bitmap.Length == 32768 && page < 0x10_0000
    {
      MaskBit(bitmap[page / 32], page % 32) == 1
    }

    /** The guard fires exactly for marked pages whose number is a multiple of 32. */
    lemma GuardFiresIff(page: nat)
      requires bitmap.Length == 32768 && page < 0x10_0000
      ensures GuardFires(page) <==> page % 32 == 0 && Marked(bitmap[..], page)
    {
      MaskIsOne(bitmap[page / 32], page % 32);
    }

    method MapPage(dir: array<Word>, frame: nat, page: nat, flags: Word, force: bool) returns (r: int)
      requires Valid() && dir.Length == 1024 && dir != tables && dir != bitmap
      requires frame < 0x10_0000 && page < 0x10_0000 && Owned(pool, dir[..], last)
      modifies this`last, dir, tables, bitmap
      ensures Valid() && Owned(pool, dir[..], last)
      ensures r == if !force && old(GuardFires(frame)) then -1
        else if !Present(old(dir[page / 1024])) && old(last) >= 1280 then -2
        else 0
      ensures r != 0 ==>
        dir[..] == old(dir[..]) && tables[..] == old(tables[..]) && bitmap[..] == old(bitmap[..]) && last == old(last)
      ensures r == 0 ==>
        MappedIn(pool, old(dir[..]), old(tables[..]), old(last), dir[..], tables[..], last, frame, page, flags)
      ensures r == 0 ==> forall p :: 0 <= p < 0x10_0000 ==>
        (Marked(bitmap[..], p) <==> p == frame || Marked(old(bitmap[..]), p))
    {
      hide Marked, Or, Bit, FrameEntry;
      if !force && MaskBit(bitmap[frame / 32], frame % 32) == 1 {
        return -1;
      }
      var pd, pt := page / 1024, page % 1024;
      if !Present(dir[pd]) {
        var address := GetFreePagetable(true);
        if address == 0xFFFF_FFFF {
          return -2;
        }
        TableEntryPoints(pool, last - 1);
        dir[pd] := TableEntry(pool, last - 1);
      }
      SetMapped(frame);
      EntryFits(frame, flags);
      tables[TableIndex(pool, dir[pd]) * 1024 + pt] := Or(frame * 4096, flags);
      r := 0;
    }

    /**
    map_phys_to_virt: on success the virtual page walks to the physical address with the flags, and every page that
    does not use the same table entry walks as before; any failure changes nothing.
    */
    method MapPhysToVirt(dir: array<Word>, physical: Word, virtual: Word, flags: Word, force: bool) returns (r: int)
      requires Valid() && dir.Length == 1024 && dir != tables && dir != bitmap && Owned(pool, dir[..], last)
      modifies this`last, dir, tables, bitmap
      ensures Valid() && Owned(pool, dir[..], last)
      ensures r == if physical % 4096 != 0 || virtual % 4096 != 0 then -2
        else if !force && old(GuardFires(physical / 4096)) then -1
        else if !Present(old(dir[virtual / 4096 / 1024])) && old(last) >= 1280 then -2
        else 0
      ensures r != 0 ==>
        dir[..] == old(dir[..]) && tables[..] == old(tables[..]) && bitmap[..] == old(bitmap[..]) && last == old(last)
      ensures r == 0 ==>
        && Or(physical, flags) < 0x1_0000_0000
        && Walk(pool, dir[..], tables[..], virtual / 4096) == Leaf(Or(physical, flags))
      ensures r == 0 ==> forall q :: 0 <= q < 0x10_0000 && !SharesEntry(pool, dir[..], virtual / 4096, q) ==>
        Walk(pool, dir[..], tables[..], q) == Walk(pool, old(dir[..]), old(tables[..]), q)
      ensures r == 0 && !Present(old(dir[virtual / 4096 / 1024])) ==>
        forall q :: 0 <= q < 0x10_0000 && q != virtual / 4096 ==>
          Walk(pool, dir[..], tables[..], q) == Walk(pool, old(dir[..]), old(tables[..]), q)
      ensures r == 0 ==> forall p :: 0 <= p < 0x10_0000 ==>
        (Marked(bitmap[..], p) <==> p == physical / 4096 || Marked(old(bitmap[..]), p))
    {
      if physical % 4096 != 0 || virtual % 4096 != 0 {
        return -2;
      }
      hide Walk, MappedIn, Owned, Or, Marked, SharesEntry, Leaf, GuardFires;
      ghost var d, t, l := dir[..], tables[..], last;
      var frame, page := physical / 4096, virtual / 4096;
      assert frame * 4096 == physical;
      r := MapPage(dir, frame, page, flags, force);
      if r == 0 {
        MappedWalk(pool, d, t, l, dir[..], tables[..], last, frame, page, flags);
        if !Present(d[page / 1024]) {
          FreshUnshared(pool, d, t, l, dir[..], tables[..], last, frame, page, flags);
        }
      }
    }
  }

  /** The state after a successful mapping: one table entry written, in a fresh empty table if need be. */
  ghost predicate MappedIn(pool: Word, dir: seq<Word>, tables: seq<Word>, last: nat, dir': seq<Word>,
          tables': seq<Word>, last': nat, frame: nat, page: nat, flags: Word)
    requires PoolOk(pool) && |dir| == |dir'| == 1024 && |tables| == |tables'| == 1280 * 1024 && last <= 1280
      && page < 0x10_0000
  {
    var pd := page / 1024;
    var missing := !Present(dir[pd]);
    && (missing ==> last < 1280)
    && last' == (if missing then last + 1 else last)
    && dir' == (if missing then dir[pd := TableEntry(pool, last)] else dir)
    && InPool(pool, dir'[pd]) && 0 <= TableIndex(pool, dir'[pd])
    && forall x :: 0 <= x < |tables| ==>
      tables'[x] == (if x == TableIndex(pool, dir'[pd]) * 1024 + page % 1024 then Or(frame * 4096, flags)
                     else if missing && last * 1024 <= x < last * 1024 + 1024 then 0
                     else tables[x])
  }

  lemma EntryFits(frame: nat, flags: Word)
    requires frame < 0x10_0000
    ensures Or(frame * 4096, flags) < 0x1_0000_0000
  {
    hide Or, Pow2;
    Pow2Of32();
    OrBound(frame * 4096, flags, 32);
  }

  /** The walk of a newly mapped page; of other pages it changes only those that use the same table entry. */
  lemma MappedWalk(pool: Word, dir: seq<Word>, tables: seq<Word>, last: nat, dir': seq<Word>, tables': seq<Word>,
          last': nat, frame: nat, page: nat, flags: Word)
    requires PoolOk(pool) && |dir| == |dir'| == 1024 && |tables| == |tables'| == 1280 * 1024 && last <= 1280
    requires page < 0x10_0000 && frame < 0x10_0000 && Owned(pool, dir, last)
    requires MappedIn(pool, dir, tables, last, dir', tables', last', frame, page, flags)
    ensures Or(frame * 4096, flags) < 0x1_0000_0000 && Walk(pool, dir', tables', page) == Leaf(Or(frame * 4096, flags))
    ensures forall q :: 0 <= q < 0x10_0000 && !SharesEntry(pool, dir', page, q) ==>
      Walk(pool, dir', tables', q) == Walk(pool, dir, tables, q)
  {
    EntryFits(frame, flags);
    if last < 1280 { TableEntryPoints(pool, last); }
    hide Or, TableEntry, Leaf, TableIndex;
    forall q | 0 <= q < 0x10_0000 && !SharesEntry(pool, dir', page, q)
      ensures Walk(pool, dir', tables', q) == Walk(pool, dir, tables, q)
    {
      OtherWalk(pool, dir, tables, last, dir', tables', last', frame, page, flags, q);
    }
  }

  lemma OtherWalk(pool: Word, dir: seq<Word>, tables: seq<Word>, last: nat, dir': seq<Word>, tables': seq<Word>,
          last': nat, frame: nat, page: nat, flags: Word, q: nat)
    requires PoolOk(pool) && |dir| == |dir'| == 1024 && |tables| == |tables'| == 1280 * 1024 && last <= 1280
    requires page < 0x10_0000 && frame < 0x10_0000 && Owned(pool, dir, last) && q < 0x10_0000
    requires MappedIn(pool, dir, tables, last, dir', tables', last', frame, page, flags)
    requires !SharesEntry(pool, dir', page, q)
    ensures Walk(pool, dir', tables', q) == Walk(pool, dir, tables, q)
  {
    EntryFits(frame, flags);
    if last < 1280 { TableEntryPoints(pool, last); }
    hide Or, TableEntry, TableIndex;
    var e := dir'[q / 1024];
    if Present(e) {
      assert TableIndex(pool, e) * 1024 + q % 1024 != TableIndex(pool, dir'[page / 1024]) * 1024 + page % 1024;
    }
  }

  /** A newly taken table is used by one directory entry alone, so its entries translate one page each. */
  lemma FreshUnshared(pool: Word, dir: seq<Word>, tables: seq<Word>, last: nat, dir': seq<Word>, tables': seq<Word>,
          last': nat, frame: nat, page: nat, flags: Word)
    requires PoolOk(pool) && |dir| == |dir'| == 1024 && |tables| == |tables'| == 1280 * 1024 && last <= 1280
    requires page < 0x10_0000 && Owned(pool, dir, last) && !Present(dir[page / 1024])
    requires MappedIn(pool, dir, tables, last, dir', tables', last', frame, page, flags)
    ensures forall q :: 0 <= q < 0x10_0000 && q != page ==> !SharesEntry(pool, dir', page, q)
  {
    TableEntryPoints(pool, last);
    hide TableEntry, TableIndex, Or;
    forall q | 0 <= q < 0x10_0000 && q != page
      ensures !SharesEntry(pool, dir', page, q)
    {
      assert q == 1024 * (q / 1024) + q % 1024 && page == 1024 * (page / 1024) + page % 1024;
    }
  }

  /** The new entry is exactly the frame and flags asked for if and only if the flags fit and say present. */
  lemma MappedExactly(frame: nat, flags: Word)
    requires frame < 0x10_0000
    ensures Or(frame * 4096, flags) < 0x1_0000_0000
    ensures Leaf(Or(frame * 4096, flags)) == Mapped(frame, flags) <==> flags < 4096 && flags % 2 == 1
  {
    EntryFits(frame, flags);
    hide Or;
    if flags < 4096 {
      OrOfPage(frame, flags);
      PageParts(frame, flags);
    }
  }

  lemma PageParts(frame: nat, flags: nat)
    requires flags < 4096
    ensures (4096 * frame + flags) / 4096 == frame && (4096 * frame + flags) % 4096 == flags
    ensures (4096 * frame + flags) % 2 == flags % 2
  {
    assert 4096 * frame + flags == 2 * (2048 * frame) + flags;
  }

  /** After boot every present directory entry is owned, so the mapper may be used. */
  lemma BootOwned(pool: Word, dir: seq<Word>, reserved: nat)
    requires PoolOk(pool) && |dir| == 1024 && reserved <= 0x40000 && DirectoryLaid(pool, dir, reserved)
    ensures Owned(pool, dir, LowTables(reserved) + 139)
  {
    forall i | 0 <= i < 1024 && Present(dir[i])
      ensures InPool(pool, dir[i]) && 0 <= TableIndex(pool, dir[i]) < LowTables(reserved) + 139
    {
      BootEntry(pool, dir, reserved, i);
    }
  }

  // ----- the boot mappings in bytes

  /**
  Below 3 GiB the page behind the reserved bytes and all pages before it are mapped to themselves; only the 4 MiB at
  144 MiB hold a single page in any case.
  */
  ghost predicate LowPages(pool: Word, dir: seq<Word>, tables: seq<Word>, reservedEnd: nat)
    requires |dir| == 1024 && |tables| == 1280 * 1024
  {
    forall p :: 0 <= p < 0xC0000 ==>
      Walk(pool, dir, tables, p) ==
        if p == 0x9000 || (p * 4096 < reservedEnd + 4096 && !(0x9000 <= p < 0x9400)) then Mapped(p, RW) else Unmapped
  }

  /** 3 GiB higher the first 4 MiB and the same pages are mapped again, outside the window; page 5 is the exception. */
  ghost predicate HighPages(pool: Word, dir: seq<Word>, tables: seq<Word>, reservedEnd: nat)
    requires |dir| == 1024 && |tables| == 1280 * 1024
  {
    forall p :: 0 <= p < 0x20000 && !(0x10000 <= p < 0x12400) ==>
      Walk(pool, dir, tables, 0xC0000 + p) ==
        if p == 5 then Mapped(0xC0005, RW)
        else if p < 0x400 || p * 4096 < reservedEnd + 4096 then Mapped(p, RW)
        else Unmapped
  }

  /** The 32 MiB window at page 0xD0000 shows memory from the address `start` on. */
  ghost predicate WindowPages(pool: Word, dir: seq<Word>, tables: seq<Word>, start: nat)
    requires |dir| == 1024 && |tables| == 1280 * 1024
  {
    forall k :: 0 <= k < 0x2000 ==> ShowsAddress(Walk(pool, dir, tables, 0xD0000 + k), start + 4096 * k)
  }

  predicate ShowsAddress(t: Translation, address: nat) {
    t.Mapped? && t.frame * 4096 == address && t.flags == RW
  }

  /** Nothing follows the window directly; the last 512 MiB are mapped to themselves, their last page aside. */
  ghost predicate TopPages(pool: Word, dir: seq<Word>, tables: seq<Word>)
    requires |dir| == 1024 && |tables| == 1280 * 1024
  {
    && (forall p :: 0xD2000 <= p < 0xD2400 ==> Walk(pool, dir, tables, p) == Unmapped)
    && (forall p :: 0xE0000 <= p < 0xFFFFF ==> Walk(pool, dir, tables, p) == Mapped(p, RW))
    && Walk(pool, dir, tables, 0xFFFFF) == Unmapped
  }

  /** Whole pages are reserved: those that hold a reserved byte, and one more behind them. */
  lemma WholePages(reservedEnd: nat)
    ensures forall p :: 0 <= p < 0x10_0000 ==> (p < ReservedPages(reservedEnd) <==> p * 4096 < reservedEnd + 4096)
    ensures reservedEnd <= 0x3FFF_F000 ==> ReservedPages(reservedEnd) <= 0x40000
  {
    var q, r := (reservedEnd + 8191) / 4096, (reservedEnd + 8191) % 4096;
    assert reservedEnd + 8191 == 4096 * q + r;
  }

  lemma WindowFrames(ramTop: Word, k: nat)
    requires ramTop % 4096 == 0 && ramTop >= 0x0200_1000 && k < 0x2000
    ensures ((k + WindowFrame(ramTop)) % 0x10_0000) * 4096 == ramTop - 0x0200_1000 + 4096 * k
  {
    var f := ramTop / 4096;
    assert ramTop == 4096 * f && ramTop - 0x0200_1000 == 4096 * (f - 0x2001);
    assert WindowFrame(ramTop) == f - 0x2001;
  }

  lemma BootInBytes(pool: Word, dir: seq<Word>, tables: seq<Word>, reservedEnd: nat, ramTop: Word)
    requires |dir| == 1024 && |tables| == 1280 * 1024 && reservedEnd <= 0x3FFF_F000
    requires forall p :: 0 <= p < 0x10_0000 ==>
      Walk(pool, dir, tables, p) == BootMap(ReservedPages(reservedEnd), WindowFrame(ramTop), p)
    ensures LowPages(pool, dir, tables, reservedEnd) && HighPages(pool, dir, tables, reservedEnd)
    ensures TopPages(pool, dir, tables)
    ensures ramTop % 4096 == 0 && ramTop >= 0x0200_1000 ==> WindowPages(pool, dir, tables, ramTop - 0x0200_1000)
  {
    hide Walk, ReservedPages, WindowFrame;
    WholePages(reservedEnd);
    forall p | 0 <= p < 0x20000 && !(0x10000 <= p < 0x12400)
      ensures Walk(pool, dir, tables, 0xC0000 + p) ==
        BootMap(ReservedPages(reservedEnd), WindowFrame(ramTop), 0xC0000 + p)
      ensures p < ReservedPages(reservedEnd) <==> p * 4096 < reservedEnd + 4096
    {
    }
    if ramTop % 4096 == 0 && ramTop >= 0x0200_1000 {
      forall k | 0 <= k < 0x2000
        ensures ShowsAddress(Walk(pool, dir, tables, 0xD0000 + k), ramTop - 0x0200_1000 + 4096 * k)
      {
        WindowFrames(ramTop, k);
      }
    }
  }

  function ReservedPages(reservedEnd: nat): nat { (reservedEnd + 2 * 4096 - 1) / 4096 }

  function WindowFrame(ramTop: Word): nat { Wrap32(ramTop - 0x0200_1000) / 4096 }
}

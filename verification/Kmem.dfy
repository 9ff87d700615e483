/**
The kernel heap: a first-fit allocator whose 16-byte block headers live inside the heap array.

Everything the allocator places is a multiple of 16 bytes, so positions and lengths are counted in
16-byte paragraphs: a block at paragraph p keeps its header in words 4p..4p+3 and its payload in the
`len` paragraphs that follow. Pointers are absolute addresses; NULL is 0.
*/
module Kmem {
  import opened Machine

  const HEAP_SIZE := 0x2000000
  const HEADER := 16
  const MIN_BLOCK_SIZE := 16
  const PARAGRAPHS := 0x200000

  datatype Block = Block(at: nat, len: nat, free: bool) {
    function End(): nat { at + 1 + len }

    /** Whether word `k` of the heap array belongs to the payload. */
    predicate Holds(k: int) { 4 * (at + 1) <= k < 4 * End() }
  }

  datatype AllocResult = NoBlock | Exhausted | Allocated(ptr: Word)

  // ----- sizes

  function AlignSize(size: Word): Word {
    var s := Wrap32(size + 15);
    s - s % 16
  }

  /** Rounding up covers the request exactly when adding 15 does not wrap. */
  lemma AlignSizeCovers(size: Word)
    ensures AlignSize(size) % 16 == 0
    ensures size <= AlignSize(size) <==> size <= 0xFFFFFFF0
    ensures size <= 0xFFFFFFF0 ==> AlignSize(size) < size + 16
    ensures size > 0xFFFFFFF0 ==> AlignSize(size) == 0
  {
  }

  /** The number of payload paragraphs a request asks for. */
  function Need(size: Word): nat {
    AlignSize(size) / 16
  }

  // ----- block lists

  /** Block i begins where its predecessor ends. */
  ghost predicate Abuts(bs: seq<Block>, i: nat)
    requires 0 < i < |bs|
  {
    bs[i].at == bs[i - 1].End()
  }

  /** Block i and its predecessor are not both free. */
  ghost predicate Apart(bs: seq<Block>, i: nat)
    requires 0 < i < |bs|
  {
    !(bs[i - 1].free && bs[i].free)
  }

  /** The blocks cover the heap from its first byte to its last, in order, without gaps. */
  ghost predicate Tiles(bs: seq<Block>) {
    && |bs| > 0
    && bs[0].at == 0
    && (forall i :: 0 < i < |bs| ==> Abuts(bs, i))
    && bs[|bs| - 1].End() == PARAGRAPHS
  }

  ghost predicate Coalesced(bs: seq<Block>) {
    forall i :: 0 < i < |bs| ==> Apart(bs, i)
  }

  const INITIAL: seq<Block> := [Block(0, PARAGRAPHS - 1, true)]

  lemma {:induction false} Ordered(bs: seq<Block>, i: nat, j: nat)
    requires Tiles(bs) && i < j < |bs|
    ensures bs[i].End() <= bs[j].at
    decreases j
  {
    if i + 1 < j {
      Ordered(bs, i, j - 1);
    }
    assert Abuts(bs, j);
  }

  lemma AllOrdered(bs: seq<Block>)
    requires Tiles(bs)
    ensures forall i, j :: 0 <= i < j < |bs| ==> bs[i].End() <= bs[j].at
    ensures forall i :: 0 <= i < |bs| ==> bs[i].End() <= PARAGRAPHS
  {
    forall i, j | 0 <= i < j < |bs|
      ensures bs[i].End() <= bs[j].at
    {
      Ordered(bs, i, j);
    }
  }

  predicate Fits(b: Block, n: nat) {
    b.free && n <= b.len
  }

  /** The lowest-addressed free block that is large enough, or |bs|. */
  function FirstFit(bs: seq<Block>, n: nat, from: nat := 0): (i: nat)
    requires from <= |bs|
    ensures from <= i <= |bs|
    ensures i < |bs| ==> Fits(bs[i], n)
    ensures forall j :: from <= j < i ==> !Fits(bs[j], n)
    decreases |bs| - from
  {
    if from == |bs| || Fits(bs[from], n) then from else FirstFit(bs, n, from + 1)
  }

  /** The index of the block whose header is at paragraph p, or |bs|. */
  function Find(bs: seq<Block>, p: int, from: nat := 0): (i: nat)
    requires from <= |bs|
    ensures from <= i <= |bs|
    ensures i < |bs| ==> bs[i].at == p
    ensures forall j :: from <= j < i ==> bs[j].at != p
    decreases |bs| - from
  {
    if from == |bs| || bs[from].at == p then from else Find(bs, p, from + 1)
  }

  // ----- what the two operations do to the list

  /** Cut free block i after n paragraphs into two free blocks. */
  function Split(bs: seq<Block>, i: nat, n: nat): seq<Block>
    requires i < |bs| && n < bs[i].len
  {
    var b := bs[i];
    bs[..i] + [Block(b.at, n, b.free), Block(b.at + 1 + n, b.len - n - 1, true)] + bs[i + 1..]
  }

  /** Take n paragraphs of block i; a remainder of at least a header and 16 bytes becomes a block. */
  function Place(bs: seq<Block>, i: nat, n: nat): seq<Block>
    requires i < |bs| && Fits(bs[i], n)
  {
    var c := if n + 2 <= bs[i].len then Split(bs, i, n) else bs;
    c[i := c[i].(free := false)]
  }

  /** Absorb block i+1 into block i. */
  function Merge(bs: seq<Block>, i: nat): seq<Block>
    requires i + 1 < |bs|
  {
    bs[..i] + [bs[i].(len := bs[i].len + 1 + bs[i + 1].len)] + bs[i + 2..]
  }

  function MergeNext(bs: seq<Block>, i: nat): seq<Block>
    requires i < |bs|
  {
    if i + 1 < |bs| && bs[i + 1].free then Merge(bs, i) else bs
  }

  function MergePrev(bs: seq<Block>, i: nat): seq<Block>
    requires i < |bs|
  {
    if i > 0 && bs[i - 1].free then Merge(bs, i - 1) else bs
  }

  function Release(bs: seq<Block>, i: nat): seq<Block>
    requires i < |bs|
  {
    MergePrev(MergeNext(bs[i := bs[i].(free := true)], i), i)
  }

  // ----- the live allocations a list stands for

  ghost function Live(bs: seq<Block>): set<Block> {
    set b | b in bs && !b.free
  }

  lemma LiveConcat(a: seq<Block>, b: seq<Block>)
    ensures Live(a + b) == Live(a) + Live(b)
  {
  }

  lemma LiveSplit(bs: seq<Block>, i: nat)
    requires Tiles(bs) && i < |bs|
    ensures Live(bs) == Live(bs[..i]) + Live([bs[i]]) + Live(bs[i + 1..])
    ensures forall b :: b in Live(bs[..i]) ==> b.End() <= bs[i].at
    ensures forall b :: b in Live(bs[i + 1..]) ==> bs[i].End() <= b.at
  {
    AllOrdered(bs);
    assert bs == bs[..i] + [bs[i]] + bs[i + 1..];
    LiveConcat(bs[..i] + [bs[i]], bs[i + 1..]);
    LiveConcat(bs[..i], [bs[i]]);
  }

  lemma SetFreeKeeps(bs: seq<Block>, i: nat, free: bool)
    requires Tiles(bs) && i < |bs| && bs[i].free != free
    ensures Tiles(bs[i := bs[i].(free := free)])
    ensures var c := bs[i := bs[i].(free := free)];
      Live(c) == if free then Live(bs) - {bs[i]} else Live(bs) + {c[i]}
  {
    var c := bs[i := bs[i].(free := free)];
    forall j | 0 < j < |c| ensures Abuts(c, j) { assert Abuts(bs, j); }
    LiveSplit(bs, i);
    LiveSplit(c, i);
    assert c[..i] == bs[..i] && c[i + 1..] == bs[i + 1..];
  }

  lemma LiveSplice(bs: seq<Block>, i: nat, mid: seq<Block>, k: nat)
    requires i <= k <= |bs|
    ensures Live(bs[..i] + mid + bs[k..]) == Live(bs[..i]) + Live(mid) + Live(bs[k..])
  {
    LiveConcat(bs[..i] + mid, bs[k..]);
    LiveConcat(bs[..i], mid);
  }

  lemma SplitShape(bs: seq<Block>, i: nat, n: nat)
    requires i < |bs| && n < bs[i].len
    ensures var c := Split(bs, i, n);
      && |c| == |bs| + 1
      && c[i] == Block(bs[i].at, n, bs[i].free) && c[i + 1] == Block(bs[i].at + 1 + n, bs[i].len - n - 1, true)
      && (forall j :: 0 <= j < i ==> c[j] == bs[j])
      && (forall j :: i + 1 < j < |c| ==> c[j] == bs[j - 1])
  {
  }

  lemma SplitKeeps(bs: seq<Block>, i: nat, n: nat)
    requires Tiles(bs) && i < |bs| && bs[i].free && n < bs[i].len
    ensures Tiles(Split(bs, i, n)) && Live(Split(bs, i, n)) == Live(bs)
  {
    SplitShape(bs, i, n);
    var c := Split(bs, i, n);
    forall j | 0 < j < |c|
      ensures Abuts(c, j)
    {
      if j <= i {
        assert Abuts(bs, j);
      } else if j > i + 1 {
        assert Abuts(bs, j - 1);
      }
    }
    LiveSplit(bs, i);
    LiveSplice(bs, i, [c[i], c[i + 1]], i + 1);
  }

  lemma PlaceKeeps(bs: seq<Block>, i: nat, n: nat)
    requires Tiles(bs) && Coalesced(bs) && i < |bs| && Fits(bs[i], n)
    ensures Tiles(Place(bs, i, n)) && Coalesced(Place(bs, i, n))
    ensures var b := Place(bs, i, n)[i];
      && b.at == bs[i].at && n <= b.len <= bs[i].len && !b.free
      && Live(Place(bs, i, n)) == Live(bs) + {b}
      && (forall l :: l in Live(bs) ==> l.End() <= b.at || b.End() <= l.at)
  {
    LiveSplit(bs, i);
    assert Live([bs[i]]) == {};
    if n + 2 <= bs[i].len {
      SplitShape(bs, i, n);
      SplitKeeps(bs, i, n);
      SetFreeKeeps(Split(bs, i, n), i, false);
    } else {
      SetFreeKeeps(bs, i, false);
    }
    PlaceCoalesced(bs, i, n);
  }

  /** The free block left of block c after n of its paragraphs were taken, if there is one. */
  ghost predicate LeftOver(c: Block, n: nat, d: Block) {
    c.len >= n + 2 && d == Block(c.at + 1 + n, c.len - n - 1, true)
  }

  /** A placement takes n paragraphs, or all of a block that is too small to leave another; all other blocks stay. */
  lemma PlaceTakes(bs: seq<Block>, i: nat, n: nat)
    requires Tiles(bs) && i < |bs| && Fits(bs[i], n)
    ensures var c, b := bs[i], Place(bs, i, n)[i];
      && b == Block(c.at, if c.len >= n + 2 then n else c.len, false)
      && forall d :: d in Place(bs, i, n) <==> (d in bs && d != c) || d == b || LeftOver(c, n, d)
  {
    var c, b := bs[i], Place(bs, i, n)[i];
    var mid := if c.len >= n + 2 then [b, Block(c.at + 1 + n, c.len - n - 1, true)] else [b];
    assert Place(bs, i, n) == bs[..i] + mid + bs[i + 1..];
    OnlyAt(bs, i);
    hide Place, Tiles, Fits;
    assert forall d :: d in mid <==> d == b || LeftOver(c, n, d);
    InParts(bs[..i], mid, bs[i + 1..]);
  }

  lemma InParts(a: seq<Block>, b: seq<Block>, c: seq<Block>)
    ensures forall d :: d in a + b + c <==> d in a || d in b || d in c
  {
  }

  /** A tiling lists a block once. */
  lemma OnlyAt(bs: seq<Block>, i: nat)
    requires Tiles(bs) && i < |bs|
    ensures forall d :: d in bs[..i] || d in bs[i + 1..] <==> d in bs && d != bs[i]
  {
    AllOrdered(bs);
    hide Tiles;
    assert bs == bs[..i] + [bs[i]] + bs[i + 1..];
    InParts(bs[..i], [bs[i]], bs[i + 1..]);
    forall j | 0 <= j < |bs| && j != i ensures bs[j] != bs[i] {
      assert if j < i then bs[j].End() <= bs[i].at else bs[i].End() <= bs[j].at;
    }
  }

  lemma PlaceCoalesced(bs: seq<Block>, i: nat, n: nat)
    requires Coalesced(bs) && i < |bs| && Fits(bs[i], n)
    ensures Coalesced(Place(bs, i, n))
  {
    var c := Place(bs, i, n);
    if n + 2 <= bs[i].len {
      SplitShape(bs, i, n);
    }
    forall j | 0 < j < |c|
      ensures Apart(c, j)
    {
      if j < i {
        assert Apart(bs, j);
      } else if j > i + 1 {
        assert Apart(bs, if |c| == |bs| then j else j - 1);
      } else if j == i + 1 < |bs| {
        assert Apart(bs, j);
      }
    }
  }

  lemma MergeTiles(bs: seq<Block>, i: nat)
    requires Tiles(bs) && i + 1 < |bs|
    ensures Tiles(Merge(bs, i))
  {
    var c := Merge(bs, i);
    assert |c| == |bs| - 1;
    assert Abuts(bs, i + 1);
    forall j | 0 < j < |c|
      ensures Abuts(c, j)
    {
      assert Abuts(bs, if j <= i then j else j + 1);
    }
  }

  lemma MergeKeeps(bs: seq<Block>, i: nat)
    requires Tiles(bs) && i + 1 < |bs| && bs[i].free && bs[i + 1].free
    ensures Tiles(Merge(bs, i)) && Live(Merge(bs, i)) == Live(bs)
  {
    MergeTiles(bs, i);
    assert bs == bs[..i] + [bs[i], bs[i + 1]] + bs[i + 2..];
    LiveSplice(bs, i, [bs[i], bs[i + 1]], i + 2);
    LiveSplice(bs, i, [Merge(bs, i)[i]], i + 2);
  }

  lemma MergeNextKeeps(bs: seq<Block>, i: nat)
    requires Tiles(bs) && i < |bs| && bs[i].free
    requires forall j :: 0 < j < |bs| && j != i && j != i + 1 ==> Apart(bs, j)
    ensures var c := MergeNext(bs, i);
      && Tiles(c) && Live(c) == Live(bs) && i < |c| && c[..i] == bs[..i] && c[i].free
      && (forall j :: 0 < j < |c| && j != i ==> Apart(c, j))
  {
    if i + 1 < |bs| && bs[i + 1].free {
      MergeKeeps(bs, i);
      var c := Merge(bs, i);
      forall j | 0 < j < |c| && j != i
        ensures Apart(c, j)
      {
        assert Apart(bs, if j < i then j else j + 1);
      }
    } else if i + 1 < |bs| {
      assert Apart(bs, i + 1);
    }
  }

  lemma MergePrevKeeps(bs: seq<Block>, i: nat)
    requires Tiles(bs) && i < |bs| && bs[i].free
    requires forall j :: 0 < j < |bs| && j != i ==> Apart(bs, j)
    ensures Tiles(MergePrev(bs, i)) && Coalesced(MergePrev(bs, i)) && Live(MergePrev(bs, i)) == Live(bs)
  {
    if i > 0 && bs[i - 1].free {
      MergeKeeps(bs, i - 1);
      var c := Merge(bs, i - 1);
      forall j | 0 < j < |c|
        ensures Apart(c, j)
      {
        assert Apart(bs, if j < i then j else j + 1);
      }
    } else if i > 0 {
      assert Apart(bs, i);
    }
  }

  lemma ReleaseKeeps(bs: seq<Block>, i: nat)
    requires Tiles(bs) && Coalesced(bs) && i < |bs| && !bs[i].free
    ensures Tiles(Release(bs, i)) && Coalesced(Release(bs, i))
    ensures Live(Release(bs, i)) == Live(bs) - {bs[i]}
  {
    SetFreeKeeps(bs, i, true);
    var b1 := bs[i := bs[i].(free := true)];
    forall j | 0 < j < |b1| && j != i && j != i + 1
      ensures Apart(b1, j)
    {
      assert Apart(bs, j);
    }
    MergeNextKeeps(b1, i);
    MergePrevKeeps(MergeNext(b1, i), i);
  }

  /** A coalesced tiling is determined by its live blocks. */
  lemma Canonical(bs: seq<Block>, cs: seq<Block>)
    requires Tiles(bs) && Coalesced(bs) && Tiles(cs) && Coalesced(cs)
    requires Live(bs) == Live(cs)
    ensures bs == cs
  {
    if |bs| <= |cs| {
      SamePrefix(bs, cs, |bs|);
      LongerIsEqual(bs, cs);
    } else {
      SamePrefix(cs, bs, |cs|);
      LongerIsEqual(cs, bs);
    }
  }

  lemma LongerIsEqual(bs: seq<Block>, cs: seq<Block>)
    requires Tiles(bs) && Tiles(cs) && |bs| <= |cs| && bs == cs[..|bs|]
    ensures bs == cs
  {
    AllOrdered(cs);
    assert bs[|bs| - 1] == cs[|bs| - 1];
    assert |bs| == |cs|;
  }

  lemma {:induction false} SamePrefix(bs: seq<Block>, cs: seq<Block>, k: nat)
    requires Tiles(bs) && Coalesced(bs) && Tiles(cs) && Coalesced(cs)
    requires Live(bs) == Live(cs)
    requires k <= |bs| <= |cs|
    ensures bs[..k] == cs[..k]
  {
    if k > 0 {
      var i := k - 1;
      SamePrefix(bs, cs, i);
      if i > 0 {
        assert bs[i - 1] == bs[..i][i - 1] == cs[..i][i - 1] == cs[i - 1];
      }
      if i > 0 {
        assert Abuts(bs, i) && Abuts(cs, i);
      }
      SameBlock(bs, cs, i);
      assert bs[..k] == bs[..i] + [bs[i]] && cs[..k] == cs[..i] + [cs[i]];
    }
  }

  lemma SameBlock(bs: seq<Block>, cs: seq<Block>, i: nat)
    requires Tiles(bs) && Coalesced(bs) && Tiles(cs) && Coalesced(cs)
    requires Live(bs) == Live(cs)
    requires i < |bs| && i < |cs| && bs[i].at == cs[i].at
    ensures bs[i] == cs[i]
  {
    if !bs[i].free {
      LiveAt(bs, cs, i);
    } else if !cs[i].free {
      LiveAt(cs, bs, i);
    } else {
      FreeReach(bs, cs, i);
      FreeReach(cs, bs, i);
    }
  }

  lemma LiveAt(bs: seq<Block>, cs: seq<Block>, i: nat)
    requires Tiles(bs) && Tiles(cs) && Live(bs) <= Live(cs)
    requires i < |bs| && i < |cs| && bs[i].at == cs[i].at && !bs[i].free
    ensures bs[i] == cs[i]
  {
    assert bs[i] in Live(bs);
    var j :| 0 <= j < |cs| && cs[j] == bs[i];
    if j < i { Ordered(cs, j, i); } else if i < j { Ordered(cs, i, j); }
  }

  lemma FreeReach(bs: seq<Block>, cs: seq<Block>, i: nat)
    requires Tiles(bs) && Coalesced(bs) && Tiles(cs) && Live(bs) <= Live(cs)
    requires i < |bs| && i < |cs| && bs[i].at == cs[i].at && bs[i].free && cs[i].free
    ensures cs[i].len <= bs[i].len
  {
    AllOrdered(cs);
    if i + 1 < |bs| {
      assert Abuts(bs, i + 1) && Apart(bs, i + 1);
      assert bs[i + 1] in Live(bs);
      var j :| 0 <= j < |cs| && cs[j] == bs[i + 1];
      assert i < j;
    }
  }

  // ----- headers in memory

  datatype State = State(mem: seq<Word>, blocks: seq<Block>)

  /** Block i's header, word by word: size in bytes, free flag, next and previous header addresses. */
  ghost predicate HeaderAt(mem: seq<Word>, base: Word, bs: seq<Block>, i: nat)
    requires |mem| == HEAP_SIZE / 4 && i < |bs| && bs[i].End() <= PARAGRAPHS
  {
    var w := 4 * bs[i].at;
    && mem[w] == 16 * bs[i].len
    && mem[w + 1] == (if bs[i].free then 1 else 0)
    && mem[w + 2] == (if i + 1 < |bs| then base + 16 * bs[i + 1].at else 0)
    && mem[w + 3] == (if i > 0 then base + 16 * bs[i - 1].at else 0)
  }

  ghost predicate Represents(base: Word, s: State) {
    && |s.mem| == HEAP_SIZE / 4
    && (forall i :: 0 <= i < |s.blocks| ==> s.blocks[i].End() <= PARAGRAPHS)
    && (forall i :: 0 <= i < |s.blocks| ==> HeaderAt(s.mem, base, s.blocks, i))
  }

  ghost predicate Sound(base: Word, s: State) {
    Tiles(s.blocks) && Coalesced(s.blocks) && Represents(base, s)
  }

  /** No payload word of a block in `live` differs between m and m'. */
  ghost predicate Kept(live: set<Block>, m: seq<Word>, m': seq<Word>) {
    && |m| == |m'| == HEAP_SIZE / 4
    && (forall b, k :: b in live && b.Holds(k) && 0 <= k < |m| ==> m'[k] == m[k])
  }

  predicate InHeap(base: Word, p: Word) { base <= p < base + HEAP_SIZE }

  /** Where a heap may lie: aligned, not at NULL, and away from the end of the address space. */
  predicate HeapBase(base: Word) {
    base > 0 && base % 16 == 0 && base + HEAP_SIZE <= 0xFFFF_FFF0
  }

  ghost predicate AllocStep(base: Word, s: State, size: Word, r: AllocResult, s': State)
    requires HeapBase(base) && Sound(base, s)
  {
    var i := FirstFit(s.blocks, Need(size));
    if size == 0 then r == NoBlock && s' == s
    else if i == |s.blocks| then r == Exhausted && s' == s
    else
      r == Allocated(Wrap32(base + 16 * (s.blocks[i].at + 1))) && s' == PlaceState(base, s, i, Need(size))
  }

  /** Pointers kfree may be given: NULL, outside the heap, or where a header says free or a block begins. */
  ghost predicate MayFree(base: Word, s: State, ptr: Word)
    requires |s.mem| == HEAP_SIZE / 4
  {
    var h := Wrap32(ptr - HEADER);
    ptr != 0 && InHeap(base, h) ==>
      && (h - base) % 16 == 0
      && (s.mem[(h - base) / 4 + 1] != 0 || Find(s.blocks, (h - base) / 16) < |s.blocks|)
  }

  ghost predicate FreeStep(base: Word, s: State, ptr: Word, s': State)
    requires HeapBase(base) && Sound(base, s) && MayFree(base, s, ptr)
  {
    var h := Wrap32(ptr - HEADER);
    if ptr == 0 || !InHeap(base, h) || s.mem[(h - base) / 4 + 1] != 0 then s' == s
    else
      var i := Find(s.blocks, (h - base) / 16);
      assert HeaderAt(s.mem, base, s.blocks, i);
      s' == ReleaseState(base, s, i)
  }

  lemma FirstFitIs(bs: seq<Block>, n: nat, i: nat)
    requires i <= |bs| && (forall j :: 0 <= j < i ==> !Fits(bs[j], n))
    requires i < |bs| ==> Fits(bs[i], n)
    ensures FirstFit(bs, n) == i
  {
  }

  lemma FindIs(bs: seq<Block>, i: nat)
    requires Tiles(bs) && i < |bs|
    ensures Find(bs, bs[i].at) == i
  {
    AllOrdered(bs);
    var j := Find(bs, bs[i].at);
  }

  // ----- header writes that follow the list

  lemma MarkRepresents(base: Word, s: State, i: nat, free: bool)
    requires Represents(base, s) && Tiles(s.blocks) && i < |s.blocks|
    ensures 0 <= 4 * s.blocks[i].at + 1 < |s.mem|
    ensures Represents(base, State(s.mem[4 * s.blocks[i].at + 1 := if free then 1 else 0],
        s.blocks[i := s.blocks[i].(free := free)]))
  {
    hide Tiles;
    var m := s.mem[4 * s.blocks[i].at + 1 := if free then 1 else 0];
    var c := s.blocks[i := s.blocks[i].(free := free)];
    forall j | 0 <= j < |c|
      ensures HeaderAt(m, base, c, j)
    {
      assert HeaderAt(s.mem, base, s.blocks, j);
      if j < i { Ordered(s.blocks, j, i); } else if i < j { Ordered(s.blocks, i, j); }
    }
  }

  /** Only the listed header words of m differ from s.mem, and they hold the split's values. */
  ghost predicate SplitWritten(base: Word, s: State, m: seq<Word>, i: nat, n: nat)
    requires |m| == |s.mem| == HEAP_SIZE / 4 && i < |s.blocks| && n < s.blocks[i].len && s.blocks[i].End() <= PARAGRAPHS
    requires i + 1 < |s.blocks| ==> s.blocks[i + 1].End() <= PARAGRAPHS
  {
    var b := s.blocks[i];
    var w := 4 * b.at;
    var v := 4 * (b.at + 1 + n);
    var last := i + 1 == |s.blocks|;
    && m[w] == 16 * n && m[w + 2] == base + 16 * (b.at + 1 + n)
    && m[v] == 16 * (b.len - n - 1) && m[v + 1] == 1
    && m[v + 2] == (if last then 0 else base + 16 * s.blocks[i + 1].at) && m[v + 3] == base + 16 * b.at
    && (!last ==> m[4 * s.blocks[i + 1].at + 3] == base + 16 * (b.at + 1 + n))
    && (forall k :: 0 <= k < |m| && k != w && k != w + 2 && !(v <= k < v + 4) && (last || k != 4 * s.blocks[i + 1].at + 3) ==>
          m[k] == s.mem[k])
  }

  lemma SplitRepresents(base: Word, s: State, m: seq<Word>, i: nat, n: nat)
    requires Represents(base, s) && Tiles(s.blocks) && |m| == |s.mem|
    requires i < |s.blocks| && n < s.blocks[i].len
    requires SplitWritten(base, s, m, i, n)
    ensures Represents(base, State(m, Split(s.blocks, i, n)))
  {
    var c := Split(s.blocks, i, n);
    forall j | 0 <= j < |c|
      ensures c[j].End() <= PARAGRAPHS && HeaderAt(m, base, c, j)
    {
      if j < i {
        SplitBefore(base, s, m, i, n, j);
      } else if j > i + 1 {
        SplitAfter(base, s, m, i, n, j - 1);
      } else {
        SplitMiddle(base, s, m, i, n);
      }
    }
  }

  lemma SplitMiddle(base: Word, s: State, m: seq<Word>, i: nat, n: nat)
    requires Represents(base, s) && Tiles(s.blocks) && |m| == |s.mem|
    requires i < |s.blocks| && n < s.blocks[i].len && SplitWritten(base, s, m, i, n)
    ensures HeaderAt(m, base, Split(s.blocks, i, n), i) && HeaderAt(m, base, Split(s.blocks, i, n), i + 1)
  {
    assert HeaderAt(s.mem, base, s.blocks, i);
    if i + 1 < |s.blocks| { Ordered(s.blocks, i, i + 1); }
  }

  lemma SplitBefore(base: Word, s: State, m: seq<Word>, i: nat, n: nat, j: nat)
    requires Represents(base, s) && Tiles(s.blocks) && |m| == |s.mem|
    requires j < i < |s.blocks| && n < s.blocks[i].len && SplitWritten(base, s, m, i, n)
    ensures HeaderAt(m, base, Split(s.blocks, i, n), j)
  {
    assert HeaderAt(s.mem, base, s.blocks, j);
    Ordered(s.blocks, j, i);
    if i + 1 < |s.blocks| { Ordered(s.blocks, j, i + 1); }
  }

  lemma SplitAfter(base: Word, s: State, m: seq<Word>, i: nat, n: nat, j: nat)
    requires Represents(base, s) && Tiles(s.blocks) && |m| == |s.mem|
    requires i < j < |s.blocks| && n < s.blocks[i].len && SplitWritten(base, s, m, i, n)
    ensures HeaderAt(m, base, Split(s.blocks, i, n), j + 1)
  {
    assert HeaderAt(s.mem, base, s.blocks, j);
    Ordered(s.blocks, i, j);
    if i + 1 < j { Ordered(s.blocks, i + 1, j); }
  }

  /** Header words of a tiling are never payload words of its live blocks. */
  lemma HeadersApart(bs: seq<Block>, i: nat, b: Block, k: int)
    requires Tiles(bs) && i < |bs| && b in Live(bs) && b.Holds(k)
    ensures !(4 * bs[i].at <= k < 4 * bs[i].at + 4)
    ensures bs[i].free ==> !bs[i].Holds(k)
  {
    var j :| 0 <= j < |bs| && bs[j] == b;
    if i < j { Ordered(bs, i, j); } else if j < i { Ordered(bs, j, i); }
  }

  /** The description of a split leaves no word open. */
  lemma SplitOnly(base: Word, s: State, m: seq<Word>, m': seq<Word>, i: nat, n: nat)
    requires |m| == |m'| == |s.mem| == HEAP_SIZE / 4 && i < |s.blocks| && n < s.blocks[i].len
    requires s.blocks[i].End() <= PARAGRAPHS && (i + 1 < |s.blocks| ==> s.blocks[i + 1].End() <= PARAGRAPHS)
    requires SplitWritten(base, s, m, i, n) && SplitWritten(base, s, m', i, n)
    ensures m == m'
  {
  }

  lemma SplitKept(base: Word, s: State, m: seq<Word>, i: nat, n: nat)
    requires Represents(base, s) && Tiles(s.blocks) && |m| == |s.mem|
    requires i < |s.blocks| && s.blocks[i].free && n < s.blocks[i].len
    requires SplitWritten(base, s, m, i, n)
    ensures Kept(Live(s.blocks), s.mem, m)
  {
    forall b, k | b in Live(s.blocks) && b.Holds(k) && 0 <= k < |s.mem|
      ensures m[k] == s.mem[k]
    {
      HeadersApart(s.blocks, i, b, k);
      if i + 1 < |s.blocks| { HeadersApart(s.blocks, i + 1, b, k); }
    }
  }

  /** Only the words that unlink block i+1 differ from s.mem. */
  ghost predicate MergeWritten(base: Word, s: State, m: seq<Word>, i: nat)
    requires |m| == |s.mem| == HEAP_SIZE / 4 && i + 1 < |s.blocks| && s.blocks[i].End() <= PARAGRAPHS
    requires i + 2 < |s.blocks| ==> s.blocks[i + 2].End() <= PARAGRAPHS
  {
    var w := 4 * s.blocks[i].at;
    var last := i + 2 == |s.blocks|;
    && m[w] == 16 * (s.blocks[i].len + 1 + s.blocks[i + 1].len)
    && m[w + 2] == (if last then 0 else base + 16 * s.blocks[i + 2].at)
    && (!last ==> m[4 * s.blocks[i + 2].at + 3] == base + 16 * s.blocks[i].at)
    && (forall k :: 0 <= k < |m| && k != w && k != w + 2 && (last || k != 4 * s.blocks[i + 2].at + 3) ==>
        m[k] == s.mem[k])
  }

  lemma MergeRepresents(base: Word, s: State, m: seq<Word>, i: nat)
    requires Represents(base, s) && Tiles(s.blocks) && |m| == |s.mem|
    requires i + 1 < |s.blocks| && MergeWritten(base, s, m, i)
    ensures Represents(base, State(m, Merge(s.blocks, i)))
  {
    MergeTiles(s.blocks, i);
    var c := Merge(s.blocks, i);
    AllOrdered(c);
    forall j | 0 <= j < |c|
      ensures HeaderAt(m, base, c, j)
    {
      if j < i {
        MergeBefore(base, s, m, i, j);
      } else if j > i {
        MergeAfter(base, s, m, i, j + 1);
      } else {
        MergeMiddle(base, s, m, i);
      }
    }
  }

  lemma MergeBefore(base: Word, s: State, m: seq<Word>, i: nat, j: nat)
    requires Represents(base, s) && Tiles(s.blocks) && |m| == |s.mem|
    requires j < i && i + 1 < |s.blocks| && MergeWritten(base, s, m, i)
    ensures HeaderAt(m, base, Merge(s.blocks, i), j)
  {
    assert HeaderAt(s.mem, base, s.blocks, j);
    Ordered(s.blocks, j, i);
    if i + 2 < |s.blocks| { Ordered(s.blocks, j, i + 2); }
  }

  lemma MergeMiddle(base: Word, s: State, m: seq<Word>, i: nat)
    requires Represents(base, s) && Tiles(s.blocks) && |m| == |s.mem|
    requires i + 1 < |s.blocks| && MergeWritten(base, s, m, i)
    requires Merge(s.blocks, i)[i].End() <= PARAGRAPHS
    ensures HeaderAt(m, base, Merge(s.blocks, i), i)
  {
    assert HeaderAt(s.mem, base, s.blocks, i);
    if i + 2 < |s.blocks| { Ordered(s.blocks, i, i + 2); }
  }

  lemma MergeAfter(base: Word, s: State, m: seq<Word>, i: nat, j: nat)
    requires Represents(base, s) && Tiles(s.blocks) && |m| == |s.mem|
    requires i + 1 < j < |s.blocks| && MergeWritten(base, s, m, i)
    ensures HeaderAt(m, base, Merge(s.blocks, i), j - 1)
  {
    assert HeaderAt(s.mem, base, s.blocks, j);
    Ordered(s.blocks, i, j);
    if i + 2 < j { Ordered(s.blocks, i + 2, j); }
  }

  /** The description of a merge leaves no word open. */
  lemma MergeOnly(base: Word, s: State, m: seq<Word>, m': seq<Word>, i: nat)
    requires |m| == |m'| == |s.mem| == HEAP_SIZE / 4 && i + 1 < |s.blocks| && s.blocks[i].End() <= PARAGRAPHS
    requires i + 2 < |s.blocks| ==> s.blocks[i + 2].End() <= PARAGRAPHS
    requires MergeWritten(base, s, m, i) && MergeWritten(base, s, m', i)
    ensures m == m'
  {
  }

  lemma MergeKept(base: Word, s: State, m: seq<Word>, i: nat)
    requires Represents(base, s) && Tiles(s.blocks) && |m| == |s.mem|
    requires i + 1 < |s.blocks| && MergeWritten(base, s, m, i)
    ensures Kept(Live(s.blocks), s.mem, m)
  {
    forall b, k | b in Live(s.blocks) && b.Holds(k) && 0 <= k < |s.mem|
      ensures m[k] == s.mem[k]
    {
      HeadersApart(s.blocks, i, b, k);
      if i + 2 < |s.blocks| { HeadersApart(s.blocks, i + 2, b, k); }
    }
  }

  // ----- the exact new states, header words included

  ghost predicate Tiled(base: Word, s: State) {
    Tiles(s.blocks) && Represents(base, s)
  }

  /** The free flag of block i rewritten. */
  ghost function MarkState(base: Word, s: State, i: nat, free: bool): (t: State)
    requires Tiled(base, s) && i < |s.blocks| && s.blocks[i].free != free
    ensures Tiled(base, t) && t.blocks == s.blocks[i := s.blocks[i].(free := free)]
    ensures Kept(Live(s.blocks), s.mem, t.mem)
  {
    MarkRepresents(base, s, i, free);
    SetFreeKeeps(s.blocks, i, free);
    MarkKept(s, i, if free then 1 else 0);
    State(s.mem[4 * s.blocks[i].at + 1 := if free then 1 else 0], s.blocks[i := s.blocks[i].(free := free)])
  }

  lemma MarkKept(s: State, i: nat, flag: Word)
    requires Tiles(s.blocks) && |s.mem| == HEAP_SIZE / 4 && i < |s.blocks| && s.blocks[i].End() <= PARAGRAPHS
    ensures Kept(Live(s.blocks), s.mem, s.mem[4 * s.blocks[i].at + 1 := flag])
  {
    forall b, k | b in Live(s.blocks) && b.Holds(k) && 0 <= k < |s.mem|
      ensures k != 4 * s.blocks[i].at + 1
    {
      HeadersApart(s.blocks, i, b, k);
    }
  }

  /** The heap array after a split: the shortened block, the new header, and the link back to it. */
  ghost function SplitMem(base: Word, s: State, i: nat, n: nat): (m: seq<Word>)
    requires HeapBase(base) && |s.mem| == HEAP_SIZE / 4 && i < |s.blocks| && n < s.blocks[i].len
    requires s.blocks[i].End() <= PARAGRAPHS && (i + 1 < |s.blocks| ==> s.blocks[i + 1].End() <= PARAGRAPHS)
    ensures |m| == |s.mem|
  {
    var b := s.blocks[i];
    var w, v := 4 * b.at, 4 * (b.at + 1 + n);
    var last := i + 1 == |s.blocks|;
    var next: Word := if last then 0 else base + 16 * s.blocks[i + 1].at;
    var headed := s.mem[v := 16 * (b.len - n - 1)][v + 1 := 1][v + 2 := next][v + 3 := base + 16 * b.at];
    var linked := if last then headed else headed[4 * s.blocks[i + 1].at + 3 := base + 16 * (b.at + 1 + n)];
    linked[w + 2 := base + 16 * (b.at + 1 + n)][w := 16 * n]
  }

  lemma SplitMemWritten(base: Word, s: State, i: nat, n: nat)
    requires HeapBase(base) && Tiled(base, s) && i < |s.blocks| && n < s.blocks[i].len
    ensures SplitWritten(base, s, SplitMem(base, s, i, n), i, n)
  {
    if i + 1 < |s.blocks| { Ordered(s.blocks, i, i + 1); }
  }

  ghost function SplitState(base: Word, s: State, i: nat, n: nat): (t: State)
    requires HeapBase(base) && Tiled(base, s) && i < |s.blocks| && s.blocks[i].free && n < s.blocks[i].len
    ensures Tiled(base, t) && t.blocks == Split(s.blocks, i, n) && Live(t.blocks) == Live(s.blocks)
    ensures Kept(Live(s.blocks), s.mem, t.mem)
  {
    SplitMemWritten(base, s, i, n);
    SplitRepresents(base, s, SplitMem(base, s, i, n), i, n);
    SplitKept(base, s, SplitMem(base, s, i, n), i, n);
    SplitKeeps(s.blocks, i, n);
    State(SplitMem(base, s, i, n), Split(s.blocks, i, n))
  }

  /** The state after a request of n paragraphs was placed in block i. */
  ghost function PlaceState(base: Word, s: State, i: nat, n: nat): (t: State)
    requires HeapBase(base) && Sound(base, s) && i < |s.blocks| && Fits(s.blocks[i], n)
    ensures Sound(base, t) && t.blocks == Place(s.blocks, i, n)
    ensures Kept(Live(s.blocks), s.mem, t.mem)
  {
    PlaceKeeps(s.blocks, i, n);
    var split := if n + 2 <= s.blocks[i].len then SplitState(base, s, i, n) else s;
    MarkState(base, split, i, false)
  }

  /** The heap array after block i absorbed its successor. */
  ghost function MergeMem(base: Word, s: State, i: nat): (m: seq<Word>)
    requires HeapBase(base) && |s.mem| == HEAP_SIZE / 4 && i + 1 < |s.blocks|
    requires s.blocks[i].End() <= PARAGRAPHS && s.blocks[i].len + 1 + s.blocks[i + 1].len <= PARAGRAPHS
    requires i + 2 < |s.blocks| ==> s.blocks[i + 2].End() <= PARAGRAPHS
    ensures |m| == |s.mem|
  {
    var w := 4 * s.blocks[i].at;
    var last := i + 2 == |s.blocks|;
    var after: Word := if last then 0 else base + 16 * s.blocks[i + 2].at;
    var grown := s.mem[w := 16 * (s.blocks[i].len + 1 + s.blocks[i + 1].len)][w + 2 := after];
    if last then grown else grown[4 * s.blocks[i + 2].at + 3 := base + 16 * s.blocks[i].at]
  }

  lemma MergedLength(s: State, i: nat)
    requires Tiles(s.blocks) && i + 1 < |s.blocks|
    ensures s.blocks[i].len + 1 + s.blocks[i + 1].len <= PARAGRAPHS
  {
    Ordered(s.blocks, i, i + 1);
    AllOrdered(s.blocks);
  }

  lemma MergeMemWritten(base: Word, s: State, i: nat)
    requires HeapBase(base) && Tiled(base, s) && i + 1 < |s.blocks|
    requires s.blocks[i].len + 1 + s.blocks[i + 1].len <= PARAGRAPHS
    ensures MergeWritten(base, s, MergeMem(base, s, i), i)
  {
    if i + 2 < |s.blocks| { Ordered(s.blocks, i, i + 2); }
  }

  ghost function MergeState(base: Word, s: State, i: nat): (t: State)
    requires HeapBase(base) && Tiled(base, s) && i + 1 < |s.blocks| && s.blocks[i].free && s.blocks[i + 1].free
    ensures Tiled(base, t) && t.blocks == Merge(s.blocks, i) && Live(t.blocks) == Live(s.blocks)
    ensures Kept(Live(s.blocks), s.mem, t.mem)
  {
    MergedLength(s, i);
    MergeMemWritten(base, s, i);
    MergeRepresents(base, s, MergeMem(base, s, i), i);
    MergeKept(base, s, MergeMem(base, s, i), i);
    MergeKeeps(s.blocks, i);
    State(MergeMem(base, s, i), Merge(s.blocks, i))
  }

  ghost function MergeNextState(base: Word, s: State, i: nat): (t: State)
    requires HeapBase(base) && Tiled(base, s) && i < |s.blocks| && s.blocks[i].free
    ensures Tiled(base, t) && t.blocks == MergeNext(s.blocks, i) && Live(t.blocks) == Live(s.blocks)
    ensures i < |t.blocks| && t.blocks[i].free && t.blocks[i].at == s.blocks[i].at
    ensures Kept(Live(s.blocks), s.mem, t.mem)
  {
    if i + 1 < |s.blocks| && s.blocks[i + 1].free then MergeState(base, s, i) else s
  }

  ghost function MergePrevState(base: Word, s: State, i: nat): (t: State)
    requires HeapBase(base) && Tiled(base, s) && i < |s.blocks| && s.blocks[i].free
    ensures Tiled(base, t) && t.blocks == MergePrev(s.blocks, i) && Live(t.blocks) == Live(s.blocks)
    ensures Kept(Live(s.blocks), s.mem, t.mem)
  {
    if i > 0 && s.blocks[i - 1].free then MergeState(base, s, i - 1) else s
  }

  /** The state after live block i was marked free and merged with its free neighbours. */
  ghost function ReleaseState(base: Word, s: State, i: nat): (t: State)
    requires HeapBase(base) && Sound(base, s) && i < |s.blocks| && !s.blocks[i].free
    ensures Sound(base, t) && t.blocks == Release(s.blocks, i)
    ensures Kept(Live(s.blocks) - {s.blocks[i]}, s.mem, t.mem)
  {
    ReleaseKeeps(s.blocks, i);
    SetFreeKeeps(s.blocks, i, true);
    MergePrevState(base, MergeNextState(base, MarkState(base, s, i, true), i), i)
  }

  class Heap {
    const base: Word
    const mem: array<Word>
    ghost var blocks: seq<Block>

    ghost function Now(): State
      reads this, mem
    {
      State(mem[..], blocks)
    }

    ghost predicate Valid()
      reads this, mem
    {
      && HeapBase(base)
      && mem.Length == HEAP_SIZE / 4
      && Sound(base, Now())
    }

    /** The index in `mem` of field f of the header at address p. */
    function Field(p: Word, f: nat): int { (p - base) / 4 + f }

    constructor (base: Word)
      requires HeapBase(base)
      ensures Valid() && fresh(mem) && this.base == base
      ensures blocks == INITIAL
    {
      this.base := base;
      mem := new Word[HEAP_SIZE / 4](_ => 0);
      blocks := INITIAL;
      new;
      mem[0] := HEAP_SIZE - HEADER;
      mem[1] := 1;
      mem[2] := 0;
      mem[3] := 0;
    }

    method Kmalloc(size: Word) returns (r: AllocResult)
      requires Valid()
      modifies this, mem
      ensures Valid()
      ensures AllocStep(base, old(Now()), size, r, Now())
    {
      hide HeaderAt, Abuts, Apart, PlaceState;
      if size == 0 {
        return NoBlock;
      }
      var need := AlignSize(size);
      var current, i := Search(need);
      if current == 0 {
        return Exhausted;
      }
      Take(current, need, i);
      r := Allocated(current + HEADER);
    }

    /** Walk the list to the first free block of at least `need` bytes; NULL when there is none. */
    method Search(need: Word) returns (current: Word, ghost i: nat)
      requires Valid() && need % 16 == 0
      ensures i == FirstFit(blocks, need / 16)
      ensures current ==
        var f := FirstFit(blocks, need / 16);
        if f < |blocks| then base + 16 * blocks[f].at else 0
    {
      current, i := base, 0;
      while current != 0 && base <= current <= base + HEAP_SIZE
        invariant 0 <= i <= |blocks|
        invariant current == if i < |blocks| then base + 16 * blocks[i].at else 0
        invariant forall j :: 0 <= j < i ==> !Fits(blocks[j], need / 16)
        decreases |blocks| - i
      {
        assert HeaderAt(mem[..], base, blocks, i);
        if mem[Field(current, 1)] != 0 && mem[Field(current, 0)] >= need {
          break;
        }
        current := mem[Field(current, 2)];
        i := i + 1;
      }
      FirstFitIs(blocks, need / 16, i);
    }

    /** The body of the found case: split when the remainder is worth a block, then mark used. */
    method Take(current: Word, need: Word, ghost i: nat)
      requires Valid() && need % 16 == 0
      requires i < |blocks| && Fits(blocks[i], need / 16) && current == base + 16 * blocks[i].at
      modifies this, mem
      ensures Valid()
      ensures Now() == PlaceState(base, old(Now()), i, need / 16)
    {
      PlaceKeeps(blocks, i, need / 16);
      assert HeaderAt(mem[..], base, blocks, i);
      if mem[Field(current, 0)] >= need + HEADER + MIN_BLOCK_SIZE {
        SplitBlock(current, need, i);
      }
      SetFree(current, i, false);
    }

    /** Write the free flag of block i. */
    method SetFree(p: Word, ghost i: nat, free: bool)
      requires mem.Length == HEAP_SIZE / 4 && HeapBase(base) && Tiled(base, Now())
      requires i < |blocks| && blocks[i].free != free && p == base + 16 * blocks[i].at
      modifies this, mem
      ensures Now() == MarkState(base, old(Now()), i, free)
    {
      mem[Field(p, 1)] := if free then 1 else 0;
      assert mem[..] == old(mem[..])[Field(p, 1) := if free then 1 else 0];
      blocks := blocks[i := blocks[i].(free := free)];
    }

    method SplitBlock(current: Word, need: Word, ghost i: nat)
      requires mem.Length == HEAP_SIZE / 4 && HeapBase(base) && Tiled(base, Now()) && need % 16 == 0
      requires i < |blocks| && blocks[i].free && need / 16 + 2 <= blocks[i].len && current == base + 16 * blocks[i].at
      modifies this, mem
      ensures Now() == SplitState(base, old(Now()), i, need / 16)
    {
      ghost var s := Now();
      assert HeaderAt(mem[..], base, blocks, i);
      if i + 1 < |blocks| { Ordered(blocks, i, i + 1); }
      var rest := current + HEADER + need;
      WriteSplit(current, rest, need, i);
      SplitMemWritten(base, s, i, need / 16);
      SplitOnly(base, s, mem[..], SplitMem(base, s, i, need / 16), i, need / 16);
      blocks := Split(blocks, i, need / 16);
    }

    method WriteSplit(current: Word, rest: Word, need: Word, ghost i: nat)
      requires base > 0 && base + HEAP_SIZE <= 0xFFFF_FFF0 && mem.Length == HEAP_SIZE / 4 && need % 16 == 0
      requires i < |blocks| && need / 16 + 2 <= blocks[i].len && current == base + 16 * blocks[i].at
        && rest == current + HEADER + need
      requires blocks[i].End() <= PARAGRAPHS && HeaderAt(mem[..], base, blocks, i)
      requires i + 1 < |blocks| ==> blocks[i].End() <= blocks[i + 1].at && blocks[i + 1].End() <= PARAGRAPHS
      modifies mem
      ensures SplitWritten(base, old(Now()), mem[..], i, need / 16)
    {
      ghost var n, s := need / 16, Now();
      var w, v := (current - base) / 4, (rest - base) / 4;
      assert w == 4 * blocks[i].at && v == 4 * (blocks[i].at + 1 + n);
      var size, next := mem[w], mem[w + 2];
      var u := if next == 0 then 0 else (next - base) / 4;
      ghost var last := i + 1 == |blocks|;
      assert !last ==> u == 4 * blocks[i + 1].at;
      assert size == 16 * blocks[i].len && size >= need + HEADER;
      assert last <==> next == 0;
      hide HeaderAt;
      WriteHeader(v, size - need - HEADER, 1, next, current);
      LinkSplit(w, v, u, rest, need, next);
    }

    /** Point the successor, at word u, and the shortened block, at word w, to the new header at word v. */
    method LinkSplit(w: nat, v: nat, u: nat, rest: Word, need: Word, next: Word)
      requires w + 4 <= v && v + 4 <= mem.Length && (next != 0 ==> v + 4 <= u && u + 4 <= mem.Length)
      modifies mem
      ensures mem[w] == need && mem[w + 2] == rest
      ensures next != 0 ==> mem[u + 3] == rest
      ensures forall k :: 0 <= k < mem.Length && k != w && k != w + 2 && (next == 0 || k != u + 3) ==>
        mem[k] == old(mem[k])
    {
      if next != 0 {
        mem[u + 3] := rest;
      }
      mem[w + 2] := rest;
      mem[w] := need;
    }

    method WriteHeader(v: nat, size: Word, free: Word, next: Word, prev: Word)
      requires v + 4 <= mem.Length
      modifies mem
      ensures forall k :: 0 <= k < mem.Length && !(v <= k < v + 4) ==> mem[k] == old(mem[k])
      ensures mem[v] == size && mem[v + 1] == free && mem[v + 2] == next && mem[v + 3] == prev
    {
      mem[v] := size;
      mem[v + 1] := free;
      mem[v + 2] := next;
      mem[v + 3] := prev;
    }

    method Kfree(ptr: Word)
      requires Valid() && MayFree(base, Now(), ptr)
      modifies this, mem
      ensures Valid()
      ensures FreeStep(base, old(Now()), ptr, Now())
    {
      if ptr == 0 {
        return;
      }
      var block := Wrap32(ptr - HEADER);
      if block < base || block >= base + HEAP_SIZE {
        return;
      }
      if mem[Field(block, 1)] != 0 {
        return;
      }
      ghost var i := Find(blocks, (block - base) / 16);
      assert HeaderAt(mem[..], base, blocks, i);
      ReleaseKeeps(blocks, i);
      ReleaseBlock(block, i);
    }

    /** Mark a live block free, then merge it with a free successor and a free predecessor. */
    method ReleaseBlock(block: Word, ghost i: nat)
      requires Valid()
      requires i < |blocks| && !blocks[i].free && block == base + 16 * blocks[i].at
      modifies this, mem
      ensures Now() == ReleaseState(base, old(Now()), i)
    {
      SetFree(block, i, true);
      MergeWithNext(block, i);
      MergeWithPrev(block, i);
    }

    method MergeWithNext(block: Word, ghost i: nat)
      requires mem.Length == HEAP_SIZE / 4 && HeapBase(base) && Tiled(base, Now())
      requires i < |blocks| && blocks[i].free && block == base + 16 * blocks[i].at
      modifies this, mem
      ensures Now() == MergeNextState(base, old(Now()), i)
    {
      assert HeaderAt(mem[..], base, blocks, i);
      if i + 1 < |blocks| {
        assert HeaderAt(mem[..], base, blocks, i + 1);
      }
      var next := mem[Field(block, 2)];
      if next != 0 && mem[Field(next, 1)] != 0 {
        Absorb(block, next, i);
      }
    }

    method MergeWithPrev(block: Word, ghost i: nat)
      requires mem.Length == HEAP_SIZE / 4 && HeapBase(base) && Tiled(base, Now())
      requires i < |blocks| && blocks[i].free && block == base + 16 * blocks[i].at
      modifies this, mem
      ensures Now() == MergePrevState(base, old(Now()), i)
    {
      assert HeaderAt(mem[..], base, blocks, i);
      if i > 0 {
        assert HeaderAt(mem[..], base, blocks, i - 1);
      }
      var prev := mem[Field(block, 3)];
      if prev != 0 && mem[Field(prev, 1)] != 0 {
        Absorb(prev, block, i - 1);
      }
    }

    /** Enlarge block i over its successor and unlink the successor. */
    method Absorb(block: Word, next: Word, ghost i: nat)
      requires mem.Length == HEAP_SIZE / 4 && HeapBase(base) && Tiled(base, Now())
      requires i + 1 < |blocks| && blocks[i].free && blocks[i + 1].free
      requires block == base + 16 * blocks[i].at && next == base + 16 * blocks[i + 1].at
      modifies this, mem
      ensures Now() == MergeState(base, old(Now()), i)
    {
      ghost var s := Now();
      Relink(block, next, i);
      MergedLength(s, i);
      MergeMemWritten(base, s, i);
      MergeOnly(base, s, mem[..], MergeMem(base, s, i), i);
      blocks := Merge(blocks, i);
    }

    method Relink(block: Word, next: Word, ghost i: nat)
      requires mem.Length == HEAP_SIZE / 4 && HeapBase(base) && Tiled(base, Now())
      requires i + 1 < |blocks| && block == base + 16 * blocks[i].at && next == base + 16 * blocks[i + 1].at
      modifies mem
      ensures MergeWritten(base, old(Now()), mem[..], i)
    {
      assert HeaderAt(mem[..], base, blocks, i) && HeaderAt(mem[..], base, blocks, i + 1);
      ghost var w := 4 * blocks[i].at;
      assert blocks[i].End() <= blocks[i + 1].at by { Ordered(blocks, i, i + 1); }
      assert i + 2 < |blocks| ==>
        blocks[i + 1].End() <= blocks[i + 2].at by { if i + 2 < |blocks| { Ordered(blocks, i + 1, i + 2); } }
      ghost var s, last := Now(), i + 2 == |blocks|;
      var b, n := (block - base) / 4, (next - base) / 4;
      assert b == w && n == 4 * blocks[i + 1].at;
      var size, after := mem[b] + mem[n] + HEADER, mem[n + 2];
      var u := if after == 0 then 0 else (after - base) / 4;
      assert !last ==> u == 4 * blocks[i + 2].at;
      assert last <==> after == 0;
      assert size == 16 * (blocks[i].len + 1 + blocks[i + 1].len);
      hide Tiles, Represents, HeaderAt;
      LinkMerge(b, u, block, size, after);
    }

    /** Enlarge the block at word w and point the block behind the absorbed one, at word u, back to it. */
    method LinkMerge(w: nat, u: nat, block: Word, size: Word, after: Word)
      requires w + 4 <= mem.Length && (after != 0 ==> w + 4 <= u && u + 4 <= mem.Length)
      modifies mem
      ensures mem[w] == size && mem[w + 2] == after
      ensures after != 0 ==> mem[u + 3] == block
      ensures forall k :: 0 <= k < mem.Length && k != w && k != w + 2 && (after == 0 || k != u + 3) ==>
        mem[k] == old(mem[k])
    {
      mem[w] := size;
      mem[w + 2] := after;
      if after != 0 {
        mem[u + 3] := block;
      }
    }
  }
}

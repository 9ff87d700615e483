/** Whole runs of the kernel heap: what every reachable state keeps, whatever the callers do. */
module KmemRuns {
  import opened Machine
  import opened Kmem

  /** What can happen to the heap; callers store only into payloads of live blocks. */
  datatype Event = Alloc(size: Word, r: AllocResult) | Free(ptr: Word) | Store(k: nat, w: Word)

  /** What an event does to a sound heap. That it leaves a sound heap behind is not part of this: it is proved. */
  ghost predicate Step(base: Word, s: State, e: Event, s': State) {
    HeapBase(base) && Sound(base, s) ==>
      match e
      case Alloc(size, r) => AllocStep(base, s, size, r, s')
      case Free(ptr) => MayFree(base, s, ptr) && FreeStep(base, s, ptr, s')
      case Store(k, w) => MayStore(s, k) && s' == State(s.mem[k := w], s.blocks)
  }

  /** Word k belongs to the payload of a live block. */
  ghost predicate MayStore(s: State, k: nat) {
    k < |s.mem| && exists b :: b in Live(s.blocks) && b.Holds(k)
  }

  ghost predicate Run(base: Word, ss: seq<State>, es: seq<Event>) {
    && HeapBase(base) && |ss| == |es| + 1
    && ss[0].blocks == INITIAL && Represents(base, ss[0])
    && (forall i :: 0 <= i < |es| ==> Step(base, ss[i], es[i], ss[i + 1]))
  }

  // ----- one step

  /**
  A successful allocation is a new live block b, apart from all others, at the start of a free block c. It takes no more
  of c than the request needs, unless what is left could not hold a header and a paragraph; all other blocks stay.
  */
  lemma AllocMeaning(base: Word, s: State, size: Word, r: AllocResult, s': State) returns (b: Block, c: Block)
    requires HeapBase(base) && Sound(base, s) && AllocStep(base, s, size, r, s') && r.Allocated?
    ensures r.ptr == base + 16 * (b.at + 1) && r.ptr % 16 == 0 && b.End() <= PARAGRAPHS
    ensures AlignSize(size) <= 16 * b.len
    ensures size <= 16 * b.len <==> size <= 0xFFFFFFF0
    ensures Live(s'.blocks) == Live(s.blocks) + {b} && b !in Live(s.blocks)
    ensures forall l :: l in Live(s.blocks) ==> l.End() <= b.at || b.End() <= l.at
    ensures c in s.blocks && Fits(c, Need(size)) && b.at == c.at
    ensures b.len == if c.len >= Need(size) + 2 then Need(size) else c.len
    ensures 16 * b.len < AlignSize(size) + 32
    ensures forall d :: d in s'.blocks <==> (d in s.blocks && d != c) || d == b || LeftOver(c, Need(size), d)
  {
    hide AllocStep, Kept, Represents, Tiles, Coalesced, Place, Live, Need, Wrap32, Sound, LeftOver, AlignSize;
    var i := AllocPlaces(base, s, size, r, s');
    c, b := s.blocks[i], s'.blocks[i];
    NeedCovers(size, b.len);
    PointerOf(base, b);
    NotApart(s.blocks, b);
  }

  lemma AllocPlaces(base: Word, s: State, size: Word, r: AllocResult, s': State) returns (i: nat)
    requires HeapBase(base) && Sound(base, s) && AllocStep(base, s, size, r, s') && r.Allocated?
    ensures i < |s.blocks| && i < |s'.blocks| && Fits(s.blocks[i], Need(size)) && s.blocks[i].End() <= PARAGRAPHS
    ensures var c, b := s.blocks[i], s'.blocks[i];
      && r.ptr == Wrap32(base + 16 * (b.at + 1)) && b.at == c.at && Need(size) <= b.len <= c.len
      && b.len == (if c.len >= Need(size) + 2 then Need(size) else c.len)
      && Live(s'.blocks) == Live(s.blocks) + {b}
      && (forall l :: l in Live(s.blocks) ==> l.End() <= b.at || b.End() <= l.at)
      && (forall d :: d in s'.blocks <==> (d in s.blocks && d != c) || d == b || LeftOver(c, Need(size), d))
  {
    i := FirstFit(s.blocks, Need(size));
    assert s.blocks[i].End() <= PARAGRAPHS;
    hide PlaceState, Represents, Kept, Need;
    assert s'.blocks == Place(s.blocks, i, Need(size));
    PlaceKeeps(s.blocks, i, Need(size));
    PlaceTakes(s.blocks, i, Need(size));
  }

  lemma NeedCovers(size: Word, len: nat)
    requires Need(size) <= len < PARAGRAPHS
    ensures AlignSize(size) == 16 * Need(size) <= 16 * len
    ensures size <= 16 * len <==> size <= 0xFFFFFFF0
  {
    AlignSizeCovers(size);
  }

  lemma PointerOf(base: Word, b: Block)
    requires HeapBase(base) && b.End() <= PARAGRAPHS
    ensures Wrap32(base + 16 * (b.at + 1)) == base + 16 * (b.at + 1) && (base + 16 * (b.at + 1)) % 16 == 0
  {
  }

  lemma NotApart(bs: seq<Block>, b: Block)
    requires forall l :: l in Live(bs) ==> l.End() <= b.at || b.End() <= l.at
    ensures b !in Live(bs)
  {
  }

  /** The allocation is carved from the lowest-addressed free block that is large enough. */
  lemma AllocIsLowest(base: Word, s: State, size: Word, r: AllocResult, s': State, c: Block)
    requires HeapBase(base) && Sound(base, s) && AllocStep(base, s, size, r, s') && r.Allocated?
    requires c in s.blocks && Fits(c, Need(size))
    ensures r.ptr <= base + 16 * (c.at + 1)
  {
    hide Kept, HeaderAt, PlaceState, Coalesced;
    var i := FirstFit(s.blocks, Need(size));
    var j :| 0 <= j < |s.blocks| && s.blocks[j] == c;
    if i < j { Ordered(s.blocks, i, j); }
    assert s.blocks[i].End() <= PARAGRAPHS;
  }

  /** NULL answers a request for nothing; any other is refused only when no free block is large enough. */
  lemma AllocFailsOnlyWhenNothingFits(base: Word, s: State, size: Word, r: AllocResult, s': State)
    requires HeapBase(base) && Sound(base, s) && AllocStep(base, s, size, r, s')
    ensures r == NoBlock <==> size == 0
    ensures r == Exhausted <==> size > 0 && forall b :: b in s.blocks ==> !Fits(b, Need(size))
    ensures !r.Allocated? ==> s' == s
  {
    hide PlaceState, Represents;
    var i := FirstFit(s.blocks, Need(size));
    if i < |s.blocks| {
      assert s.blocks[i] in s.blocks;
    }
  }

  lemma PointerOutside(base: Word, ptr: Word)
    requires HeapBase(base) && (ptr < base + 16 || base + HEAP_SIZE + 16 <= ptr)
    ensures !InHeap(base, Wrap32(ptr - HEADER))
  {
  }

  lemma FreeIsMarked(base: Word, s: State, b: Block)
    requires Sound(base, s) && b in s.blocks && b.free
    ensures b.End() <= PARAGRAPHS && |s.mem| == HEAP_SIZE / 4 && s.mem[4 * b.at + 1] == 1
  {
    var i :| 0 <= i < |s.blocks| && s.blocks[i] == b;
    AllOrdered(s.blocks);
    assert HeaderAt(s.mem, base, s.blocks, i);
  }

  /** kfree does nothing for NULL, for a pointer outside the heap, and for a block that is free already. */
  lemma FreeRefused(base: Word, s: State, ptr: Word, s': State)
    requires HeapBase(base) && Sound(base, s) && MayFree(base, s, ptr) && FreeStep(base, s, ptr, s')
    requires ptr == 0 || ptr < base + 16 || base + HEAP_SIZE + 16 <= ptr ||
      exists b :: b in s.blocks && b.free && ptr == base + 16 * (b.at + 1)
    ensures s' == s
  {
    hide FreeStep, MayFree, InHeap, Sound;
    if ptr == 0 || ptr < base + 16 || base + HEAP_SIZE + 16 <= ptr {
      PointerOutside(base, ptr);
      NothingFreed(base, s, ptr, s');
    } else {
      var b :| b in s.blocks && b.free && ptr == base + 16 * (b.at + 1);
      FreeIsMarked(base, s, b);
      PayloadPointer(base, b);
      MarkedIsKept(base, s, ptr, s', b.at);
    }
  }

  lemma NothingFreed(base: Word, s: State, ptr: Word, s': State)
    requires HeapBase(base) && Sound(base, s) && MayFree(base, s, ptr) && FreeStep(base, s, ptr, s')
    requires !InHeap(base, Wrap32(ptr - HEADER))
    ensures s' == s
  {
    hide ReleaseState, Tiles, Represents, Coalesced;
  }

  lemma MarkedIsKept(base: Word, s: State, ptr: Word, s': State, at: nat)
    requires HeapBase(base) && Sound(base, s) && MayFree(base, s, ptr) && FreeStep(base, s, ptr, s')
    requires (Wrap32(ptr - HEADER) - base) / 4 == 4 * at && 4 * at + 1 < |s.mem| && s.mem[4 * at + 1] == 1
    ensures s' == s
  {
    hide ReleaseState, Tiles, Represents, Coalesced, Wrap32, Find, MayFree;
  }

  /** The pointer of every live block may be freed. */
  lemma LiveMayFree(base: Word, s: State, b: Block)
    requires HeapBase(base) && Sound(base, s) && b in Live(s.blocks)
    ensures b.End() <= PARAGRAPHS && MayFree(base, s, base + 16 * (b.at + 1))
  {
    var i := LiveIndex(base, s, b);
    PayloadPointer(base, b);
  }

  /** Freeing the pointer of a live block removes exactly that block from the live set. */
  lemma FreeMeaning(base: Word, s: State, b: Block, s': State)
    requires HeapBase(base) && Sound(base, s) && b in Live(s.blocks)
    requires (LiveMayFree(base, s, b); FreeStep(base, s, base + 16 * (b.at + 1), s'))
    ensures Sound(base, s') && Live(s'.blocks) == Live(s.blocks) - {b}
  {
    var i := LiveIndex(base, s, b);
    PayloadPointer(base, b);
    hide ReleaseState, Represents, HeaderAt, Kept, Tiles, Coalesced, Release, Find, Wrap32, Live;
    assert s' == ReleaseState(base, s, i);
    ReleaseKeeps(s.blocks, i);
  }

  lemma PayloadPointer(base: Word, b: Block)
    requires base + HEAP_SIZE <= 0xFFFF_FFF0 && b.End() <= PARAGRAPHS
    ensures var h := Wrap32(base + 16 * (b.at + 1) - HEADER);
      InHeap(base, h) && (h - base) / 16 == b.at && (h - base) / 4 == 4 * b.at
  {
  }

  lemma LiveIndex(base: Word, s: State, b: Block) returns (i: nat)
    requires Tiles(s.blocks) && Represents(base, s) && b in Live(s.blocks)
    ensures i < |s.blocks| && s.blocks[i] == b && Find(s.blocks, b.at) == i
    ensures b.End() <= PARAGRAPHS && s.mem[4 * b.at + 1] == 0
  {
    i :| 0 <= i < |s.blocks| && s.blocks[i] == b;
    FindIs(s.blocks, i);
    assert HeaderAt(s.mem, base, s.blocks, i);
  }

  /** A free that does something releases a live block. */
  lemma FreedIsLive(base: Word, s: State, ptr: Word, s': State) returns (i: nat)
    requires HeapBase(base) && Sound(base, s)
    requires MayFree(base, s, ptr) && FreeStep(base, s, ptr, s') && s' != s
    ensures i < |s.blocks| && !s.blocks[i].free && s' == ReleaseState(base, s, i)
    ensures Kept(Live(s.blocks) - {s.blocks[i]}, s.mem, s'.mem)
  {
    hide ReleaseState, Kept, Tiles, Coalesced, Release;
    i := Find(s.blocks, (Wrap32(ptr - HEADER) - base) / 16);
    assert HeaderAt(s.mem, base, s.blocks, i);
  }

  lemma StoreSound(base: Word, s: State, k: nat, w: Word, b: Block)
    requires Sound(base, s) && b in Live(s.blocks) && b.Holds(k) && k < |s.mem|
    ensures Represents(base, State(s.mem[k := w], s.blocks))
  {
    var m := s.mem[k := w];
    forall i | 0 <= i < |s.blocks|
      ensures HeaderAt(m, base, s.blocks, i)
    {
      assert HeaderAt(s.mem, base, s.blocks, i);
      HeadersApart(s.blocks, i, b, k);
    }
  }

  /** What kmalloc returns may be freed. */
  lemma AllocatedMayFree(base: Word, s: State, size: Word, r: AllocResult, s': State)
    requires HeapBase(base) && Sound(base, s) && AllocStep(base, s, size, r, s') && r.Allocated?
    ensures Sound(base, s') && MayFree(base, s', r.ptr)
  {
    hide PlaceState, MayFree;
    var b, _ := AllocMeaning(base, s, size, r, s');
    assert b in Live(s'.blocks);
    LiveMayFree(base, s', b);
  }

  /** kmalloc followed by kfree of its result restores the block list exactly. */
  lemma AllocFreeUndo(base: Word, s: State, size: Word, r: AllocResult, s': State, s'': State)
    requires HeapBase(base) && Sound(base, s) && AllocStep(base, s, size, r, s') && r.Allocated?
    requires (AllocatedMayFree(base, s, size, r, s'); FreeStep(base, s', r.ptr, s''))
    ensures s''.blocks == s.blocks
  {
    hide AllocStep, FreeStep, MayFree;
    AllocatedMayFree(base, s, size, r, s');
    var b, _ := AllocMeaning(base, s, size, r, s');
    assert b in Live(s'.blocks);
    FreeMeaning(base, s', b, s'');
    Canonical(s''.blocks, s.blocks);
  }

  lemma StepSound(base: Word, s: State, e: Event, s': State)
    requires HeapBase(base) && Sound(base, s) && Step(base, s, e, s')
    ensures Sound(base, s')
  {
    hide PlaceState, ReleaseState;
    match e
    case Alloc(size, r) =>
    case Free(ptr) =>
      if s' != s {
        var i := FreedIsLive(base, s, ptr, s');
      }
    case Store(k, w) =>
      var b :| b in Live(s.blocks) && b.Holds(k);
      StoreSound(base, s, k, w, b);
  }

  /** A step changes a payload word of a block live before and after it only by storing to that word. */
  lemma StepKeeps(base: Word, s: State, e: Event, s': State, b: Block, k: nat)
    requires HeapBase(base) && Sound(base, s) && Step(base, s, e, s')
    requires b in Live(s.blocks) && b in Live(s'.blocks) && b.Holds(k) && k < |s.mem|
    requires !(e.Store? && e.k == k)
    ensures |s'.mem| == |s.mem| && s'.mem[k] == s.mem[k]
  {
    hide PlaceState, ReleaseState;
    if e.Free? && s' != s {
      var i := FreedIsLive(base, s, e.ptr, s');
      ReleaseKeeps(s.blocks, i);
    }
  }

  // ----- whole runs

  /** In every reachable state the list tiles the heap, no free neighbours remain, and the headers match. */
  lemma {:induction false} RunSound(base: Word, ss: seq<State>, es: seq<Event>, i: nat)
    requires Run(base, ss, es) && i < |ss|
    ensures Sound(base, ss[i])
  {
    if i > 0 {
      RunSound(base, ss, es, i - 1);
      assert Step(base, ss[i - 1], es[i - 1], ss[i - 1 + 1]);
      StepSound(base, ss[i - 1], es[i - 1], ss[i]);
    }
  }

  /** A run goes on with every step. */
  lemma RunGrows(base: Word, ss: seq<State>, es: seq<Event>, e: Event, s': State)
    requires Run(base, ss, es) && Step(base, ss[|es|], e, s')
    ensures Run(base, ss + [s'], es + [e])
  {
    hide Step, Represents;
    var ts, fs := ss + [s'], es + [e];
    forall i | 0 <= i < |fs| ensures Step(base, ts[i], fs[i], ts[i + 1]) {
      if i < |es| { assert Step(base, ss[i], es[i], ss[i + 1]); }
    }
  }

  // ----- the heap makes such steps

  method AllocEvent(h: Heap, size: Word) returns (r: AllocResult)
    requires h.Valid()
    modifies h, h.mem
    ensures h.Valid() && Step(h.base, old(h.Now()), Alloc(size, r), h.Now())
  {
    r := h.Kmalloc(size);
  }

  method FreeEvent(h: Heap, ptr: Word)
    requires h.Valid() && MayFree(h.base, h.Now(), ptr)
    modifies h, h.mem
    ensures h.Valid() && Step(h.base, old(h.Now()), Free(ptr), h.Now())
  {
    h.Kfree(ptr);
  }

  /** The owner of a live block writes one word of it. */
  method StoreEvent(h: Heap, k: nat, w: Word)
    requires h.Valid() && MayStore(h.Now(), k)
    modifies h.mem
    ensures h.Valid() && Step(h.base, old(h.Now()), Store(k, w), h.Now())
  {
    ghost var s := h.Now();
    h.mem[k] := w;
    assert h.Now() == State(s.mem[k := w], s.blocks);
    StepSound(h.base, s, Store(k, w), h.Now());
  }

  /** A new heap starts a run. */
  method StartEvent(base: Word) returns (h: Heap)
    requires HeapBase(base)
    ensures fresh(h) && fresh(h.mem) && h.base == base && h.Valid() && Run(base, [h.Now()], [])
  {
    h := new Heap(base);
  }

  lemma SoundSize(base: Word, s: State)
    requires Sound(base, s)
    ensures |s.mem| == HEAP_SIZE / 4
  {
  }

  /** While a block stays live, only its owner's stores change its payload. */
  lemma {:induction false} PayloadSafe(base: Word, ss: seq<State>, es: seq<Event>, i: nat, j: nat, b: Block, k: nat)
    requires Run(base, ss, es) && i <= j < |ss|
    requires forall t :: i <= t <= j ==> b in Live(ss[t].blocks)
    requires forall t :: i <= t < j ==> !(es[t].Store? && es[t].k == k)
    requires b.Holds(k) && k < HEAP_SIZE / 4
    ensures |ss[i].mem| == |ss[j].mem| == HEAP_SIZE / 4 && ss[j].mem[k] == ss[i].mem[k]
    decreases j
  {
    hide Sound, Step;
    RunSound(base, ss, es, i);
    SoundSize(base, ss[i]);
    if i < j {
      PayloadSafe(base, ss, es, i, j - 1, b, k);
      RunSound(base, ss, es, j - 1);
      assert Step(base, ss[j - 1], es[j - 1], ss[j - 1 + 1]);
      StepKeeps(base, ss[j - 1], es[j - 1], ss[j], b, k);
    }
  }

  lemma LiveApart(bs: seq<Block>, b: Block, c: Block)
    requires Tiles(bs) && b in Live(bs) && c in Live(bs) && b != c
    ensures b.End() <= c.at || c.End() <= b.at
    ensures b.End() <= PARAGRAPHS
  {
    AllOrdered(bs);
  }

  /** The block list of any reachable state depends only on what is live, not on how it came about. */
  lemma LiveSetDecides(base: Word, ss: seq<State>, es: seq<Event>, i: nat, ts: seq<State>, fs: seq<Event>, j: nat)
    requires Run(base, ss, es) && Run(base, ts, fs) && i < |ss| && j < |ts|
    requires Live(ss[i].blocks) == Live(ts[j].blocks)
    ensures ss[i].blocks == ts[j].blocks
  {
    RunSound(base, ss, es, i);
    RunSound(base, ts, fs, j);
    Canonical(ss[i].blocks, ts[j].blocks);
  }

  /** Once everything is freed, in whatever order, one free block spans the heap again. */
  lemma AllFreedIsInitial(base: Word, ss: seq<State>, es: seq<Event>, i: nat)
    requires Run(base, ss, es) && i < |ss| && Live(ss[i].blocks) == {}
    ensures ss[i].blocks == INITIAL
  {
    RunSound(base, ss, es, i);
    Canonical(ss[i].blocks, INITIAL);
  }

  /** Free, in the given order, the live blocks whose headers are at the given paragraphs. */
  function ReleaseAll(bs: seq<Block>, order: seq<nat>): seq<Block>
    decreases |order|
  {
    if order == [] then bs else ReleaseAll(ReleaseAt(bs, order[0]), order[1..])
  }

  function ReleaseAt(bs: seq<Block>, p: nat): seq<Block> {
    var i := Find(bs, p);
    if i < |bs| && !bs[i].free then Release(bs, i) else bs
  }

  lemma ReleaseAtLeaves(bs: seq<Block>, p: nat)
    requires Tiles(bs) && Coalesced(bs)
    ensures Tiles(ReleaseAt(bs, p)) && Coalesced(ReleaseAt(bs, p))
    ensures forall b :: b in Live(ReleaseAt(bs, p)) <==> b in Live(bs) && b.at != p
  {
    var i := Find(bs, p);
    forall b | b in Live(bs) && b.at == p
      ensures i < |bs| && b == bs[i]
    {
      var j :| 0 <= j < |bs| && bs[j] == b;
      FindIs(bs, j);
    }
    if i < |bs| && !bs[i].free {
      ReleaseKeeps(bs, i);
    }
  }

  lemma {:induction false} ReleaseAllLeaves(bs: seq<Block>, order: seq<nat>)
    requires Tiles(bs) && Coalesced(bs)
    ensures Tiles(ReleaseAll(bs, order)) && Coalesced(ReleaseAll(bs, order))
    ensures forall b :: b in Live(ReleaseAll(bs, order)) <==> b in Live(bs) && b.at !in order
    decreases |order|
  {
    if order != [] {
      ReleaseAtLeaves(bs, order[0]);
      ReleaseAllLeaves(ReleaseAt(bs, order[0]), order[1..]);
      assert forall p :: p in order <==> p == order[0] || p in order[1..];
    }
  }

  /** Freeing every live block restores the initial heap for every order of the frees. */
  lemma AnyOrderRestores(bs: seq<Block>, order: seq<nat>)
    requires Tiles(bs) && Coalesced(bs)
    requires forall b :: b in Live(bs) ==> b.at in order
    ensures ReleaseAll(bs, order) == INITIAL
  {
    ReleaseAllLeaves(bs, order);
    assert Live(ReleaseAll(bs, order)) == {};
    Canonical(ReleaseAll(bs, order), INITIAL);
  }

  // ----- how much the heap holds

  /** k blocks of n paragraphs lie one after the other; behind them is one free block, or too little for another one. */
  ghost predicate PackedTo(bs: seq<Block>, n: nat, k: nat) {
    && Tiles(bs) && k * (n + 1) <= PARAGRAPHS
    && (forall i :: 0 <= i < |bs| - 1 ==> !bs[i].free)
    && var last := bs[|bs| - 1];
       if last.free then last.at == k * (n + 1) else PARAGRAPHS < (k + 1) * (n + 1)
  }

  /** Runs that only ask for blocks of n paragraphs. */
  ghost predicate AsksFor(es: seq<Event>, n: nat) {
    forall i :: 0 <= i < |es| ==> es[i].Alloc? && Need(es[i].size) == n
  }

  lemma PackOne(bs: seq<Block>, n: nat, k: nat)
    requires PackedTo(bs, n, k) && n > 0
    ensures FirstFit(bs, n) < |bs| <==> (k + 1) * (n + 1) <= PARAGRAPHS
    ensures FirstFit(bs, n) < |bs| ==>
      Tiles(Place(bs, FirstFit(bs, n), n)) ==> PackedTo(Place(bs, FirstFit(bs, n), n), n, k + 1)
  {
    var last := bs[|bs| - 1];
    assert (k + 1) * (n + 1) == k * (n + 1) + n + 1 && (k + 2) * (n + 1) == (k + 1) * (n + 1) + n + 1;
    if Fits(last, n) {
      FirstFitIs(bs, n, |bs| - 1);
    } else {
      FirstFitIs(bs, n, |bs|);
    }
  }

  /** After i requests some number k of them were met: all, unless the heap is full for blocks of this length. */
  lemma {:induction false} PackedAfter(base: Word, ss: seq<State>, es: seq<Event>, n: nat, i: nat) returns (k: nat)
    requires Run(base, ss, es) && AsksFor(es, n) && n > 0 && i < |ss|
    ensures PackedTo(ss[i].blocks, n, k) && k <= i && (k < i ==> PARAGRAPHS < (k + 1) * (n + 1))
  {
    hide PlaceState, Represents;
    RunSound(base, ss, es, i);
    if i == 0 {
      k := 0;
    } else {
      k := PackedAfter(base, ss, es, n, i - 1);
      RunSound(base, ss, es, i - 1);
      assert Step(base, ss[i - 1], es[i - 1], ss[i - 1 + 1]);
      assert es[i - 1].Alloc? && Need(es[i - 1].size) == n && es[i - 1].size != 0;
      hide PackedTo, Tiles, Coalesced, Need, FirstFit, Place;
      PackOne(ss[i - 1].blocks, n, k);
      SoundTiles(base, ss[i]);
      if FirstFit(ss[i - 1].blocks, n) < |ss[i - 1].blocks| {
        k := k + 1;
      }
    }
  }

  lemma SoundTiles(base: Word, s: State)
    requires Sound(base, s)
    ensures Tiles(s.blocks)
  {
  }

  /**
  A new heap meets as many requests for n paragraphs as there is room for blocks with their headers: the i-th request
  succeeds if and only if i such blocks fit.
  */
  lemma Capacity(base: Word, ss: seq<State>, es: seq<Event>, n: nat, i: nat)
    requires Run(base, ss, es) && AsksFor(es, n) && n > 0 && i < |es|
    ensures es[i].r.Allocated? <==> (i + 1) * (n + 1) <= PARAGRAPHS
  {
    hide PlaceState, Represents;
    var k := PackedAfter(base, ss, es, n, i);
    RunSound(base, ss, es, i);
    assert Step(base, ss[i], es[i], ss[i + 1]);
    assert es[i].Alloc? && Need(es[i].size) == n && es[i].size != 0;
    hide PackedTo, Tiles, Coalesced, Need, FirstFit, Place;
    PackOne(ss[i].blocks, n, k);
    assert (i + 1) * (n + 1) == (k + 1) * (n + 1) + (i - k) * (n + 1);
  }
}

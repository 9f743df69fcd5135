/**
  Whole runs of the small heap (mem.c): what rt_malloc, rt_realloc and rt_free make of the blocks and
  of `lfree`, one after the other.
*/
module SmallHeapRuns {
  import opened SmallHeap
  import opened Tiling

  datatype State = State(bs: seq<Block>, lfree: nat)

  /** What a caller passes: null, a pointer outside the arena, or a live block, by its number. */
  datatype Ref = Nothing | Outside | Live(i: nat)

  /** Sizes are 32-bit. */
  datatype Event = Malloc(size: nat) | Realloc(p: Ref, size: nat) | Free(p: Ref)

  predicate Known(s: State, p: Ref) { p.Live? ==> p.i < |s.bs| && s.bs[p.i].used }

  predicate Enabled(s: State, e: Event) {
    match e
    case Malloc(size) => size < U32
    case Realloc(p, size) => size < U32 && Known(s, p)
    case Free(p) => Known(s, p)
  }

  predicate Fits(bs: seq<Block>, lfree: nat, memSize: nat, want: nat, i: nat)
    requires i < |bs|
  {
    lfree <= bs[i].addr < memSize - want && !bs[i].used && bs[i].len - HDR >= want
  }

  /** The block the search stops at, or |bs|. */
  function FitFrom(bs: seq<Block>, lfree: nat, memSize: nat, want: nat, j: nat): (i: nat)
    ensures i < |bs| ==> Fits(bs, lfree, memSize, want, i)
    decreases |bs| - j
  {
    if j >= |bs| then |bs| else if Fits(bs, lfree, memSize, want, j) then j else FitFrom(bs, lfree, memSize, want, j + 1)
  }

  function Take(s: State, memSize: nat, want: nat, i: nat): State
    requires i < |s.bs|
  {
    State(Taken(s.bs, i, want), LfreeTaken(s.bs, i, want, s.lfree, memSize + HDR))
  }

  function MallocStep(s: State, memSize: nat, size: nat): State {
    var i := FitFrom(s.bs, s.lfree, memSize, Want(size), 0);
    if size == 0 || Align(size) > memSize || i >= |s.bs| then s else Take(s, memSize, Want(size), i)
  }

  function FreeStep(s: State, i: nat): State
    requires i < |s.bs|
  {
    State(Freed(s.bs, i), LfreeFreed(s.bs, i, s.lfree))
  }

  function ReallocStep(s: State, memSize: nat, i: nat, size: nat): State
    requires i < |s.bs|
  {
    var n := Align(size);
    if n > memSize then s
    else if n == 0 then FreeStep(s, i)
    else if n + HDR == s.bs[i].len then s
    else if Shrinks(s.bs, i, n) then State(Shrunk(s.bs, i, n), LfreePlugged(Split(s.bs, i, HDR + n), i + 1, s.lfree))
    else
      var m := FitFrom(s.bs, s.lfree, memSize, Want(n), 0);
      if m >= |s.bs| || MovedIndex(s.bs, m, Want(n), i) >= |Taken(s.bs, m, Want(n))| then s
      else FreeStep(Take(s, memSize, Want(n), m), MovedIndex(s.bs, m, Want(n), i))
  }

  function Do(s: State, memSize: nat, e: Event): State
    requires Enabled(s, e)
  {
    match e
    case Malloc(size) => MallocStep(s, memSize, size)
    case Realloc(p, size) =>
      (match p
       case Nothing => MallocStep(s, memSize, Align(size))
       case Outside => s
       case Live(i) => ReallocStep(s, memSize, i, size))
    case Free(p) => if p.Live? then FreeStep(s, p.i) else s
  }

  /** The search of rt_malloc: the lowest block it admits, or none. */
  lemma {:induction false} FitIsFirst(bs: seq<Block>, lfree: nat, memSize: nat, want: nat, j: nat)
    requires forall k :: 0 <= k < j && k < |bs| ==> !Admits(bs, lfree, memSize, want, k)
    ensures var i := FitFrom(bs, lfree, memSize, want, j);
      if i < |bs| then FirstFit(bs, lfree, memSize, want, i) else NoFit(bs, lfree, memSize, want)
    decreases |bs| - j
  {
    if j < |bs| && !Fits(bs, lfree, memSize, want, j) { FitIsFirst(bs, lfree, memSize, want, j + 1); }
  }

  /** So the block that method Heap.Malloc finds is the block of this step. */
  lemma FirstFitIsFound(bs: seq<Block>, lfree: nat, memSize: nat, want: nat, i: nat)
    requires FirstFit(bs, lfree, memSize, want, i)
    ensures FitFrom(bs, lfree, memSize, want, 0) == i
  {
    FitIsFirst(bs, lfree, memSize, want, 0);
  }

  // ---------------------------------------------------------------- every operation keeps the invariant

  /** The blocks tile the arena, no two neighbours are free, and `lfree` is a free block or heap_end. */
  ghost predicate Inv(s: State, memSize: nat) {
    && memSize + 2 * HDR < U32
    && Tiles(s.bs, HDR, memSize + HDR) && Coalesced(s.bs) && LfreeOk(s.bs, s.lfree, memSize + HDR)
  }

  lemma {:induction false} FreeFromOk(bs: seq<Block>, i: nat, end: nat)
    ensures LfreeOk(bs, FreeFrom(bs, i, end), end)
    decreases |bs| - i
  {
    if i < |bs| && bs[i].used { FreeFromOk(bs, i + 1, end); }
  }

  lemma {:induction false} FreeFromLowest(bs: seq<Block>, i: nat, end: nat)
    requires Tiles(bs, HDR, end) && i <= |bs|
    requires forall k :: 0 <= k < i ==> bs[k].used
    ensures Lowest(bs, FreeFrom(bs, i, end))
    decreases |bs| - i
  {
    if i < |bs| {
      if bs[i].used {
        FreeFromLowest(bs, i + 1, end);
      } else {
        TilesOrderedAll(bs, HDR, end);
        assert forall k :: 0 <= k < |bs| && bs[k].addr < bs[i].addr ==> k < i || k == i || bs[i].addr + bs[i].len <= bs[k].addr;
      }
    }
  }

  /** Below the block that starts at `lfree` everything is used, and stays so when it is taken. */
  lemma TakenUsedBelow(bs: seq<Block>, i: nat, want: nat, end: nat)
    requires Tiles(bs, HDR, end) && i < |bs| && want <= bs[i].len - HDR && Lowest(bs, bs[i].addr)
    ensures forall k :: 0 <= k < i ==> Taken(bs, i, want)[k].used
  {
    forall k | 0 <= k < i
      ensures Taken(bs, i, want)[k].used
    {
      assert Taken(bs, i, want)[k] == bs[k] && TileAt(bs, HDR, end, k);
      TilesOrdered(bs, HDR, end, k, i);
    }
  }

  lemma TakeKeeps(s: State, memSize: nat, want: nat, i: nat)
    requires Inv(s, memSize) && i < |s.bs| && Fits(s.bs, s.lfree, memSize, want, i) && want >= MIN_SIZE && want % 4 == 0
    ensures Inv(Take(s, memSize, want, i), memSize)
    ensures Lowest(s.bs, s.lfree) ==> Lowest(Take(s, memSize, want, i).bs, Take(s, memSize, want, i).lfree)
  {
    var end := memSize + HDR;
    TakenTiles(s.bs, end, i, want);
    if s.bs[i].addr == s.lfree {
      FreeFromOk(Taken(s.bs, i, want), i, end);
      if Lowest(s.bs, s.lfree) {
        TakenUsedBelow(s.bs, i, want, end);
        FreeFromLowest(Taken(s.bs, i, want), i, end);
      }
    } else {
      TakenLfree(s.bs, i, want, s.lfree, end);
    }
  }

  lemma WantAligned(size: nat)
    ensures Want(size) >= MIN_SIZE && Want(size) % 4 == 0 && Align(size) % 4 == 0 && Align(size) < U32
  {
  }

  lemma FreeKeeps(s: State, memSize: nat, i: nat)
    requires Inv(s, memSize) && i < |s.bs| && s.bs[i].used
    ensures Inv(FreeStep(s, i), memSize)
    ensures Lowest(s.bs, s.lfree) ==> Lowest(FreeStep(s, i).bs, FreeStep(s, i).lfree)
  {
    FreedKeepsTiling(s.bs, i, HDR, memSize + HDR);
    FreedLfree(s.bs, i, s.lfree, memSize + HDR);
  }

  lemma ShrinkKeeps(s: State, memSize: nat, i: nat, n: nat)
    requires Inv(s, memSize) && i < |s.bs| && s.bs[i].used && 0 < n && n % 4 == 0 && Shrinks(s.bs, i, n)
    ensures Inv(State(Shrunk(s.bs, i, n), LfreePlugged(Split(s.bs, i, HDR + n), i + 1, s.lfree)), memSize)
  {
    var end := memSize + HDR;
    CutBackKeepsTiling(s.bs, i, HDR + n, HDR, end);
    SplitLfreeOk(s.bs, i, HDR + n, s.lfree, end);
    PlugLfreeOk(Split(s.bs, i, HDR + n), i + 1, s.lfree, end);
  }

  /** rt_realloc on the path that cuts the block in place. */
  predicate ShrinksInPlace(s: State, memSize: nat, e: Event)
    requires Enabled(s, e)
  {
    e.Realloc? && e.p.Live? && 0 < Align(e.size) <= memSize && Shrinks(s.bs, e.p.i, Align(e.size))
  }

  lemma ReallocKeeps(s: State, memSize: nat, i: nat, size: nat)
    requires Inv(s, memSize) && Enabled(s, Realloc(Live(i), size))
    ensures Inv(ReallocStep(s, memSize, i, size), memSize)
    ensures Lowest(s.bs, s.lfree) && !ShrinksInPlace(s, memSize, Realloc(Live(i), size)) ==>
      Lowest(ReallocStep(s, memSize, i, size).bs, ReallocStep(s, memSize, i, size).lfree)
  {
    var n := Align(size);
    WantAligned(size);
    if n > memSize {
    } else if n == 0 {
      FreeKeeps(s, memSize, i);
    } else if n + HDR == s.bs[i].len {
    } else if Shrinks(s.bs, i, n) {
      ShrinkKeeps(s, memSize, i, n);
    } else {
      var m := FitFrom(s.bs, s.lfree, memSize, Want(n), 0);
      WantAligned(n);
      if m < |s.bs| {
        TakeKeeps(s, memSize, Want(n), m);
        TakenSameBlock(s.bs, m, Want(n), i);
        FreeKeeps(Take(s, memSize, Want(n), m), memSize, MovedIndex(s.bs, m, Want(n), i));
      }
    }
  }

  /** Every operation keeps the tiling, the links' targets and the coalescing; every operation but an
      in-place shrink also keeps `lfree` the lowest free block. */
  lemma StepKeepsInv(s: State, memSize: nat, e: Event)
    requires Inv(s, memSize) && Enabled(s, e)
    ensures Inv(Do(s, memSize, e), memSize)
    ensures Lowest(s.bs, s.lfree) && !ShrinksInPlace(s, memSize, e) ==> Lowest(Do(s, memSize, e).bs, Do(s, memSize, e).lfree)
  {
    match e
    case Malloc(size) => MallocKeeps(s, memSize, size);
    case Realloc(p, size) =>
      if p.Live? { ReallocKeeps(s, memSize, p.i, size); }
      if p.Nothing? { MallocKeeps(s, memSize, Align(size)); }
    case Free(p) => if p.Live? { FreeKeeps(s, memSize, p.i); }
  }

  lemma MallocKeeps(s: State, memSize: nat, size: nat)
    requires Inv(s, memSize)
    ensures Inv(MallocStep(s, memSize, size), memSize)
    ensures Lowest(s.bs, s.lfree) ==> Lowest(MallocStep(s, memSize, size).bs, MallocStep(s, memSize, size).lfree)
  {
    WantAligned(size);
    var i := FitFrom(s.bs, s.lfree, memSize, Want(size), 0);
    if size != 0 && Align(size) <= memSize && i < |s.bs| { TakeKeeps(s, memSize, Want(size), i); }
  }

  // ---------------------------------------------------------------- whole runs

  predicate EnabledRun(s: State, memSize: nat, es: seq<Event>)
    decreases |es|
  {
    es == [] || (Enabled(s, es[0]) && EnabledRun(Do(s, memSize, es[0]), memSize, es[1..]))
  }

  function Run(s: State, memSize: nat, es: seq<Event>): State
    requires EnabledRun(s, memSize, es)
    decreases |es|
  {
    if es == [] then s else Run(Do(s, memSize, es[0]), memSize, es[1..])
  }

  /** No step of the run cuts a block in place. */
  predicate NeverShrinks(s: State, memSize: nat, es: seq<Event>)
    requires EnabledRun(s, memSize, es)
    decreases |es|
  {
    es == [] || (!ShrinksInPlace(s, memSize, es[0]) && NeverShrinks(Do(s, memSize, es[0]), memSize, es[1..]))
  }

  lemma {:induction false} RunKeepsInv(s: State, memSize: nat, es: seq<Event>)
    requires Inv(s, memSize) && EnabledRun(s, memSize, es)
    ensures Inv(Run(s, memSize, es), memSize)
    ensures Lowest(s.bs, s.lfree) && NeverShrinks(s, memSize, es) ==> Lowest(Run(s, memSize, es).bs, Run(s, memSize, es).lfree)
    decreases |es|
  {
    if es != [] {
      StepKeepsInv(s, memSize, es[0]);
      RunKeepsInv(Do(s, memSize, es[0]), memSize, es[1..]);
    }
  }

  /** rt_system_heap_init. */
  function Boot(memSize: nat): State { State([Block(0, memSize + HDR, false)], 0) }

  /** After any run, following `next` from offset 0 tiles the arena up to heap_end, and no two neighbours
      are both free.  After a run in which no block was cut in place, a request within bounds fails exactly
      when the only free block that is large enough, if any, is the last one and fits exactly. */
  lemma AfterAnyRun(memSize: nat, es: seq<Event>, size: nat)
    requires MIN_SIZE <= memSize && memSize % 4 == 0 && memSize + 2 * HDR < U32 && EnabledRun(Boot(memSize), memSize, es)
    requires 0 < size < U32 && Align(size) <= memSize
    ensures var s := Run(Boot(memSize), memSize, es); var want := Want(size);
      && Tiles(s.bs, HDR, memSize + HDR) && Coalesced(s.bs)
      && (NeverShrinks(Boot(memSize), memSize, es) ==>
            (MallocStep(s, memSize, size) == s <==>
               forall i :: 0 <= i < |s.bs| && !s.bs[i].used && s.bs[i].len - HDR >= want ==> i == |s.bs| - 1 && s.bs[i].len - HDR == want))
  {
    assert TileAt(Boot(memSize).bs, HDR, memSize + HDR, 0);
    RunKeepsInv(Boot(memSize), memSize, es);
    var s, want := Run(Boot(memSize), memSize, es), Want(size);
    if NeverShrinks(Boot(memSize), memSize, es) {
      var i := FitFrom(s.bs, s.lfree, memSize, want, 0);
      FitIsFirst(s.bs, s.lfree, memSize, want, 0);
      NoFitExactly(s.bs, s.lfree, memSize, want);
      if i < |s.bs| { assert Taken(s.bs, i, want)[i].used; }
    }
  }

  /** What one rt_malloc makes of the blocks: nothing if the size checks refuse or nothing fits; otherwise the
      lowest block that the search admits is used, cut exactly when what is left has room for a header and
      MIN_SIZE bytes, and everything else stays in use as it was. */
  lemma MallocExactly(s: State, memSize: nat, size: nat) returns (m: nat)
    requires Inv(s, memSize) && size < U32
    ensures size == 0 || Align(size) > memSize || NoFit(s.bs, s.lfree, memSize, Want(size)) ==> MallocStep(s, memSize, size) == s
    ensures size != 0 && Align(size) <= memSize && !NoFit(s.bs, s.lfree, memSize, Want(size)) ==>
      FirstFit(s.bs, s.lfree, memSize, Want(size), m) && Answered(s.bs, m, Want(size), MallocStep(s, memSize, size).bs)
  {
    var want := Want(size);
    FitIsFirst(s.bs, s.lfree, memSize, want, 0);
    m := FitFrom(s.bs, s.lfree, memSize, want, 0);
    if m < |s.bs| { TakenExactly(s.bs, memSize + HDR, m, want); }
  }

  /** Free block `m` of `bs` became the used block `m` of `bs'`. */
  ghost predicate Answered(bs: seq<Block>, m: nat, want: nat, bs': seq<Block>) {
    && m < |bs| && m < |bs'| && bs'[m].addr == bs[m].addr && bs'[m].used
    && (if bs[m].len - HDR - want < HDR + MIN_SIZE then bs'[m].len == bs[m].len
        else bs'[m].len == HDR + want && m + 1 < |bs'| && bs'[m + 1].addr == bs[m].addr + HDR + want
             && !bs'[m + 1].used && bs'[m + 1].len == bs[m].len - HDR - want)
    && forall b: Block :: InUse(bs', b) <==> b == bs'[m] || InUse(bs, b)
  }

  /** A new arena never hands out all of its bytes: the one free block is the last one and fits exactly. */
  lemma WholeArenaIsRefused(memSize: nat)
    requires MIN_SIZE <= memSize && memSize % 4 == 0 && memSize + 2 * HDR < U32
    ensures MallocStep(Boot(memSize), memSize, memSize) == Boot(memSize) && Boot(memSize).bs[0].len - HDR == memSize
  {
    assert FitFrom(Boot(memSize).bs, 0, memSize, memSize, 0) == FitFrom(Boot(memSize).bs, 0, memSize, memSize, 1);
  }

  /** A request of 2^32 - 1 bytes is answered with a block of twelve. */
  lemma HugeRequestWraps()
    ensures MallocStep(Boot(100), 100, 0xFFFF_FFFF) == State([Block(0, 24, true), Block(24, 88, false)], 24)
  {
    var bs := Boot(100).bs;
    assert Fits(bs, 0, 100, 12, 0) && FitFrom(bs, 0, 100, 12, 0) == 0;
    assert Mark(Split(bs, 0, 24), 0, true) == [Block(0, 24, true), Block(24, 88, false)];
    assert FreeFrom(Taken(bs, 0, 12), 0, 112) == FreeFrom(Taken(bs, 0, 12), 1, 112);
  }

  // ---------------------------------------------------------------- the heap takes these steps

  lemma MallocIsStep(bs: seq<Block>, lfree: nat, memSize: nat, size: nat, r: Ptr, m: nat, bs': seq<Block>, lfree': nat)
    requires r == Null ==> bs' == bs && lfree' == lfree && (size == 0 || Align(size) > memSize || NoFit(bs, lfree, memSize, Want(size)))
    requires r != Null ==> size != 0 && Align(size) <= memSize && FirstFit(bs, lfree, memSize, Want(size), m)
    requires r != Null ==> bs' == Taken(bs, m, Want(size)) && lfree' == LfreeTaken(bs, m, Want(size), lfree, memSize + HDR)
    ensures State(bs', lfree') == MallocStep(State(bs, lfree), memSize, size)
  {
    FitIsFirst(bs, lfree, memSize, Want(size), 0);
    if r != Null { FirstFitIsFound(bs, lfree, memSize, Want(size), m); }
  }

  lemma ReallocIsStep(bs: seq<Block>, lfree: nat, memSize: nat, i: nat, size: nat, rmem: Ptr, r: Ptr, bs': seq<Block>, lfree': nat)
    requires i < |bs| && 0 < Align(size) <= memSize
    requires Reallocated(bs, lfree, memSize, i, Align(size), rmem, r, bs', lfree')
    ensures State(bs', lfree') == ReallocStep(State(bs, lfree), memSize, i, size)
  {
    var n := Align(size);
    if n + HDR != bs[i].len && !Shrinks(bs, i, n) {
      FitIsFirst(bs, lfree, memSize, Want(n), 0);
      if r != Null {
        var m: nat :| FirstFit(bs, lfree, memSize, Want(n), m) && MovedTo(bs, lfree, memSize, i, n, m, bs', lfree');
        MoveIsStep(bs, lfree, memSize, i, size, m, bs', lfree');
      }
    }
  }

  lemma MoveIsStep(bs: seq<Block>, lfree: nat, memSize: nat, i: nat, size: nat, m: nat, bs': seq<Block>, lfree': nat)
    requires i < |bs| && 0 < Align(size) <= memSize && Align(size) + HDR != bs[i].len && !Shrinks(bs, i, Align(size))
    requires FirstFit(bs, lfree, memSize, Want(Align(size)), m) && MovedTo(bs, lfree, memSize, i, Align(size), m, bs', lfree')
    ensures State(bs', lfree') == ReallocStep(State(bs, lfree), memSize, i, size)
  {
    FirstFitIsFound(bs, lfree, memSize, Want(Align(size)), m);
  }

  /** The pointer that a caller passes for `p`. */
  ghost predicate Names(h: Heap, ptr: Ptr, p: Ref)
    reads h
  {
    match p
    case Nothing => ptr == Null
    case Outside => ptr.At? && !(0 <= ptr.off < h.End)
    case Live(i) => LiveAt(h.blocks, ptr, i)
  }

  /** Every operation of the heap is the step of the run model. */
  method Serve(h: Heap, e: Event, ptr: Ptr) returns (r: Ptr)
    requires h.Valid() && Enabled(State(h.blocks, h.lfree), e) && (!e.Malloc? ==> Names(h, ptr, e.p))
    modifies h
    ensures h.Valid() && State(h.blocks, h.lfree) == Do(old(State(h.blocks, h.lfree)), h.memSize, e)
  {
    match e
    case Malloc(size) => r := ServeMalloc(h, size);
    case Realloc(p, size) =>
      match p {
        case Nothing => r := ServeNull(h, size);
        case Outside => r := ServeOutside(h, size, ptr);
        case Live(i) => r := ServeRealloc(h, i, size, ptr);
      }
    case Free(p) =>
      ServeFree(h, p, ptr);
      r := Null;
  }

  method ServeFree(h: Heap, p: Ref, ptr: Ptr)
    requires h.Valid() && Names(h, ptr, p)
    modifies h
    ensures h.Valid() && State(h.blocks, h.lfree) == if p.Live? then FreeStep(old(State(h.blocks, h.lfree)), p.i) else old(State(h.blocks, h.lfree))
  {
    h.Free(ptr);
  }

  method ServeNull(h: Heap, size: nat) returns (r: Ptr)
    requires h.Valid() && size < U32
    modifies h
    ensures h.Valid() && State(h.blocks, h.lfree) == MallocStep(old(State(h.blocks, h.lfree)), h.memSize, Align(size))
  {
    ghost var bs, l := h.blocks, h.lfree;
    r := h.Realloc(Null, size);
    AlignTwice(size);
    if 0 < Align(size) <= h.memSize { AllocatedIsStep(bs, l, h.memSize, Align(size), r, h.blocks, h.lfree); }
  }

  method ServeOutside(h: Heap, size: nat, ptr: Ptr) returns (r: Ptr)
    requires h.Valid() && size < U32 && Names(h, ptr, Outside)
    modifies h
    ensures h.Valid() && State(h.blocks, h.lfree) == old(State(h.blocks, h.lfree))
  {
    r := h.Realloc(ptr, size);
  }

  lemma AlignTwice(size: nat)
    ensures Align(Align(size)) == Align(size)
  {
  }

  lemma AllocatedIsStep(bs: seq<Block>, lfree: nat, memSize: nat, n: nat, r: Ptr, bs': seq<Block>, lfree': nat)
    requires 0 < n && Align(n) <= memSize && Allocated(bs, lfree, memSize, n, r, bs', lfree')
    ensures State(bs', lfree') == MallocStep(State(bs, lfree), memSize, n)
  {
    if r == Null {
      MallocIsStep(bs, lfree, memSize, n, r, 0, bs', lfree');
    } else {
      var m: nat :| FirstFit(bs, lfree, memSize, Want(n), m) && bs' == Taken(bs, m, Want(n)) && lfree' == LfreeTaken(bs, m, Want(n), lfree, memSize + HDR);
      MallocIsStep(bs, lfree, memSize, n, r, m, bs', lfree');
    }
  }

  method ServeMalloc(h: Heap, size: nat) returns (r: Ptr)
    requires h.Valid() && size < U32
    modifies h
    ensures h.Valid() && State(h.blocks, h.lfree) == MallocStep(old(State(h.blocks, h.lfree)), h.memSize, size)
  {
    ghost var bs, l, m := h.blocks, h.lfree, 0;
    r, m := h.Malloc(size);
    MallocIsStep(bs, l, h.memSize, size, r, m, h.blocks, h.lfree);
  }

  method ServeRealloc(h: Heap, i: nat, size: nat, p: Ptr) returns (r: Ptr)
    requires h.Valid() && size < U32 && LiveAt(h.blocks, p, i)
    modifies h
    ensures h.Valid() && State(h.blocks, h.lfree) == ReallocStep(old(State(h.blocks, h.lfree)), h.memSize, i, size)
  {
    ghost var bs, l := h.blocks, h.lfree;
    r := h.Realloc(p, size);
    if 0 < Align(size) <= h.memSize { ReallocIsStep(bs, l, h.memSize, i, size, p, r, h.blocks, h.lfree); }
  }

  /** A request fails although a free block could serve it that is not the one the bound hides. */
  ghost predicate Overlooks(s: State, memSize: nat, size: nat) {
    && 0 < size < U32 && Align(size) <= memSize && MallocStep(s, memSize, size) == s
    && exists i :: 0 <= i < |s.bs| && !s.bs[i].used && s.bs[i].len - HDR > Want(size)
  }

  lemma MallocWhole()
    ensures MallocStep(Boot(100), 100, 96) == State([Block(0, 112, true)], 112)
  {
    var s0 := Boot(100);
    assert Fits(s0.bs, 0, 100, 96, 0) && FitFrom(s0.bs, 0, 100, 96, 0) == 0;
  }

  lemma CutWhole()
    ensures ReallocStep(State([Block(0, 112, true)], 112), 100, 0, 12) == State([Block(0, 24, true), Block(24, 88, false)], 112)
  {
    assert Split([Block(0, 112, true)], 0, 24) == [Block(0, 24, true), Block(24, 88, false)];
  }

  lemma NothingFound()
    ensures var s := State([Block(0, 24, true), Block(24, 88, false)], 112);
      !Lowest(s.bs, s.lfree) && Overlooks(s, 100, 12)
  {
    var s := State([Block(0, 24, true), Block(24, 88, false)], 112);
    assert FitFrom(s.bs, 112, 100, 12, 0) == FitFrom(s.bs, 112, 100, 12, 1);
    assert !s.bs[1].used && s.bs[1].addr < s.lfree;
  }

  /** A run that cuts a block in place: the freed tail lies below `lfree`, and the next request, which it
      could serve, fails. */
  lemma ShrinkHidesFreeBlock() returns (es: seq<Event>)
    ensures EnabledRun(Boot(100), 100, es)
    ensures var s := Run(Boot(100), 100, es); !Lowest(s.bs, s.lfree) && Overlooks(s, 100, 12)
  {
    var a, b := Malloc(96), Realloc(Live(0), 12);
    es := [a, b];
    MallocWhole();
    CutWhole();
    NothingFound();
    var s1 := Do(Boot(100), 100, a);
    var s2 := Do(s1, 100, b);
    assert es[1..] == [b] && [b][1..] == [];
    assert Run(s1, 100, [b]) == Run(s2, 100, []);
  }
}

/**
  The memheap allocator (memheap.c).  Every header is on an address-ordered ring, closed by a used
  tail block of length zero, and the headers of free blocks are also on a free ring, used as a stack.
*/
module MemHeap {
  import opened Payload
  import opened Rings
  import opened Tiling

  const HDR: nat := 24                // RT_MEMHEAP_SIZE on a 32-bit target
  const MINIALLOC: nat := 12          // RT_MEMHEAP_MINIALLOC
  const U32: nat := 0x1_0000_0000
  const FREE: int := -1               // &heap->free_header
  const NULL: int := -2               // RT_NULL in a link field

  datatype Ptr = Null | At(off: nat)

  /** RT_ALIGN(size, RT_ALIGN_SIZE) in 32-bit unsigned arithmetic. */
  function Align(size: nat): nat {
    (size + 3) % U32 / 4 * 4
  }

  /** Payload reserved for a request. */
  function Want(size: nat): nat {
    if Align(size) < MINIALLOC then MINIALLOC else Align(size)
  }

  // ---------------------------------------------------------------- the two rings

  /** The address-ordered ring: every block, then the tail. */
  function BlockRing(bs: seq<Block>, end: nat): (c: seq<int>)
    ensures |c| == |bs| + 1
  {
    seq(|bs|, k requires 0 <= k < |bs| => bs[k].addr as int) + [end as int]
  }

  /** The free ring: its header, then the free blocks, most recently pushed first. */
  function FreeRing(free: seq<int>): seq<int> {
    [FREE] + free
  }

  ghost predicate Flags(used: map<int, bool>, bs: seq<Block>, end: nat) {
    && (forall i :: 0 <= i < |bs| ==> bs[i].addr as int in used && used[bs[i].addr as int] == bs[i].used)
    && end as int in used && used[end as int]
  }

  /** `a` is the address of a free block. */
  ghost predicate FreeAddr(bs: seq<Block>, a: int) {
    exists i :: 0 <= i < |bs| && bs[i].addr == a && !bs[i].used
  }

  /** The free ring holds exactly the free blocks. */
  ghost predicate Matches(bs: seq<Block>, free: seq<int>) {
    forall a: int :: a in free <==> FreeAddr(bs, a)
  }

  lemma SplitRing(bs: seq<Block>, end: nat, i: nat, len: nat)
    requires i < |bs| && len <= bs[i].len
    ensures BlockRing(Split(bs, i, len), end) == Inserted(BlockRing(bs, end), i, bs[i].addr + len)
  {
  }

  lemma MergeRing(bs: seq<Block>, end: nat, i: nat)
    requires i + 1 < |bs|
    ensures BlockRing(Merge(bs, i), end) == Dropped(BlockRing(bs, end), i + 1)
  {
  }

  lemma MarkRing(bs: seq<Block>, end: nat, i: nat, u: bool)
    requires i < |bs|
    ensures BlockRing(Mark(bs, i, u), end) == BlockRing(bs, end)
  {
  }

  /** A block is not where a new header of a split would go. */
  lemma NewAddrFresh(bs: seq<Block>, end: nat, i: nat, len: nat)
    requires Tiles(bs, HDR, end) && i < |bs| && 0 < len < bs[i].len
    ensures bs[i].addr + len !in BlockRing(bs, end)
  {
    var n := bs[i].addr + len;
    assert TileAt(bs, HDR, end, i);
    forall k | 0 <= k < |bs|
      ensures bs[k].addr != n
    {
      if k < i { TilesOrdered(bs, HDR, end, k, i); } else if i < k { TilesOrdered(bs, HDR, end, i, k); }
    }
    if i < |bs| - 1 { TilesOrdered(bs, HDR, end, i, |bs| - 1); }
  }

  lemma NewAddrNotFree(bs: seq<Block>, end: nat, i: nat, len: nat)
    requires Tiles(bs, HDR, end) && i < |bs| && 0 < len < bs[i].len
    ensures !FreeAddr(bs, bs[i].addr + len)
  {
    NewAddrFresh(bs, end, i, len);
    var c := BlockRing(bs, end);
    assert forall o :: 0 <= o < |bs| ==> c[o] == bs[o].addr && c[o] in c;
  }

  lemma SplitFlags(used: map<int, bool>, bs: seq<Block>, end: nat, i: nat, len: nat)
    requires Tiles(bs, HDR, end) && Flags(used, bs, end) && i < |bs| && 0 < len < bs[i].len
    ensures Flags(used[bs[i].addr + len := false], Split(bs, i, len), end)
  {
    NewAddrFresh(bs, end, i, len);
    var c, s := BlockRing(bs, end), Split(bs, i, len);
    assert c[|bs|] in c;
    forall k | 0 <= k < |s| && k != i + 1
      ensures s[k].addr != bs[i].addr + len && s[k].addr == bs[if k <= i then k else k - 1].addr && s[k].used == bs[if k <= i then k else k - 1].used
    {
      assert c[if k <= i then k else k - 1] in c;
    }
  }

  // ---- which addresses are free after each move

  lemma MarkFree(bs: seq<Block>, end: nat, i: nat, u: bool, a: int)
    requires Tiles(bs, HDR, end) && i < |bs|
    ensures FreeAddr(Mark(bs, i, u), a) <==> if a == bs[i].addr then !u else FreeAddr(bs, a)
  {
    var m := Mark(bs, i, u);
    if a == bs[i].addr {
      if FreeAddr(m, a) {
        var o :| 0 <= o < |m| && m[o].addr == a && !m[o].used;
        AddrsDiffer(bs, HDR, end, o, i);
      } else {
        assert m[i].addr == a;
      }
    } else {
      assert forall o :: 0 <= o < |bs| && bs[o].addr == a ==> m[o] == bs[o];
      assert forall o :: 0 <= o < |m| && m[o].addr == a ==> m[o] == bs[o];
    }
  }

  lemma SplitFree(bs: seq<Block>, end: nat, i: nat, len: nat, a: int)
    requires Tiles(bs, HDR, end) && i < |bs| && 0 < len < bs[i].len
    ensures FreeAddr(Split(bs, i, len), a) <==> a == bs[i].addr + len || FreeAddr(bs, a)
  {
    var s := Split(bs, i, len);
    if FreeAddr(s, a) {
      var o :| 0 <= o < |s| && s[o].addr == a && !s[o].used;
      if o != i + 1 {
        var p := if o <= i then o else o - 1;
        assert bs[p].addr == a && !bs[p].used;
      }
    }
    if a == bs[i].addr + len {
      assert s[i + 1].addr == a && !s[i + 1].used;
    } else if FreeAddr(bs, a) {
      var o :| 0 <= o < |bs| && bs[o].addr == a && !bs[o].used;
      var p := if o <= i then o else o + 1;
      assert s[p].addr == a && !s[p].used;
    }
  }

  lemma MergeFree(bs: seq<Block>, end: nat, i: nat, a: int)
    requires Tiles(bs, HDR, end) && i + 1 < |bs|
    ensures FreeAddr(Merge(bs, i), a) <==> a != bs[i + 1].addr && FreeAddr(bs, a)
  {
    var m := Merge(bs, i);
    if FreeAddr(m, a) {
      var o :| 0 <= o < |m| && m[o].addr == a && !m[o].used;
      var p := if o <= i then o else o + 1;
      AddrsDiffer(bs, HDR, end, p, i + 1);
      assert bs[p].addr == a && !bs[p].used;
    }
    if a != bs[i + 1].addr && FreeAddr(bs, a) {
      var o :| 0 <= o < |bs| && bs[o].addr == a && !bs[o].used;
      var p := if o <= i then o else o - 1;
      assert m[p].addr == a && !m[p].used;
    }
  }

  /** The free list after a split allocation: the remainder replaces the block. */
  lemma TakenMatches(bs: seq<Block>, end: nat, i: nat, want: nat, free: seq<int>)
    requires Tiles(bs, HDR, end) && i < |bs| && 0 < want && want % 4 == 0 && want + HDR + MINIALLOC <= bs[i].len - HDR
    requires Matches(bs, free)
    ensures Matches(Taken(bs, i, want), FreeTaken(bs, free, i, want))
  {
    var len, free' := HDR + want, FreeTaken(bs, free, i, want);
    SplitTiles(bs, HDR, end, i, len);
    forall x: int
      ensures x in free' <==> FreeAddr(Mark(Split(bs, i, len), i, true), x)
    {
      SplitFree(bs, end, i, len, x);
      MarkFree(Split(bs, i, len), end, i, true, x);
    }
  }

  lemma PlugFree(m: seq<Block>, end: nat, i: nat, x: int)
    requires Tiles(m, HDR, end) && i < |m| && !m[i].used
    ensures FreeAddr(Plug(m, i), x) <==>
      && FreeAddr(m, x)
      && !(i + 1 < |m| && !m[i + 1].used && x == m[i + 1].addr)
      && !(i > 0 && !m[i - 1].used && x == m[i].addr)
  {
    var fwd := if i + 1 < |m| && !m[i + 1].used then Merge(m, i) else m;
    if i + 1 < |m| && !m[i + 1].used {
      MergeFree(m, end, i, x);
      MergeTiles(m, HDR, end, i);
    }
    if i > 0 && !m[i - 1].used {
      MergeFree(fwd, end, i - 1, x);
    }
  }

  /** The free list after a release: the block joins it unless its left neighbour absorbs it, and
      a free right neighbour leaves it. */
  lemma FreedMatches(bs: seq<Block>, end: nat, i: nat, free: seq<int>)
    requires Tiles(bs, HDR, end) && i < |bs| && bs[i].used && Matches(bs, free)
    ensures Matches(Freed(bs, i), FreeFreed(bs, free, i))
  {
    var m, free' := Mark(bs, i, false), FreeFreed(bs, free, i);
    MarkTiles(bs, HDR, end, i, false);
    forall x: int
      ensures x in free' <==> FreeAddr(Freed(bs, i), x)
    {
      MarkFree(bs, end, i, false, x);
      PlugFree(m, end, i, x);
      UsedNotFree(bs, end, i);
      if i + 1 < |bs| && bs[i + 1].used { UsedNotFree(bs, end, i + 1); }
      if i + 1 < |bs| { AddrsDiffer(bs, HDR, end, i, i + 1); }
    }
  }

  /** Merging left first and then right ends in the same tiling as plugging. */
  lemma MergesCommute(m: seq<Block>, i: nat)
    requires 0 < i < |m| - 1
    ensures Merge(Merge(m, i - 1), i - 1) == Merge(Merge(m, i), i - 1)
  {
  }

  lemma UsedNotFree(bs: seq<Block>, end: nat, i: nat)
    requires Tiles(bs, HDR, end) && i < |bs| && bs[i].used
    ensures !FreeAddr(bs, bs[i].addr)
  {
    OnlyOneAt(bs, end, i);
  }

  /** The free list after a cut: the remainder joins it and a free right neighbour leaves it. */
  lemma CutBackMatches(bs: seq<Block>, end: nat, i: nat, len: nat, free: seq<int>)
    requires Tiles(bs, HDR, end) && i < |bs| && bs[i].used && Matches(bs, free)
    requires HDR < len && len % 4 == 0 && len + HDR < bs[i].len
    ensures Matches(CutBack(bs, i, len), FreeCut(bs, free, i, len))
  {
    var s, free' := Split(bs, i, len), FreeCut(bs, free, i, len);
    SplitTiles(bs, HDR, end, i, len);
    if i + 1 < |bs| { assert s[i + 2] == bs[i + 1]; }
    assert TileAt(bs, HDR, end, i);
    forall x: int
      ensures x in free' <==> FreeAddr(CutBack(bs, i, len), x)
    {
      SplitFree(bs, end, i, len, x);
      PlugFree(s, end, i + 1, x);
      if i + 1 < |bs| && bs[i + 1].used { UsedNotFree(bs, end, i + 1); }
    }
  }

  // ---------------------------------------------------------------- what the operations do to the tiling

  /** The tiling after `want` bytes are taken from free block `i`. */
  function Taken(bs: seq<Block>, i: nat, want: nat): seq<Block>
    requires i < |bs|
  {
    if bs[i].len - HDR >= want + HDR + MINIALLOC
    then Mark(Split(bs, i, HDR + want), i, true)
    else Mark(bs, i, true)
  }

  /** The tiling after used block `i` grows into the free block behind it. */
  function Grown(bs: seq<Block>, i: nat, size: nat): seq<Block>
    requires i + 1 < |bs| && HDR + size <= bs[i].len + bs[i + 1].len
  {
    Split(Merge(bs, i), i, HDR + size)
  }

  /** Growing in place moves the boundary between a used block and the free one behind it. */
  lemma GrownTiles(bs: seq<Block>, i: nat, size: nat, end: nat)
    requires Tiles(bs, HDR, end) && i + 1 < |bs|
    requires bs[i].len - HDR < size && size % 4 == 0 && HDR + size + HDR < bs[i].len + bs[i + 1].len
    ensures Tiles(Merge(bs, i), HDR, end) && Tiles(Grown(bs, i, size), HDR, end)
  {
    MergeTiles(bs, HDR, end, i);
    assert TileAt(bs, HDR, end, i);
    SplitTiles(Merge(bs, i), HDR, end, i, HDR + size);
  }

  lemma GrownTotals(bs: seq<Block>, i: nat, size: nat)
    requires i + 1 < |bs| && bs[i].used && !bs[i + 1].used && HDR + size <= bs[i].len + bs[i + 1].len
    ensures FreeBytes(Grown(bs, i, size), HDR) == FreeBytes(bs, HDR) - (size - (bs[i].len - HDR))
  {
    MergeUsedTotals(bs, i, HDR);
    SplitTotals(Merge(bs, i), i, HDR + size, HDR);
  }

  lemma GrownApart(bs: seq<Block>, i: nat, size: nat)
    requires Coalesced(bs) && i + 1 < |bs| && bs[i].used && !bs[i + 1].used && HDR + size <= bs[i].len + bs[i + 1].len
    ensures Coalesced(Grown(bs, i, size))
  {
    var g := Grown(bs, i, size);
    forall k | 0 <= k < |g| - 1
      ensures Apart(g, k)
    {
      assert Apart(bs, k);
      assert g[k].used == bs[k].used && g[k + 1].used == bs[k + 1].used;
    }
  }

  /** The free list after growing in place: the moved free header replaces the old one. */
  lemma GrownMatches(bs: seq<Block>, end: nat, i: nat, size: nat, free: seq<int>)
    requires Tiles(bs, HDR, end) && i + 1 < |bs| && Tiles(Merge(bs, i), HDR, end) && Matches(bs, free)
    requires HDR + size + HDR < bs[i].len + bs[i + 1].len
    ensures Matches(Grown(bs, i, size), FreeGrown(bs, free, i, size))
  {
    var free' := FreeGrown(bs, free, i, size);
    forall x: int
      ensures x in free' <==> FreeAddr(Grown(bs, i, size), x)
    {
      MergeFree(bs, end, i, x);
      SplitFree(Merge(bs, i), end, i, HDR + size, x);
    }
  }

  /** The test for growing in place, with its 32-bit addition. */
  predicate GrowFits(nextsize: int, oldsize: int, newsize: int) {
    nextsize + oldsize > (newsize + MINIALLOC) % U32
  }

  /** The wrap of that addition decides: for the sizes that occur, the test means what it says exactly
      when the addition does not wrap. */
  lemma GrowFitsExactly(nextsize: nat, oldsize: nat, newsize: nat)
    requires MINIALLOC <= oldsize && nextsize + oldsize < U32 && newsize < U32 && newsize % 4 == 0
    ensures (GrowFits(nextsize, oldsize, newsize) <==> nextsize + oldsize > newsize + MINIALLOC) <==> newsize + MINIALLOC < U32
  {
  }

  /** The test lets a wrapped size through: the new header would lie inside the header of the block itself. */
  predicate Overwrites(bs: seq<Block>, i: nat, want: nat)
    requires i < |bs|
  {
    && bs[i].len - HDR < want && want + MINIALLOC >= U32
    && i + 1 < |bs| && !bs[i + 1].used
    && GrowFits(bs[i + 1].len - HDR, bs[i].len - HDR, want)
  }

  /** The largest size that rounding leaves alone, for a block of twelve bytes in front of a free one. */
  lemma GrowWraps()
    ensures var bs := [Block(0, 36, true), Block(36, 100, false)];
      Want(0xFFFF_FFFC) == 0xFFFF_FFFC && GrowFits(76, 12, 0xFFFF_FFFC) && Overwrites(bs, 0, 0xFFFF_FFFC)
  {
  }

  /** The bytes reserved for a request hold it exactly when rounding the size up does not wrap; then they are
      the least multiple of four that does, but at least RT_MEMHEAP_MINIALLOC. */
  lemma WantHoldsExactly(size: nat)
    requires size < U32
    ensures size <= Want(size) <==> size <= U32 - 4
    ensures Want(size) >= MINIALLOC && Want(size) % 4 == 0 && (Want(size) == MINIALLOC || Want(size) < size + 4)
  {
  }

  /** `i` is the live block whose payload starts at `p`. */
  ghost predicate LiveAt(bs: seq<Block>, p: Ptr, i: nat) {
    p.At? && i < |bs| && bs[i].used && p.off == bs[i].addr + HDR
  }

  /** The block at `a` is free and has `want` bytes of payload. */
  ghost predicate Roomy(bs: seq<Block>, a: int, want: nat) {
    exists i :: 0 <= i < |bs| && bs[i].addr == a && !bs[i].used && bs[i].len - HDR >= want
  }

  ghost predicate NoFit(bs: seq<Block>, want: nat) {
    forall i :: 0 <= i < |bs| && !bs[i].used ==> bs[i].len - HDR < want
  }

  /** Block `i`, the `j`-th of the free list, is the first one on that list with room. */
  ghost predicate StackFit(bs: seq<Block>, free: seq<int>, want: nat, i: nat, j: nat) {
    && i < |bs| && j < |free|
    && bs[i].addr == free[j] && !bs[i].used && bs[i].len - HDR >= want
    && forall k :: 0 <= k < j ==> !Roomy(bs, free[k], want)
  }

  lemma OnlyOneAt(bs: seq<Block>, end: nat, i: nat)
    requires Tiles(bs, HDR, end) && i < |bs|
    ensures forall o :: 0 <= o < |bs| && bs[o].addr == bs[i].addr ==> o == i
  {
    forall o | 0 <= o < |bs| && bs[o].addr == bs[i].addr
      ensures o == i
    {
      AddrsDiffer(bs, HDR, end, o, i);
    }
  }

  /** The free list with the node `a` taken out. */
  function Minus(free: seq<int>, a: int): (r: seq<int>)
    ensures forall x :: x in r <==> x in free && x != a
  {
    if free == [] then [] else if free[0] == a then Minus(free[1..], a) else [free[0]] + Minus(free[1..], a)
  }

  lemma DroppedRing(free: seq<int>, j: nat)
    requires j < |free|
    ensures FreeRing(Dropped(free, j)) == Dropped(FreeRing(free), j + 1)
  {
    var c := FreeRing(free);
    assert c[..j + 1] == [FREE] + free[..j] && c[j + 2..] == free[j + 1..];
  }

  lemma {:induction false} MinusAbsent(free: seq<int>, a: int)
    requires a !in free
    ensures Minus(free, a) == free
  {
    if free != [] {
      assert free[0] in free;
      MinusAbsent(free[1..], a);
    }
  }

  /** Unlinking the j-th node of a list without duplicates. */
  lemma {:induction false} DroppedIsMinus(free: seq<int>, j: nat)
    requires Distinct(free) && j < |free|
    ensures Dropped(free, j) == Minus(free, free[j])
  {
    if j == 0 {
      assert free[0] !in free[1..];
      MinusAbsent(free[1..], free[0]);
      assert Dropped(free, 0) == free[1..];
    } else {
      DroppedIsMinus(free[1..], j - 1);
      assert free[0] != free[j];
      assert Dropped(free, j) == [free[0]] + Dropped(free[1..], j - 1);
    }
  }

  // ---- the free list after each operation, most recently pushed first

  function FreeTaken(bs: seq<Block>, free: seq<int>, i: nat, want: nat): seq<int>
    requires i < |bs|
  {
    if bs[i].len - HDR >= want + HDR + MINIALLOC
    then [bs[i].addr + HDR + want] + Minus(free, bs[i].addr)
    else Minus(free, bs[i].addr)
  }

  /** A free right neighbour of block `i` leaves the list. */
  function RightLeaves(bs: seq<Block>, free: seq<int>, i: nat): seq<int>
    requires i < |bs|
  {
    if i + 1 < |bs| && !bs[i + 1].used then Minus(free, bs[i + 1].addr) else free
  }

  function FreeFreed(bs: seq<Block>, free: seq<int>, i: nat): seq<int>
    requires i < |bs|
  {
    if i > 0 && !bs[i - 1].used then RightLeaves(bs, free, i) else [bs[i].addr] + RightLeaves(bs, free, i)
  }

  function FreeCut(bs: seq<Block>, free: seq<int>, i: nat, len: nat): seq<int>
    requires i < |bs|
  {
    [bs[i].addr + len] + RightLeaves(bs, free, i)
  }

  function FreeGrown(bs: seq<Block>, free: seq<int>, i: nat, size: nat): seq<int>
    requires i + 1 < |bs|
  {
    [bs[i].addr + HDR + size] + Minus(free, bs[i + 1].addr)
  }

  // ---------------------------------------------------------------- what each call returns

  /** Null exactly when the request reaches the available total or no free block has room;
      otherwise the first block on the free stack that has room. */
  ghost predicate Allocated(bs: seq<Block>, free: seq<int>, avail: int, want: nat, r: Ptr, bs': seq<Block>, free': seq<int>) {
    && (r == Null <==> want >= avail || NoFit(bs, want))
    && (r == Null ==> bs' == bs && free' == free)
    && (r != Null ==> exists m: nat, j: nat :: (StackFit(bs, free, want, m, j)
                        && r == At(bs[m].addr + HDR) && bs' == Taken(bs, m, want) && free' == FreeTaken(bs, free, m, want)))
  }

  /** Where block `i` stands after `want` bytes were taken from another block `m`. */
  function MovedIndex(bs: seq<Block>, m: nat, want: nat, i: nat): nat
    requires m < |bs|
  {
    if i <= m then i else i + |Taken(bs, m, want)| - |bs|
  }

  /** Block `i` is moved into block `m`. */
  ghost predicate MovedTo(bs: seq<Block>, free: seq<int>, i: nat, want: nat, m: nat, bs': seq<Block>, free': seq<int>)
    requires m < |bs|
  {
    var t, i' := Taken(bs, m, want), MovedIndex(bs, m, want, i);
    i' < |t| && bs' == Freed(t, i') && free' == FreeFreed(t, FreeTaken(bs, free, m, want), i')
  }

  /** The tiling and the free list after a reallocation that had to move block `i`. */
  ghost predicate Moved(bs: seq<Block>, free: seq<int>, avail: int, i: nat, want: nat, r: Ptr, bs': seq<Block>, free': seq<int>) {
    && (r == Null <==> want >= avail || NoFit(bs, want))
    && (r == Null ==> bs' == bs && free' == free)
    && (r != Null ==> exists m: nat, j: nat :: (StackFit(bs, free, want, m, j) && r == At(bs[m].addr + HDR)
                        && MovedTo(bs, free, i, want, m, bs', free')))
  }

  /** A live block `i` that must get larger: grown in place if the free block behind it has room, else moved. */
  ghost predicate Extended(bs: seq<Block>, free: seq<int>, avail: int, i: nat, want: nat, ptr: Ptr, r: Ptr, bs': seq<Block>, free': seq<int>)
    requires i < |bs|
  {
    if i + 1 < |bs| && !bs[i + 1].used && want + MINIALLOC + HDR < bs[i].len - HDR + bs[i + 1].len
    then r == ptr && bs' == Grown(bs, i, want) && free' == FreeGrown(bs, free, i, want)
    else Moved(bs, free, avail, i, want, r, bs', free')
  }

  /** The paths of rt_memheap_realloc on live block `i`: extended, cut, or left alone. */
  ghost predicate Reallocated(bs: seq<Block>, free: seq<int>, avail: int, i: nat, want: nat, ptr: Ptr, r: Ptr, bs': seq<Block>, free': seq<int>)
    requires i < |bs|
  {
    if want + HDR > bs[i].len then Extended(bs, free, avail, i, want, ptr, r, bs', free')
    else if want + 2 * HDR + MINIALLOC < bs[i].len then r == ptr && bs' == CutBack(bs, i, HDR + want) && free' == FreeCut(bs, free, i, HDR + want)
    else r == ptr && bs' == bs && free' == free
  }

  lemma MovedBy(bs: seq<Block>, free: seq<int>, avail: int, i: nat, want: nat, r: Ptr, bs': seq<Block>, free': seq<int>, m: nat, j: nat)
    requires StackFit(bs, free, want, m, j) && r == At(bs[m].addr + HDR) && want < avail
    requires MovedTo(bs, free, i, want, m, bs', free')
    ensures Moved(bs, free, avail, i, want, r, bs', free')
  {
  }

  /** The first min(old, new) bytes survive at the result, and every other live payload is untouched. */
  ghost predicate ContentsKept(bs: seq<Block>, i: nat, n: nat, p: Ptr, r: Ptr, d: seq<bv8>, d': seq<bv8>)
    requires i < |bs| && bs[i].len >= HDR && p.At?
  {
    if r == Null then Kept(HDR, bs, d, d')
    else SameBytes(d, p.off, d', r.off, if n < bs[i].len - HDR then n else bs[i].len - HDR) && Kept(HDR, Mark(bs, i, false), d, d')
  }

  /** A payload that stays where it is, perhaps cut back to `n` bytes. */
  lemma StaysContents(bs: seq<Block>, end: nat, i: nat, n: nat, p: Ptr, d: seq<bv8>, d': seq<bv8>)
    requires Tiles(bs, HDR, end) && end <= |d| && LiveAt(bs, p, i)
    requires n + HDR <= bs[i].len ==> Kept(HDR, Split(bs, i, HDR + n), d, d')
    requires n + HDR > bs[i].len ==> Kept(HDR, bs, d, d')
    ensures bs[i].len >= HDR && ContentsKept(bs, i, n, p, p, d, d')
  {
    InArena(bs, end, i);
    assert TileAt(bs, HDR, end, i);
    var len := if n < bs[i].len - HDR then n else bs[i].len - HDR;
    if n + HDR <= bs[i].len {
      var s := Split(bs, i, HDR + n);
      assert s[i] == Block(bs[i].addr, HDR + n, true);
      forall o, k | 0 <= o < |bs| && o != i && bs[o].used && bs[o].addr + HDR <= k < bs[o].addr + bs[o].len && k < |d|
        ensures d'[k] == d[k]
      {
        assert s[if o < i then o else o + 1] == bs[o];
      }
    }
    assert d'[p.off..p.off + len] == d[p.off..p.off + len];
  }

  /** The bytes of a moved allocation arrive, and no other live payload is disturbed. */
  lemma MoveKeeps(bs: seq<Block>, end: nat, m: nat, want: nat, i: nat, n: nat,
                  d0: seq<bv8>, d1: seq<bv8>, d2: seq<bv8>, d3: seq<bv8>)
    requires m < |bs| && i < |bs| && !bs[m].used && bs[i].used && want <= bs[m].len - HDR
    requires var t := Taken(bs, m, want);
      && Tiles(t, HDR, end) && end <= |d0|
      && n <= bs[i].len - HDR && n <= t[m].len - HDR
      && Kept(HDR, bs, d0, d1)
      && MovedIndex(bs, m, want, i) < |t|
      && Kept(HDR, Mark(t, MovedIndex(bs, m, want, i), false), d2, d3)
    requires var dst, src := bs[m].addr + HDR, bs[i].addr + HDR;
      && dst + n <= |d1| && src + n <= |d1|
      && d2 == d1[..dst] + d1[src..src + n] + d1[dst + n..]
    ensures SameBytes(d0, bs[i].addr + HDR, d3, bs[m].addr + HDR, n)
    ensures Kept(HDR, Mark(bs, i, false), d0, d3)
  {
    var t, i' := Taken(bs, m, want), MovedIndex(bs, m, want, i);
    var mt := Mark(t, i', false);
    TakenSameBlock(bs, m, want, i);
    var dst, src := bs[m].addr + HDR, bs[i].addr + HDR;
    assert mt[m] == t[m] && t[m].used && t[m].addr == bs[m].addr;
    assert d2[dst..dst + n] == d1[src..src + n];
    KeptSlice(HDR, mt, d2, d3, m, dst, n);
    KeptSlice(HDR, bs, d0, d1, i, src, n);
    forall o, k | 0 <= o < |bs| && o != i && bs[o].used && bs[o].addr + HDR <= k < bs[o].addr + bs[o].len && k < |d0|
      ensures d3[k] == d0[k]
    {
      OtherStays(bs, end, m, want, i, n, d1, d2, d3, o, k);
    }
  }

  /** A payload byte of another block is neither copied over nor released. */
  lemma OtherStays(bs: seq<Block>, end: nat, m: nat, want: nat, i: nat, n: nat,
                   d1: seq<bv8>, d2: seq<bv8>, d3: seq<bv8>, o: nat, k: nat)
    requires m < |bs| && i < |bs| && !bs[m].used && bs[i].used && o < |bs| && o != i && bs[o].used && want <= bs[m].len - HDR
    requires bs[o].addr + HDR <= k < bs[o].addr + bs[o].len && k < |d1|
    requires var t := Taken(bs, m, want);
      && Tiles(t, HDR, end) && n <= t[m].len - HDR && MovedIndex(bs, m, want, i) < |t|
      && Kept(HDR, Mark(t, MovedIndex(bs, m, want, i), false), d2, d3)
    requires var dst, src := bs[m].addr + HDR, bs[i].addr + HDR;
      && dst + n <= |d1| && src + n <= |d1| && d2 == d1[..dst] + d1[src..src + n] + d1[dst + n..]
    ensures d3[k] == d1[k]
  {
    var t, o' := Taken(bs, m, want), MovedIndex(bs, m, want, o);
    TakenSameBlock(bs, m, want, i);
    TakenSameBlock(bs, m, want, o);
    assert Mark(t, MovedIndex(bs, m, want, i), false)[o'] == bs[o];
    if o' < m { TilesOrdered(t, HDR, end, o', m); } else { TilesOrdered(t, HDR, end, m, o'); }
    assert d2[k] == d1[k];
  }

  lemma MovedContents(bs: seq<Block>, i: nat, n: nat, p: Ptr, r: Ptr, d: seq<bv8>, d': seq<bv8>)
    requires i < |bs| && bs[i].len >= HDR && p.At? && r.At?
    requires SameBytes(d, p.off, d', r.off, if bs[i].len - HDR < n then bs[i].len - HDR else n) && Kept(HDR, Mark(bs, i, false), d, d')
    ensures ContentsKept(bs, i, n, p, r, d, d')
  {
  }

  lemma TakenSameBlock(bs: seq<Block>, m: nat, want: nat, i: nat)
    requires m < |bs| && i < |bs| && i != m && want <= bs[m].len - HDR
    ensures MovedIndex(bs, m, want, i) < |Taken(bs, m, want)|
    ensures Taken(bs, m, want)[MovedIndex(bs, m, want, i)] == bs[i]
    ensures Taken(bs, m, want)[m].addr == bs[m].addr && want <= Taken(bs, m, want)[m].len - HDR
  {
  }

  lemma InArena(bs: seq<Block>, end: nat, i: nat)
    requires Tiles(bs, HDR, end) && i < |bs|
    ensures bs[i].addr + bs[i].len <= end
  {
    assert TileAt(bs, HDR, end, i);
    if i < |bs| - 1 { TilesOrdered(bs, HDR, end, i, |bs| - 1); }
  }

  /** The same, for the blocks that two pointers name. */
  lemma MoveArrives(bs: seq<Block>, t: seq<Block>, end: nat, m: nat, want: nat, i: nat, n: nat, ptr: Ptr, dst: Ptr,
                    d0: seq<bv8>, d1: seq<bv8>, d2: seq<bv8>, d3: seq<bv8>)
    requires m < |bs| && !bs[m].used && want <= bs[m].len - HDR && LiveAt(bs, ptr, i) && dst == At(bs[m].addr + HDR)
    requires t == Taken(bs, m, want) && Tiles(t, HDR, end) && end <= |d0|
    requires n <= want && n <= bs[i].len - HDR && MovedIndex(bs, m, want, i) < |t|
    requires Kept(HDR, bs, d0, d1) && Kept(HDR, Mark(t, MovedIndex(bs, m, want, i), false), d2, d3)
    requires ptr.off + n <= |d1| && dst.off + n <= |d1|
    requires d2 == d1[..dst.off] + d1[ptr.off..ptr.off + n] + d1[dst.off + n..]
    ensures SameBytes(d0, ptr.off, d3, dst.off, n) && Kept(HDR, Mark(bs, i, false), d0, d3)
  {
    TakenSameBlock(bs, m, want, i);
    MoveKeeps(bs, end, m, want, i, n, d0, d1, d2, d3);
  }

  /** A rounded request is its own rounding. */
  lemma WantStays(size: nat)
    requires size < U32
    ensures Want(Want(size)) == Want(size) && Want(size) % 4 == 0 && Want(size) < U32
  {
  }

  /** Freeing a block right after it was allocated gives back the identical tiling. */
  lemma FreeUndoesAlloc(bs: seq<Block>, i: nat, want: nat)
    requires i < |bs| && !bs[i].used && Coalesced(bs) && bs[i].len - HDR >= want
    ensures Freed(Taken(bs, i, want), i) == bs
  {
    if bs[i].len - HDR >= want + HDR + MINIALLOC {
      SplitThenPlug(bs, i, HDR + want);
    } else {
      MarkThenPlug(bs, i);
    }
  }

  // ---------------------------------------------------------------- exactly what each call does

  /** Taking `want` bytes from free block `i`: it is cut exactly when what is left has room for a header and
      RT_MEMHEAP_MINIALLOC bytes; then the rest is the free block right behind it. */
  lemma TakenExactly(bs: seq<Block>, end: nat, i: nat, want: nat)
    requires Tiles(bs, HDR, end) && i < |bs| && !bs[i].used && want <= bs[i].len - HDR
    ensures var t, rest := Taken(bs, i, want), bs[i].len - HDR - want;
      && i < |t|
      && (if rest < HDR + MINIALLOC then |t| == |bs| && t[i] == Block(bs[i].addr, bs[i].len, true)
          else i + 1 < |t| && t[i] == Block(bs[i].addr, HDR + want, true) && t[i + 1] == Block(bs[i].addr + HDR + want, rest, false))
      && forall b: Block :: InUse(t, b) <==> b == t[i] || InUse(bs, b)
  {
    var t := Taken(bs, i, want);
    forall b: Block
      ensures InUse(t, b) <==> b == t[i] || InUse(bs, b)
    {
      if bs[i].len - HDR >= want + HDR + MINIALLOC {
        var s := Split(bs, i, HDR + want);
        assert s[..i] == bs[..i] && t == s[..i] + [t[i]] + s[i + 1..] && s[i + 1..] == [s[i + 1]] + bs[i + 1..];
        Others(bs, HDR, end, i, b);
      } else {
        MarkUsed(bs, HDR, end, i, true, b);
      }
    }
  }

  /** The list without its j-th node, in the same order. */
  lemma MinusIs(free: seq<int>, a: int) returns (j: nat)
    requires Distinct(free) && a in free
    ensures j < |free| && free[j] == a && Minus(free, a) == free[..j] + free[j + 1..]
  {
    j :| j < |free| && free[j] == a;
    DroppedIsMinus(free, j);
  }

  /** rt_memheap_alloc: the first block `m` of the free stack that has room, its j-th, is used; it leaves the
      stack, and what is cut off it goes on top. */
  lemma AllocExactly(bs: seq<Block>, end: nat, free: seq<int>, avail: int, want: nat, r: Ptr, bs': seq<Block>, free': seq<int>)
    returns (m: nat, j: nat)
    requires Tiles(bs, HDR, end) && Distinct(free) && Allocated(bs, free, avail, want, r, bs', free') && r != Null
    ensures StackFit(bs, free, want, m, j) && m < |bs'| && r == At(bs'[m].addr + HDR)
    ensures forall b: Block :: InUse(bs', b) <==> b == bs'[m] || InUse(bs, b)
    ensures bs'[m].addr == bs[m].addr && bs'[m].used
    ensures if bs[m].len - HDR - want < HDR + MINIALLOC
            then bs'[m].len == bs[m].len && free' == free[..j] + free[j + 1..]
            else bs'[m].len == HDR + want && m + 1 < |bs'| && !bs'[m + 1].used
                 && bs'[m + 1].addr == bs[m].addr + HDR + want && bs'[m + 1].len == bs[m].len - HDR - want
                 && free' == [bs'[m + 1].addr as int] + (free[..j] + free[j + 1..])
  {
    m, j :| StackFit(bs, free, want, m, j) && r == At(bs[m].addr + HDR) && bs' == Taken(bs, m, want) && free' == FreeTaken(bs, free, m, want);
    TakenExactly(bs, end, m, want);
    FreeTakenIs(bs, free, m, want, j);
  }

  lemma FreeTakenIs(bs: seq<Block>, free: seq<int>, m: nat, want: nat, j: nat)
    requires Distinct(free) && m < |bs| && j < |free| && free[j] == bs[m].addr
    ensures FreeTaken(bs, free, m, want) == (if bs[m].len - HDR - want < HDR + MINIALLOC then [] else [bs[m].addr + HDR + want]) + (free[..j] + free[j + 1..])
  {
    DroppedIsMinus(free, j);
  }

  /** The free stack after a release: a free right neighbour leaves it, and the block goes on top unless its
      left neighbour absorbed it. */
  lemma FreedListExactly(bs: seq<Block>, free: seq<int>, i: nat)
    requires Distinct(free) && Matches(bs, free) && i < |bs| && bs[i].used
    ensures var rest := if i > 0 && !bs[i - 1].used then FreeFreed(bs, free, i) else FreeFreed(bs, free, i)[1..];
      && (i == 0 || bs[i - 1].used ==> FreeFreed(bs, free, i) != [] && FreeFreed(bs, free, i)[0] == bs[i].addr)
      && (i + 1 == |bs| || bs[i + 1].used ==> rest == free)
      && (i + 1 < |bs| && !bs[i + 1].used ==> exists j: nat :: (j < |free| && free[j] == bs[i + 1].addr && rest == free[..j] + free[j + 1..]))
  {
    if i + 1 < |bs| && !bs[i + 1].used {
      assert FreeAddr(bs, bs[i + 1].addr);
      var j := MinusIs(free, bs[i + 1].addr);
    }
  }

  /** Last in, first out: a block released beside a used left neighbour serves the next request that it has
      room for. */
  lemma ReleasedServesNext(bs: seq<Block>, end: nat, free: seq<int>, i: nat, want: nat) returns (k: nat)
    requires Tiles(bs, HDR, end) && Coalesced(bs) && Distinct(free) && Matches(bs, free) && i < |bs| && bs[i].used
    requires (i == 0 || bs[i - 1].used) && want <= bs[i].len - HDR
    ensures k < |Freed(bs, i)| && Freed(bs, i)[k].addr == bs[i].addr
    ensures StackFit(Freed(bs, i), FreeFreed(bs, free, i), want, k, 0)
  {
    k := i;
    FreedListExactly(bs, free, i);
  }

  /** Growing in place makes exactly that block longer. */
  lemma GrownUsed(bs: seq<Block>, end: nat, i: nat, size: nat, b: Block)
    requires Tiles(bs, HDR, end) && i + 1 < |bs| && bs[i].used && !bs[i + 1].used && HDR + size <= bs[i].len + bs[i + 1].len
    ensures InUse(Grown(bs, i, size), b) <==> b == Block(bs[i].addr, HDR + size, true) || (InUse(bs, b) && b != bs[i])
  {
    var g := Merge(bs, i);
    MergeTiles(bs, HDR, end, i);
    MergeUsed(bs, HDR, end, i, b);
    SplitUsed(g, HDR, end, i, HDR + size, b);
    Others(bs, HDR, end, i, b);
    Others(g, HDR, end, i, b);
    assert g[..i] == bs[..i] && bs[i + 1..] == [bs[i + 1]] + g[i + 1..];
  }

  /** rt_memheap_realloc on live block `i`: it stays where it is exactly when it need not grow, or the free block
      behind it leaves more than RT_MEMHEAP_MINIALLOC bytes; its length changes when it grows, or when what is
      cut off has room for more than a header and RT_MEMHEAP_MINIALLOC bytes.  It fails exactly when it would have to
      move and no allocation is possible, and then nothing changes. */
  lemma ReallocStaysExactly(bs: seq<Block>, end: nat, free: seq<int>, avail: int, i: nat, want: nat, ptr: Ptr, r: Ptr, bs': seq<Block>, free': seq<int>)
    requires Tiles(bs, HDR, end) && LiveAt(bs, ptr, i) && 0 < want && want % 4 == 0
    requires Reallocated(bs, free, avail, i, want, ptr, r, bs', free')
    ensures r == ptr <==> want <= bs[i].len - HDR || (i + 1 < |bs| && !bs[i + 1].used && want + MINIALLOC < bs[i].len - HDR + (bs[i + 1].len - HDR))
    ensures r == ptr ==>
      var len := if want > bs[i].len - HDR || want + HDR + MINIALLOC < bs[i].len - HDR then HDR + want else bs[i].len;
      forall b: Block :: InUse(bs', b) <==> b == Block(bs[i].addr, len, true) || (InUse(bs, b) && b != bs[i])
    ensures r == Null <==> r != ptr && (want >= avail || NoFit(bs, want))
    ensures r == Null ==> bs' == bs && free' == free
  {
    assert TileAt(bs, HDR, end, i);
    var len := if want > bs[i].len - HDR || want + HDR + MINIALLOC < bs[i].len - HDR then HDR + want else bs[i].len;
    if want > bs[i].len - HDR {
      if i + 1 < |bs| && !bs[i + 1].used && want + MINIALLOC + HDR < bs[i].len - HDR + bs[i + 1].len {
        forall b: Block
          ensures InUse(bs', b) <==> b == Block(bs[i].addr, len, true) || (InUse(bs, b) && b != bs[i])
        {
          GrownUsed(bs, end, i, want, b);
        }
      } else if r != Null {
        var m: nat, j: nat :| StackFit(bs, free, want, m, j) && r == At(bs[m].addr + HDR);
        AddrsDiffer(bs, HDR, end, m, i);
      }
    } else if want + HDR + MINIALLOC < bs[i].len - HDR {
      forall b: Block
        ensures InUse(bs', b) <==> b == Block(bs[i].addr, len, true) || (InUse(bs, b) && b != bs[i])
      {
        CutBackUsed(bs, HDR, end, i, HDR + want, b);
      }
    } else {
      assert bs[i] == Block(bs[i].addr, len, true);
    }
  }

  /** Otherwise it moves to the first block `m` on the free stack with room, now block `c`, and the old block
      is released. */
  lemma ReallocMovesExactly(bs: seq<Block>, end: nat, free: seq<int>, avail: int, i: nat, want: nat, ptr: Ptr, r: Ptr, bs': seq<Block>, free': seq<int>)
    returns (m: nat, j: nat, c: Block)
    requires Tiles(bs, HDR, end) && Coalesced(bs) && LiveAt(bs, ptr, i) && MINIALLOC <= want && want % 4 == 0
    requires Reallocated(bs, free, avail, i, want, ptr, r, bs', free') && r != ptr && r != Null
    ensures StackFit(bs, free, want, m, j) && r == At(c.addr + HDR) && c.addr == bs[m].addr && c.used
    ensures want <= c.len - HDR < want + HDR + MINIALLOC
    ensures forall b: Block :: InUse(bs', b) <==> b == c || (InUse(bs, b) && b != bs[i])
  {
    m, j :| StackFit(bs, free, want, m, j) && r == At(bs[m].addr + HDR) && MovedTo(bs, free, i, want, m, bs', free');
    c := TakenBlock(bs, end, m, want);
    forall b: Block
      ensures InUse(bs', b) <==> b == c || (InUse(bs, b) && b != bs[i])
    {
      MovedUsed(bs, end, i, m, want, b);
    }
  }

  lemma TakenBlock(bs: seq<Block>, end: nat, m: nat, want: nat) returns (c: Block)
    requires Tiles(bs, HDR, end) && m < |bs| && !bs[m].used && want <= bs[m].len - HDR
    ensures m < |Taken(bs, m, want)| && c == Taken(bs, m, want)[m]
    ensures c.used && c.addr == bs[m].addr && want <= c.len - HDR < want + HDR + MINIALLOC
  {
    TakenExactly(bs, end, m, want);
    c := Taken(bs, m, want)[m];
  }

  lemma MovedUsed(bs: seq<Block>, end: nat, i: nat, m: nat, want: nat, b: Block)
    requires Tiles(bs, HDR, end) && Coalesced(bs) && i < |bs| && bs[i].used && m < |bs| && !bs[m].used
    requires MINIALLOC <= want <= bs[m].len - HDR && want % 4 == 0
    ensures var t, i' := Taken(bs, m, want), MovedIndex(bs, m, want, i);
      i' < |t| && m < |t| && (InUse(Freed(t, i'), b) <==> b == t[m] || (InUse(bs, b) && b != bs[i]))
  {
    var t, i' := Taken(bs, m, want), MovedIndex(bs, m, want, i);
    TakenSameBlock(bs, m, want, i);
    TakenTiles(bs, end, m, want);
    TakenExactly(bs, end, m, want);
    FreedUsed(t, HDR, end, i', b);
    AddrsDiffer(t, HDR, end, m, i');
  }

  lemma TakenTiles(bs: seq<Block>, end: nat, i: nat, want: nat)
    requires Tiles(bs, HDR, end) && Coalesced(bs) && i < |bs| && !bs[i].used && MINIALLOC <= want <= bs[i].len - HDR && want % 4 == 0
    ensures Tiles(Taken(bs, i, want), HDR, end) && Coalesced(Taken(bs, i, want))
  {
    if bs[i].len - HDR >= want + HDR + MINIALLOC {
      TakenSplit(bs, i, HDR + want, HDR, end);
    } else {
      TakenWhole(bs, i, HDR, end);
    }
  }

  /** What a shrink keeps, apart from the links. */
  lemma CutBackKeeps(bs: seq<Block>, end: nat, i: nat, len: nat, free: seq<int>)
    requires Tiles(bs, HDR, end) && Coalesced(bs) && i < |bs| && bs[i].used && Matches(bs, free)
    requires HDR < len && len % 4 == 0 && len + HDR < bs[i].len
    ensures Coalesced(CutBack(bs, i, len)) && Matches(CutBack(bs, i, len), FreeCut(bs, free, i, len))
    ensures FreeBytes(CutBack(bs, i, len), HDR) == FreeBytes(bs, HDR) + (bs[i].len - len - HDR)
              + (if i + 1 < |bs| && !bs[i + 1].used then HDR else 0)
  {
    CutBackKeepsTiling(bs, i, len, HDR, end);
    CutBackMatches(bs, end, i, len, free);
  }

  // ---------------------------------------------------------------- the heap

  /** The largest amount ever in use. */
  function Peak(inUse: int, was: int): (r: int)
    ensures r >= inUse && r >= was && (r == inUse || r == was)
  {
    if inUse > was then inUse else was
  }

  /** Bytes of a 32-bit word, little-endian. */
  function WordBytes(w: nat): (r: seq<bv8>)
    ensures |r| == 4
  {
    [(w % 0x100) as bv8, (w / 0x100 % 0x100) as bv8, (w / 0x1_0000 % 0x100) as bv8, (w / 0x100_0000 % 0x100) as bv8]
  }

  class Heap {
    const poolSize: nat
    const base: nat                   // start_addr
    const self: nat                   // the heap object, and its free-list header
    const freeHeader: nat
    var next: map<int, int>
    var prev: map<int, int>
    var used: map<int, bool>          // the used bit of magic
    var nextFree: map<int, int>
    var prevFree: map<int, int>
    var avail: int                    // available_size
    var maxUsed: int                  // max_used_size
    var data: seq<bv8>                // the bytes of the pool, headers included
    ghost var blocks: seq<Block>
    ghost var free: seq<int>

    ghost function End(): nat { if poolSize >= HDR then poolSize - HDR else 0 }

    /** The address-ordered ring is the ring of the tiling `bs`. */
    ghost predicate Describes(bs: seq<Block>)
      reads this`next, this`prev
    {
      Tiles(bs, HDR, End()) && IsRing(next, prev, BlockRing(bs, End()))
    }

    /** The address-ordered ring is the ring of a tiling and the flags agree with it. */
    ghost predicate Core()
      reads this
    {
      && 2 * HDR < poolSize < U32 && |data| == poolSize
      && Describes(blocks)
      && Flags(used, blocks, End())
    }

    ghost predicate FreeLinked()
      reads this
    {
      IsRing(nextFree, prevFree, FreeRing(free))
    }

    ghost predicate Valid()
      reads this
    {
      && Core() && FreeLinked()
      && Coalesced(blocks)
      && Matches(blocks, free)
      && avail == FreeBytes(blocks, HDR)
      && poolSize - avail <= maxUsed
    }

    constructor (size: nat, bytes: seq<bv8>, base: nat, self: nat, freeHeader: nat)
      requires 2 * HDR + 4 <= size < U32 && |bytes| == size / 4 * 4
      ensures Valid()
      ensures poolSize == size / 4 * 4
      ensures blocks == [Block(0, poolSize - HDR, false)] && free == [0]
      ensures avail == poolSize - 2 * HDR && maxUsed == 2 * HDR
    {
      var pool := size / 4 * 4;
      this.base, this.self, this.freeHeader := base, self, freeHeader;
      poolSize := pool;
      var tail := pool - 2 * HDR + HDR;
      avail := pool - 2 * HDR;
      maxUsed := pool - (pool - 2 * HDR);
      data := bytes;
      // the free header, then the first big block behind it
      nextFree := map[FREE := 0, 0 := FREE, tail := NULL];
      prevFree := map[FREE := 0, 0 := FREE, tail := NULL];
      next := map[0 := tail, tail := 0];
      prev := map[0 := tail, tail := 0];
      used := map[0 := false, tail := true];
      blocks := [Block(0, pool - HDR, false)];
      free := [0];
      new;
      var c := BlockRing(blocks, End());
      assert c == [0, tail as int];
      assert RingAt(next, prev, c, 0) && RingAt(next, prev, c, 1);
      var f := FreeRing(free);
      assert RingAt(nextFree, prevFree, f, 0) && RingAt(nextFree, prevFree, f, 1);
      assert TileAt(blocks, HDR, End(), 0);
      assert blocks[..0] == [];
      assert blocks[0].addr == 0;
      Write(0, tail, blocks);
    }

    /** The links and flag of block `i`, as the C code reads them. */
    lemma ReadBlock(i: nat)
      requires Core() && i < |blocks|
      ensures blocks[i].addr in next && blocks[i].addr in prev && blocks[i].addr in used
      ensures next[blocks[i].addr] == NextAddr(blocks, i, End())
      ensures prev[blocks[i].addr] == (if i == 0 then End() else blocks[i - 1].addr)
      ensures used[blocks[i].addr] == blocks[i].used
      ensures next[blocks[i].addr] in used && next[blocks[i].addr] in prev
      ensures prev[blocks[i].addr] in used && prev[blocks[i].addr] in next
      ensures used[next[blocks[i].addr]] == (i + 1 < |blocks| ==> blocks[i + 1].used)
      ensures used[prev[blocks[i].addr]] == (i > 0 ==> blocks[i - 1].used)
      ensures TileAt(blocks, HDR, End(), i)
    {
      var c := BlockRing(blocks, End());
      assert RingAt(next, prev, c, i);
      assert RingAt(next, prev, c, Succ(i, |c|));
      assert RingAt(next, prev, c, Pred(i, |c|));
      assert TileAt(blocks, HDR, End(), i);
    }

    lemma FreeDistinct()
      requires FreeLinked()
      ensures Distinct(free)
    {
      assert forall k :: 0 <= k < |free| ==> FreeRing(free)[k + 1] == free[k];
    }

    // ---- headers as bytes

    /** The word that a link field holds. */
    function LinkBytes(links: map<int, int>, a: int): (r: seq<bv8>)
      ensures |r| == 4
    {
      if a !in links || links[a] == NULL then WordBytes(0)
      else if links[a] < 0 then WordBytes(freeHeader) else WordBytes(base + links[a])
    }

    /** magic, pool_ptr, next, prev, next_free and prev_free of the header at `a`. */
    function ItemBytes(a: int): (r: seq<bv8>)
      reads this
      ensures |r| == HDR
    {
      WordBytes(if a in used && used[a] then 0x1ea0_1ea1 else 0x1ea0_1ea0) + WordBytes(self)
      + LinkBytes(next, a) + LinkBytes(prev, a) + LinkBytes(nextFree, a) + LinkBytes(prevFree, a)
    }

    /** A header at `a` is in the pool and disturbs no payload of `t`; the free-list header is in the heap object. */
    ghost predicate Writable(t: seq<Block>, a: int) {
      a == FREE || (0 <= a && a + HDR <= poolSize && Clear(t, HDR, a))
    }

    /** Every header on either ring may be written without disturbing a payload of `t`. */
    ghost predicate Safe(t: seq<Block>)
      reads this`blocks, this`free, this`data
    {
      && |data| == poolSize
      && forall x {:trigger Writable(t, x)} :: x in BlockRing(blocks, End()) || x in free ==> Writable(t, x)
    }

    /** The headers of a tiling that has the addresses of `blocks`. */
    lemma SafeFor(t: seq<Block>)
      requires Core() && Matches(blocks, free) && Tiles(t, HDR, End())
      requires forall x :: x in BlockRing(blocks, End()) ==> x in BlockRing(t, End())
      ensures Safe(t)
    {
      forall x | x in BlockRing(blocks, End()) || x in free
        ensures Writable(t, x)
      {
        var c := BlockRing(blocks, End());
        if x in free {
          assert FreeAddr(blocks, x);
          var i :| 0 <= i < |blocks| && blocks[i].addr == x && !blocks[i].used;
          assert c[i] == x;
        }
        RingWritable(t, x);
      }
    }

    lemma RingWritable(t: seq<Block>, x: int)
      requires 2 * HDR < poolSize && Tiles(t, HDR, End()) && x in BlockRing(t, End())
      ensures Writable(t, x)
    {
      var c := BlockRing(t, End());
      var k :| 0 <= k < |c| && c[k] == x;
      if k < |t| {
        ClearAddr(t, HDR, End(), k);
        InArena(t, End(), k);
        assert TileAt(t, HDR, End(), k);
      } else {
        ClearEnd(t, HDR, End());
      }
    }

    /** The bytes of two headers, once their fields are assigned. */
    method Write(a: int, b: int, ghost t: seq<Block>)
      requires |data| == poolSize && Writable(t, a) && Writable(t, b)
      modifies this`data
      ensures |data| == poolSize && Kept(HDR, t, old(data), data)
    {
      ghost var d := data;
      if a >= 0 {
        ClearKeeps(t, HDR, a, ItemBytes(a), data);
        data := data[..a] + ItemBytes(a) + data[a + HDR..];
      }
      ghost var d1 := data;
      if b >= 0 {
        ClearKeeps(t, HDR, b, ItemBytes(b), data);
        data := data[..b] + ItemBytes(b) + data[b + HDR..];
      }
      KeptThen(HDR, t, d, d1, data);
    }

    // ---- the free ring

    /** Take `n` out of the free ring. */
    method FreeUnlink(n: int, ghost t: seq<Block>)
      requires FreeLinked() && n in free && Safe(t)
      modifies this`nextFree, this`prevFree, this`free, this`data
      ensures FreeLinked() && n !in FreeRing(free)
      ensures free == Minus(old(free), n)
      ensures Safe(t) && Kept(HDR, t, old(data), data)
    {
      FreeDistinct();
      ghost var j :| 0 <= j < |free| && free[j] == n;
      DroppedIsMinus(free, j);
      FreeUnlinkAt(n, j, t);
    }

    method FreeUnlinkAt(n: int, ghost j: nat, ghost t: seq<Block>)
      requires FreeLinked() && j < |free| && n == free[j] && Safe(t)
      modifies this`nextFree, this`prevFree, this`free, this`data
      ensures FreeLinked() && free == Dropped(old(free), j)
      ensures n != FREE
      ensures |data| == poolSize && Kept(HDR, t, old(data), data)
    {
      FreeReady(j, t);
      var before, behind := prevFree[n], nextFree[n];
      prevFree := prevFree[behind := before];
      nextFree := nextFree[before := behind];
      free := Dropped(free, j);
      Write(before, behind, t);
    }

    /** The free ring after its j-th block is unlinked, and the neighbours that are written. */
    lemma FreeReady(j: nat, t: seq<Block>)
      requires FreeLinked() && j < |free| && Safe(t)
      ensures var n := free[j];
        && n != FREE && n in nextFree && n in prevFree && nextFree[n] in prevFree && prevFree[n] in nextFree
        && Writable(t, prevFree[n]) && Writable(t, nextFree[n])
        && IsRing(UnlinkNext(nextFree, prevFree, n), UnlinkPrev(nextFree, prevFree, n), FreeRing(Dropped(free, j)))
    {
      var c := FreeRing(free);
      UnlinkRing(nextFree, prevFree, c, j + 1);
      assert c[0] == FREE && c[j + 1] == free[j];
      assert RingAt(nextFree, prevFree, c, j + 1);
      assert RingAt(nextFree, prevFree, c, Pred(j + 1, |c|));
      assert RingAt(nextFree, prevFree, c, Succ(j + 1, |c|));
      assert prevFree[free[j]] in c && nextFree[free[j]] in c;
      assert Writable(t, FREE);
      DroppedRing(free, j);
    }

    /** Clear the free-list links of a header that is on the free list no more. */
    method ClearFree(n: int, ghost t: seq<Block>)
      requires FreeLinked() && n !in FreeRing(free) && Safe(t) && Writable(t, n)
      modifies this`nextFree, this`prevFree, this`data
      ensures FreeLinked() && Safe(t) && Kept(HDR, t, old(data), data)
    {
      nextFree := nextFree[n := NULL];
      prevFree := prevFree[n := NULL];
      RingFrame(old(nextFree), old(prevFree), nextFree, prevFree, FreeRing(free));
      Write(n, n, t);
    }

    /** Push `n` onto the free ring, right behind its header. */
    method FreePush(n: int, ghost t: seq<Block>)
      requires FreeLinked() && n !in FreeRing(free) && Safe(t) && Writable(t, n)
      modifies this`nextFree, this`prevFree, this`free, this`data
      ensures FreeLinked() && free == [n] + old(free)
      ensures Safe(t) && Kept(HDR, t, old(data), data)
    {
      ghost var c := FreeRing(free);
      LinkRing(nextFree, prevFree, c, 0, n);
      assert RingAt(nextFree, prevFree, c, 0);
      var first := nextFree[FREE];
      assert first in c by { assert c[Succ(0, |c|)] in c; }
      assert Writable(t, first) by { assert Writable(t, FREE); }
      nextFree := nextFree[n := first];
      prevFree := prevFree[n := FREE];
      prevFree := prevFree[first := n];
      nextFree := nextFree[FREE := n];
      free := [n] + free;
      assert FreeRing(free) == Inserted(c, 0, n);
      assert nextFree == LinkNext(old(nextFree), FREE, n);
      assert prevFree == LinkPrev(old(nextFree), old(prevFree), FREE, n);
      Write(n, first, t);
    }

    /** A block leaves the free list for good and another one is pushed. */
    method ReplaceFree(h: int, n: int, ghost t: seq<Block>)
      requires FreeLinked() && h in free && n !in FreeRing(free) && Safe(t) && Writable(t, n)
      modifies this`nextFree, this`prevFree, this`free, this`data
      ensures FreeLinked() && free == [n] + Minus(old(free), h)
      ensures Safe(t) && Kept(HDR, t, old(data), data)
    {
      ghost var d := data;
      assert Writable(t, h);
      FreeUnlink(h, t);
      ghost var d1 := data;
      ClearFree(h, t);
      KeptThen(HDR, t, d, d1, data);
      ghost var d2 := data;
      assert n !in FreeRing(free) by { assert n !in free; }
      FreePush(n, t);
      KeptThen(HDR, t, d, d2, data);
    }

    // ---- the address ring

    /** Cut the block at `a` behind `len` bytes: a new free header goes onto the block ring. */
    method CutBlock(a: nat, len: nat, ghost i: nat, ghost t: seq<Block>)
      requires Core() && i < |blocks| && blocks[i].addr == a
      requires HDR < len && len % 4 == 0 && len + HDR < blocks[i].len
      requires Safe(t) && Writable(t, a + len)
      modifies this`next, this`prev, this`used, this`blocks, this`data
      ensures Core() && Safe(t) && Kept(HDR, t, old(data), data)
      ensures blocks == Split(old(blocks), i, len)
    {
      ghost var bs, d := blocks, data;
      var after := CutLinks(a, len, i);
      CutSafe(bs, i, len, t);
      assert Writable(t, after) && Writable(t, a);
      Write(a + len, a, t);
      ghost var d1 := data;
      Write(after, after, t);
      KeptThen(HDR, t, d, d1, data);
    }

    method CutLinks(a: nat, len: nat, ghost i: nat) returns (after: int)
      requires Core() && i < |blocks| && blocks[i].addr == a
      requires HDR < len && len % 4 == 0 && len + HDR < blocks[i].len
      modifies this`next, this`prev, this`used, this`blocks
      ensures Core()
      ensures blocks == Split(old(blocks), i, len)
      ensures a in BlockRing(old(blocks), End()) && after in BlockRing(old(blocks), End())
    {
      CutReady(i, len);
      var n: int := a + len;
      after := next[a];
      used := used[n := false];
      prev := prev[n := a];
      next := next[n := after];
      prev := prev[after := n];
      next := next[a := n];
      assert next == LinkNext(old(next), a, n) && prev == LinkPrev(old(next), old(prev), a, n);
      blocks := Split(blocks, i, len);
    }

    /** The address ring, the tiling and the flags after a cut. */
    lemma CutReady(i: nat, len: nat)
      requires Core() && i < |blocks| && HDR < len && len % 4 == 0 && len + HDR < blocks[i].len
      ensures var a, n, s, c := blocks[i].addr as int, blocks[i].addr as int + len, Split(blocks, i, len), BlockRing(blocks, End());
        && a in next && a in c && next[a] in c && n !in c
        && IsRing(LinkNext(next, a, n), LinkPrev(next, prev, a, n), BlockRing(s, End()))
        && Tiles(s, HDR, End()) && Flags(used[n := false], s, End())
    {
      var c := BlockRing(blocks, End());
      ReadBlock(i);
      NewAddrFresh(blocks, End(), i, len);
      LinkRing(next, prev, c, i, blocks[i].addr + len);
      SplitRing(blocks, End(), i, len);
      SplitTiles(blocks, HDR, End(), i, len);
      SplitFlags(used, blocks, End(), i, len);
      assert c[Succ(i, |c|)] in c && c[i] in c;
    }

    lemma CutSafe(bs: seq<Block>, i: nat, len: nat, t: seq<Block>)
      requires i < |bs| && len <= bs[i].len && blocks == Split(bs, i, len) && |data| == poolSize && Writable(t, bs[i].addr + len)
      requires forall x {:trigger Writable(t, x)} :: x in BlockRing(bs, End()) || x in free ==> Writable(t, x)
      ensures Safe(t)
    {
      SplitRing(bs, End(), i, len);
      var c := BlockRing(bs, End());
      assert c == c[..i + 1] + c[i + 1..];
      assert forall x :: x in BlockRing(blocks, End()) ==> x in c || x == bs[i].addr + len;
    }

    /** Take the header `n` off the block ring: the block before it absorbs it. */
    method BlockUnlink(n: nat, ghost i: nat, ghost t: seq<Block>)
      requires Core() && i + 1 < |blocks| && blocks[i + 1].addr == n && Safe(t)
      modifies this`next, this`prev, this`blocks, this`data
      ensures Core() && Safe(t) && Kept(HDR, t, old(data), data)
      ensures blocks == Merge(old(blocks), i)
    {
      ghost var bs := blocks;
      var before, behind := UnlinkLinks(n, i);
      MergeSafe(bs, i, t);
      assert Writable(t, before) && Writable(t, behind);
      Write(before, behind, t);
    }

    method UnlinkLinks(n: nat, ghost i: nat) returns (before: int, behind: int)
      requires Core() && i + 1 < |blocks| && blocks[i + 1].addr == n
      modifies this`next, this`prev, this`blocks
      ensures Core()
      ensures blocks == Merge(old(blocks), i)
      ensures before in BlockRing(old(blocks), End()) && behind in BlockRing(old(blocks), End())
    {
      UnlinkReady(i);
      before, behind := prev[n], next[n];
      next := next[before := behind];
      prev := prev[behind := before];
      blocks := Merge(blocks, i);
    }

    /** The address ring, the tiling and the flags after block i + 1 is absorbed. */
    lemma UnlinkReady(i: nat)
      requires Core() && i + 1 < |blocks|
      ensures var n, m, c := blocks[i + 1].addr as int, Merge(blocks, i), BlockRing(blocks, End());
        && n in next && n in prev && prev[n] in c && next[n] in c && next[n] != n
        && IsRing(UnlinkNext(next, prev, n), UnlinkPrev(next, prev, n), BlockRing(m, End()))
        && Tiles(m, HDR, End()) && Flags(used, m, End())
    {
      var c, m := BlockRing(blocks, End()), Merge(blocks, i);
      UnlinkRing(next, prev, c, i + 1);
      MergeRing(blocks, End(), i);
      MergeTiles(blocks, HDR, End(), i);
      ReadBlock(i + 1);
      assert c[Succ(i + 1, |c|)] != blocks[i + 1].addr && c[Succ(i + 1, |c|)] in c && c[i] in c;
      assert forall k :: 0 <= k < |m| ==> m[k].addr == blocks[if k <= i then k else k + 1].addr && m[k].used == blocks[if k <= i then k else k + 1].used;
    }

    lemma MergeSafe(bs: seq<Block>, i: nat, t: seq<Block>)
      requires i + 1 < |bs| && blocks == Merge(bs, i) && |data| == poolSize
      requires forall x {:trigger Writable(t, x)} :: x in BlockRing(bs, End()) || x in free ==> Writable(t, x)
      ensures Safe(t)
    {
      MergeRing(bs, End(), i);
      var c := BlockRing(bs, End());
      assert c == c[..i + 1] + [c[i + 1]] + c[i + 2..];
      assert forall x :: x in BlockRing(blocks, End()) ==> x in c;
    }

    /** Set or clear the used bit of the block at `a`. */
    method SetUsed(a: nat, u: bool, ghost i: nat, ghost t: seq<Block>)
      requires Core() && i < |blocks| && blocks[i].addr == a && Safe(t)
      modifies this`used, this`blocks, this`data
      ensures Core() && Safe(t) && Kept(HDR, t, old(data), data)
      ensures blocks == Mark(old(blocks), i, u)
    {
      ghost var bs, c := blocks, BlockRing(blocks, End());
      AddrsDiffer(bs, HDR, End(), i, i);
      OnlyOneAt(bs, End(), i);
      MarkTiles(bs, HDR, End(), i, u);
      MarkRing(bs, End(), i, u);
      assert c[i] == a && c[i] in c && Writable(t, a);
      used := used[a := u];
      blocks := Mark(bs, i, u);
      Write(a, a, t);
    }

    /** Track the largest amount ever in use. */
    method TrackMax()
      modifies this`maxUsed
      ensures maxUsed == Peak(poolSize - avail, old(maxUsed))
    {
      if poolSize - avail > maxUsed {
        maxUsed := poolSize - avail;
      }
    }

    /** rt_memheap_alloc. */
    method Alloc(size: nat) returns (r: Ptr)
      requires Valid() && size < U32
      modifies this
      ensures maxUsed == Peak(poolSize - avail, old(maxUsed))
      ensures Valid() && Kept(HDR, old(blocks), old(data), data)
      ensures r == Null ==> avail == old(avail) && data == old(data)
      ensures Allocated(old(blocks), old(free), old(avail), Want(size), r, blocks, free)
      ensures r != Null ==> (size <= Want(size) <==> size <= U32 - 4)
    {
      WantHoldsExactly(size);
      var want := Align(size);
      if want < MINIALLOC { want := MINIALLOC; }
      if want < avail {
        ghost var bs, f0, i, j := blocks, free, 0, 0;
        var found, header, freeSize;
        found, header, freeSize, i, j := Search(want);
        if found {
          Carve(header, freeSize, want, i);
          r := At(header + HDR);
          assert StackFit(bs, f0, want, i, j);
          return;
        }
      }
      r := Null;
    }

    /** The search along the free list. */
    method Search(want: nat) returns (found: bool, header: int, freeSize: int, ghost i: nat, ghost j: nat)
      requires Valid() && 0 < want
      ensures found ==> StackFit(blocks, free, want, i, j) && blocks[i].addr == header && freeSize == blocks[i].len - HDR
      ensures !found ==> NoFit(blocks, want)
    {
      ghost var c := FreeRing(free);
      i, j := 0, 0;
      ghost var k := 1;
      freeSize := 0;
      assert RingAt(nextFree, prevFree, c, 0);
      header := nextFree[FREE];
      while header != FREE && freeSize < want
        invariant 1 <= k <= |c| && header == (if k < |c| then c[k] else FREE)
        invariant forall n :: 0 <= n < k - 1 ==> !Roomy(blocks, free[n], want)
        invariant freeSize >= want ==> k < |c| && i < |blocks| && blocks[i].addr == c[k] && !blocks[i].used && freeSize == blocks[i].len - HDR
        decreases |c| - k, if freeSize < want then 1 else 0
      {
        assert FreeAddr(blocks, c[k]) by { assert c[k] == free[k - 1]; assert free[k - 1] in free; }
        i :| 0 <= i < |blocks| && blocks[i].addr == c[k] && !blocks[i].used;
        ReadBlock(i);
        freeSize := next[header] - header - HDR;
        if freeSize < want {
          assert !Roomy(blocks, free[k - 1], want) by { OnlyOneAt(blocks, End(), i); }
          assert RingAt(nextFree, prevFree, c, k);
          header := nextFree[header];
          k := k + 1;
        }
      }
      found := freeSize >= want;
      if found {
        assert c[k] == free[k - 1];
        assert Roomy(blocks, free[k - 1], want);
        j := k - 1;
      } else {
        forall o | 0 <= o < |blocks| && !blocks[o].used
          ensures blocks[o].len - HDR < want
        {
          assert FreeAddr(blocks, blocks[o].addr);
          var n :| 0 <= n < |free| && free[n] == blocks[o].addr;
          assert !Roomy(blocks, free[n], want);
        }
      }
    }

    /** The split-or-take-whole part of rt_memheap_alloc. */
    method Carve(header: nat, freeSize: int, want: nat, ghost i: nat)
      requires Valid() && i < |blocks| && blocks[i].addr == header && !blocks[i].used && freeSize == blocks[i].len - HDR
      requires MINIALLOC <= want <= freeSize && want % 4 == 0
      modifies this
      ensures maxUsed == Peak(poolSize - avail, old(maxUsed))
      ensures Valid() && Kept(HDR, old(blocks), old(data), data)
      ensures blocks == Taken(old(blocks), i, want) && free == FreeTaken(old(blocks), old(free), i, want)
    {
      if freeSize >= want + HDR + MINIALLOC {
        CarveSplit(header, want, i);
      } else {
        CarveWhole(header, freeSize, i);
      }
    }

    method CarveSplit(header: nat, want: nat, ghost i: nat)
      requires Valid() && i < |blocks| && blocks[i].addr == header && !blocks[i].used
      requires MINIALLOC <= want && want % 4 == 0 && blocks[i].len - HDR >= want + HDR + MINIALLOC
      modifies this
      ensures maxUsed == Peak(poolSize - avail, old(maxUsed))
      ensures Valid() && Kept(HDR, old(blocks), old(data), data)
      ensures blocks == Mark(Split(old(blocks), i, HDR + want), i, true)
      ensures free == [header + HDR + want] + Minus(old(free), header)
    {
      ghost var bs, f0 := blocks, free;
      TakenSplit(bs, i, HDR + want, HDR, End());
      CarveLinks(header, want, i);
      avail := avail - want - HDR;
      TrackMax();
      TakenMatches(bs, End(), i, want, f0);
    }

    /** The relinking part of a split allocation. */
    method CarveLinks(header: nat, want: nat, ghost i: nat)
      requires Core() && FreeLinked() && Matches(blocks, free) && i < |blocks| && blocks[i].addr == header && !blocks[i].used
      requires MINIALLOC <= want && want % 4 == 0 && blocks[i].len - HDR >= want + HDR + MINIALLOC
      modifies this`next, this`prev, this`used, this`blocks, this`data, this`nextFree, this`prevFree, this`free
      ensures Core() && FreeLinked() && Kept(HDR, old(blocks), old(data), data)
      ensures blocks == Mark(Split(old(blocks), i, HDR + want), i, true)
      ensures free == [header + HDR + want] + Minus(old(free), header)
    {
      ghost var bs, d := blocks, data;
      var len := HDR + want;
      var n := header + len;
      SafeFor(bs);
      ClearInside(bs, HDR, End(), i, n);
      InArena(bs, End(), i);
      NewAddrNotFree(bs, End(), i, len);
      assert FreeAddr(bs, header) && n !in free;
      CutBlock(header, len, i, bs);
      ghost var d1 := data;
      ReplaceFree(header, n, bs);
      KeptThen(HDR, bs, d, d1, data);
      ghost var d2 := data;
      SetUsed(header, true, i, bs);
      KeptThen(HDR, bs, d, d2, data);
    }

    method CarveWhole(header: nat, freeSize: int, ghost i: nat)
      requires Valid() && i < |blocks| && blocks[i].addr == header && !blocks[i].used && freeSize == blocks[i].len - HDR
      modifies this
      ensures maxUsed == Peak(poolSize - avail, old(maxUsed))
      ensures Valid() && Kept(HDR, old(blocks), old(data), data)
      ensures blocks == Mark(old(blocks), i, true) && free == Minus(old(free), header)
    {
      ghost var bs, d := blocks, data;
      TakenWhole(bs, i, HDR, End());
      assert FreeAddr(bs, header);
      avail := avail - freeSize;
      TrackMax();
      SafeFor(bs);
      assert Writable(bs, header);
      FreeUnlink(header, bs);
      ghost var d1 := data;
      ClearFree(header, bs);
      KeptThen(HDR, bs, d, d1, data);
      ghost var d2 := data;
      SetUsed(header, true, i, bs);
      KeptThen(HDR, bs, d, d2, data);
      forall x: int
        ensures x in free <==> FreeAddr(blocks, x)
      {
        MarkFree(bs, End(), i, true, x);
      }
    }

    /** rt_memheap_free.  A pointer that is not null must be live. */
    method Free(ptr: Ptr)
      requires Valid()
      requires ptr.At? ==> exists i: nat :: LiveAt(blocks, ptr, i)
      modifies this
      ensures maxUsed == old(maxUsed)
      ensures Valid()
      ensures ptr == Null ==> unchanged(this)
      ensures forall i: nat :: LiveAt(old(blocks), ptr, i) ==>
                blocks == Freed(old(blocks), i) && free == FreeFreed(old(blocks), old(free), i)
                && Kept(HDR, Mark(old(blocks), i, false), old(data), data)
    {
      if ptr == Null { return; }
      ghost var i: nat :| LiveAt(blocks, ptr, i);
      OnlyOneAt(blocks, End(), i);
      Release(ptr.off - HDR, i);
    }

    /** The body of rt_memheap_free once the header has been found. */
    method Release(addr: nat, ghost i: nat)
      requires Valid() && i < |blocks| && blocks[i].addr == addr && blocks[i].used
      modifies this
      ensures maxUsed == old(maxUsed)
      ensures Valid() && Kept(HDR, Mark(old(blocks), i, false), old(data), data)
      ensures blocks == Freed(old(blocks), i) && free == FreeFreed(old(blocks), old(free), i)
    {
      ghost var bs, f0 := blocks, free;
      assert TileAt(bs, HDR, End(), i);
      FreedKeepsTiling(bs, i, HDR, End());
      ReleaseReady(i);
      ReleaseLinks(addr, i);
      FreedMatches(bs, End(), i, f0);
    }

    /** What the links of a block to be released are known to be. */
    lemma ReleaseReady(i: nat)
      requires Valid() && i < |blocks| && blocks[i].used
      ensures blocks[i].addr !in free && Safe(Mark(blocks, i, false))
      ensures i + 1 < |blocks| ==> (blocks[i + 1].addr in free <==> !blocks[i + 1].used)
    {
      UsedNotFree(blocks, End(), i);
      if i + 1 < |blocks| && !blocks[i + 1].used { assert FreeAddr(blocks, blocks[i + 1].addr); }
      if i + 1 < |blocks| && blocks[i + 1].used { UsedNotFree(blocks, End(), i + 1); }
      MarkTiles(blocks, HDR, End(), i, false);
      MarkRing(blocks, End(), i, false);
      SafeFor(Mark(blocks, i, false));
    }

    /** The relinking part of rt_memheap_free: merge left, merge right, push if nothing was merged left. */
    method ReleaseLinks(addr: nat, ghost i: nat)
      requires Core() && FreeLinked() && i < |blocks| && blocks[i].addr == addr && blocks[i].used
      requires addr !in free && Safe(Mark(blocks, i, false))
      requires i + 1 < |blocks| ==> (blocks[i + 1].addr in free <==> !blocks[i + 1].used)
      modifies this`used, this`next, this`prev, this`blocks, this`avail, this`nextFree, this`prevFree, this`free, this`data
      ensures Core() && FreeLinked() && Kept(HDR, Mark(old(blocks), i, false), old(data), data)
      ensures blocks == Freed(old(blocks), i) && free == FreeFreed(old(blocks), old(free), i)
      ensures avail == old(avail) + (old(blocks)[i].len - HDR)
                + (if i + 1 < |old(blocks)| && !old(blocks)[i + 1].used then HDR else 0)
                + (if i > 0 && !old(blocks)[i - 1].used then HDR else 0)
    {
      ghost var bs, f0, t, d := blocks, free, Mark(blocks, i, false), data;
      if 0 < i < |bs| - 1 { MergesCommute(t, i); }
      assert Writable(t, addr) by { assert BlockRing(bs, End())[i] == addr; assert addr in BlockRing(bs, End()); }
      var header, insertHeader := ReleaseLeft(addr, i);
      ghost var d1 := data;
      if insertHeader {
        ReleaseRight(header, i, t);
        KeptThen(HDR, t, d, d1, data);
        ghost var d2 := data;
        assert header !in FreeRing(free) by { assert header !in f0; assert header !in free; }
        FreePush(header, t);
        KeptThen(HDR, t, d, d2, data);
      } else {
        ReleaseRight(header, i - 1, t);
        KeptThen(HDR, t, d, d1, data);
      }
    }

    /** Mark the block free and merge it with a free previous neighbour. */
    method ReleaseLeft(addr: nat, ghost i: nat) returns (header: nat, insertHeader: bool)
      requires Core() && i < |blocks| && blocks[i].addr == addr && blocks[i].used && Safe(Mark(blocks, i, false))
      modifies this`used, this`next, this`prev, this`blocks, this`avail, this`data
      ensures Core() && Safe(Mark(old(blocks), i, false)) && Kept(HDR, Mark(old(blocks), i, false), old(data), data)
      ensures insertHeader <==> i == 0 || old(blocks)[i - 1].used
      ensures var m := Mark(old(blocks), i, false);
        if insertHeader then header == addr && blocks == m else header == old(blocks)[i - 1].addr && blocks == Merge(m, i - 1)
      ensures avail == old(avail) + (old(blocks)[i].len - HDR) + (if insertHeader then 0 else HDR)
    {
      ghost var t, d := Mark(blocks, i, false), data;
      header, insertHeader := addr, true;
      SetUsed(header, false, i, t);
      ghost var d1 := data;
      ReadBlock(i);
      avail := avail + (next[header] - header - HDR);
      var left := prev[header];
      if !used[left] {
        avail := avail + HDR;
        BlockUnlink(header, i - 1, t);
        KeptThen(HDR, t, d, d1, data);
        header := left;
        insertHeader := false;
      }
    }

    /** Merge the free block at `header` with a free next neighbour. */
    method ReleaseRight(header: nat, ghost k: nat, ghost t: seq<Block>)
      requires Core() && FreeLinked() && k < |blocks| && blocks[k].addr == header && Safe(t)
      requires k + 1 < |blocks| && !blocks[k + 1].used ==> blocks[k + 1].addr in free
      modifies this`next, this`prev, this`blocks, this`avail, this`nextFree, this`prevFree, this`free, this`data
      ensures Core() && FreeLinked() && Safe(t) && Kept(HDR, t, old(data), data)
      ensures blocks == if k + 1 < |old(blocks)| && !old(blocks)[k + 1].used then Merge(old(blocks), k) else old(blocks)
      ensures avail == old(avail) + if k + 1 < |old(blocks)| && !old(blocks)[k + 1].used then HDR else 0
      ensures free == RightLeaves(old(blocks), old(free), k)
    {
      ReadBlock(k);
      var right := next[header];
      if !used[right] {
        avail := avail + HDR;
        MergeNext(right, k, t);
      }
    }

    /** A free block leaves both rings: the block in front of it absorbs it. */
    method MergeNext(n: nat, ghost k: nat, ghost t: seq<Block>)
      requires Core() && FreeLinked() && k + 1 < |blocks| && blocks[k + 1].addr == n && n in free && Safe(t)
      modifies this`next, this`prev, this`blocks, this`nextFree, this`prevFree, this`free, this`data
      ensures Core() && FreeLinked() && Safe(t) && Kept(HDR, t, old(data), data)
      ensures blocks == Merge(old(blocks), k) && free == Minus(old(free), n)
    {
      ghost var d := data;
      BlockUnlink(n, k, t);
      ghost var d1 := data;
      FreeUnlink(n, t);
      KeptThen(HDR, t, d, d1, data);
    }

    /** rt_memheap_realloc.  A pointer that is not null must be live. */
    method Realloc(ptr: Ptr, newsize: nat) returns (r: Ptr)
      requires Valid() && newsize < U32
      requires ptr.At? ==> exists i: nat :: LiveAt(blocks, ptr, i)
      modifies this
      ensures newsize == 0 ==> maxUsed == old(maxUsed)
      ensures newsize > 0 && ptr == Null ==> maxUsed == Peak(poolSize - avail, old(maxUsed))
      ensures newsize > 0 ==> forall i: nat :: LiveAt(old(blocks), ptr, i) && !Overwrites(old(blocks), i, Want(newsize)) ==>
                if r == Null || Want(newsize) + HDR <= old(blocks)[i].len then maxUsed == old(maxUsed)
                else if r == ptr then maxUsed == Peak(poolSize - avail, old(maxUsed))
                else PeakMoved(old(blocks), old(free), Want(newsize), old(maxUsed), maxUsed)
      ensures Valid() <==> forall i: nat :: LiveAt(old(blocks), ptr, i) ==> !Overwrites(old(blocks), i, Want(newsize))
      ensures newsize == 0 ==> r == Null && forall i: nat :: LiveAt(old(blocks), ptr, i) ==>
                blocks == Freed(old(blocks), i) && free == FreeFreed(old(blocks), old(free), i)
                && Kept(HDR, Mark(old(blocks), i, false), old(data), data)
      ensures newsize > 0 && ptr == Null ==>
                Allocated(old(blocks), old(free), old(avail), Want(newsize), r, blocks, free) && Kept(HDR, old(blocks), old(data), data)
      ensures newsize > 0 ==> forall i: nat :: LiveAt(old(blocks), ptr, i) ==>
                if Overwrites(old(blocks), i, Want(newsize)) then r == ptr && LostBlock(ptr.off - HDR)
                else Reallocated(old(blocks), old(free), old(avail), i, Want(newsize), ptr, r, blocks, free)
                     && old(blocks)[i].len >= HDR && ContentsKept(old(blocks), i, Want(newsize), ptr, r, old(data), data)
    {
      if newsize == 0 {
        Free(ptr);
        return Null;
      }
      var want := Align(newsize);
      if want < MINIALLOC { want := MINIALLOC; }
      WantStays(newsize);
      if ptr == Null {
        r := Alloc(want);
        return;
      }
      ghost var i: nat :| LiveAt(blocks, ptr, i);
      OnlyOneAt(blocks, End(), i);
      assert TileAt(blocks, HDR, End(), i);
      r := ReallocLive(ptr, want, i);
    }

    /** The peak when the block that first fits was taken and the old one not yet released. */
    ghost predicate PeakMoved(bs: seq<Block>, free: seq<int>, want: nat, was: int, now: int) {
      exists m: nat, j: nat :: (StackFit(bs, free, want, m, j) && now == Peak(poolSize - FreeBytes(Taken(bs, m, want), HDR), was))
    }

    /** No tiling that the address ring describes has a block at `header` any more. */
    ghost predicate LostBlock(header: int)
      reads this`next, this`prev
    {
      forall bs: seq<Block>, k: nat {:trigger Describes(bs), bs[k]} :: k < |bs| && bs[k].addr == header ==> !Describes(bs)
    }

    /** rt_memheap_realloc on a live block, with the request already rounded. */
    method ReallocLive(ptr: Ptr, want: nat, ghost i: nat) returns (r: Ptr)
      requires Valid() && LiveAt(blocks, ptr, i) && blocks[i].len >= HDR && want < U32 && Want(want) == want && want % 4 == 0
      modifies this
      ensures !Overwrites(old(blocks), i, want) ==>
                if r == Null || want + HDR <= old(blocks)[i].len then maxUsed == old(maxUsed)
                else if r == ptr then maxUsed == Peak(poolSize - avail, old(maxUsed))
                else PeakMoved(old(blocks), old(free), want, old(maxUsed), maxUsed)
      ensures Valid() <==> !Overwrites(old(blocks), i, want)
      ensures Overwrites(old(blocks), i, want) ==> r == ptr && LostBlock(ptr.off - HDR)
      ensures !Overwrites(old(blocks), i, want) ==>
                Reallocated(old(blocks), old(free), old(avail), i, want, ptr, r, blocks, free)
                && ContentsKept(old(blocks), i, want, ptr, r, old(data), data)
    {
      ghost var bs, d := blocks, data;
      ReadBlock(i);
      var header := ptr.off - HDR;
      var oldsize := next[header] - header - HDR;
      if want > oldsize {
        r := Extend(ptr, header, oldsize, want, i);
        return;
      }
      r := ptr;
      if want + HDR + MINIALLOC < oldsize {
        Shrink(header, want, i);
        StaysContents(bs, End(), i, want, ptr, d, data);
      } else {
        LeftContents(bs, i, want, ptr, d);
      }
    }

    lemma LeftContents(bs: seq<Block>, i: nat, n: nat, p: Ptr, d: seq<bv8>)
      requires Tiles(bs, HDR, End()) && End() <= |d| && LiveAt(bs, p, i) && n + HDR <= bs[i].len
      ensures bs[i].len >= HDR && ContentsKept(bs, i, n, p, p, d, d)
    {
      StaysContents(bs, End(), i, n, p, d, d);
    }

    /** The expanding half of rt_memheap_realloc. */
    method Extend(ptr: Ptr, header: nat, oldsize: nat, want: nat, ghost i: nat) returns (r: Ptr)
      requires Valid() && LiveAt(blocks, ptr, i) && header == blocks[i].addr && oldsize == blocks[i].len - HDR
      requires oldsize < want < U32 && Want(want) == want && want % 4 == 0
      modifies this
      ensures !Overwrites(old(blocks), i, want) ==>
                if r == Null || want + HDR <= old(blocks)[i].len then maxUsed == old(maxUsed)
                else if r == ptr then maxUsed == Peak(poolSize - avail, old(maxUsed))
                else PeakMoved(old(blocks), old(free), want, old(maxUsed), maxUsed)
      ensures Valid() <==> !Overwrites(old(blocks), i, want)
      ensures Overwrites(old(blocks), i, want) ==> r == ptr && LostBlock(header)
      ensures !Overwrites(old(blocks), i, want) ==>
                Extended(old(blocks), old(free), old(avail), i, want, ptr, r, blocks, free)
                && ContentsKept(old(blocks), i, want, ptr, r, old(data), data)
    {
      ghost var bs, d := blocks, data;
      var ok := CanGrow(header, oldsize, want, i);
      if !ok {
        r := Move(ptr, oldsize, want, i);
        return;
      }
      r := ptr;
      if want + MINIALLOC < U32 {
        Grow(header, want, oldsize, i);
        StaysContents(bs, End(), i, want, ptr, d, data);
      } else {
        GrowWrapped(header, want, oldsize, i);
      }
    }

    /** Whether the following free space is enough to expand. */
    method CanGrow(header: nat, oldsize: nat, want: nat, ghost i: nat) returns (ok: bool)
      requires Core() && i < |blocks| && header == blocks[i].addr && oldsize == blocks[i].len - HDR
      requires oldsize < want < U32
      ensures ok <==> i + 1 < |blocks| && !blocks[i + 1].used && GrowFits(blocks[i + 1].len - HDR, oldsize, want)
      ensures want + MINIALLOC < U32 ==>
                (ok <==> i + 1 < |blocks| && !blocks[i + 1].used && want + MINIALLOC + HDR < oldsize + blocks[i + 1].len)
      ensures i + 1 < |blocks| && want + MINIALLOC >= U32 ==> oldsize + blocks[i + 1].len < U32
    {
      ReadBlock(i);
      var nextPtr := next[header];
      ok := false;
      if i + 1 < |blocks| {
        ReadBlock(i + 1);
        InArena(blocks, End(), i + 1);
      }
      if !used[nextPtr] {
        var nextsize := next[nextPtr] - nextPtr - HDR;
        ok := GrowFits(nextsize, oldsize, want);
      }
    }

    /** Grow in place: the free header behind the block moves up. */
    method Grow(header: nat, newsize: nat, oldsize: nat, ghost i: nat)
      requires Valid() && i + 1 < |blocks| && blocks[i].addr == header && blocks[i].used && !blocks[i + 1].used
      requires oldsize == blocks[i].len - HDR && oldsize < newsize && newsize % 4 == 0
      requires newsize + MINIALLOC < oldsize + blocks[i + 1].len - HDR
      modifies this
      ensures maxUsed == Peak(poolSize - avail, old(maxUsed))
      ensures Valid() && Kept(HDR, old(blocks), old(data), data)
      ensures blocks == Grown(old(blocks), i, newsize) && free == FreeGrown(old(blocks), old(free), i, newsize)
    {
      ghost var bs, f0 := blocks, free;
      GrownTiles(bs, i, newsize, End());
      GrownTotals(bs, i, newsize);
      GrownApart(bs, i, newsize);
      avail := avail - (newsize - oldsize);
      TrackMax();
      GrowLinks(header, newsize, i);
      GrownMatches(bs, End(), i, newsize, f0);
    }

    /** The relinking part of growing in place. */
    method GrowLinks(header: nat, newsize: nat, ghost i: nat)
      requires Core() && FreeLinked() && Matches(blocks, free)
      requires i + 1 < |blocks| && blocks[i].addr == header && blocks[i].used && !blocks[i + 1].used
      requires blocks[i].len - HDR < newsize && newsize % 4 == 0 && HDR + newsize + HDR < blocks[i].len + blocks[i + 1].len
      modifies this`next, this`prev, this`used, this`blocks, this`nextFree, this`prevFree, this`free, this`data
      ensures Core() && FreeLinked() && Kept(HDR, old(blocks), old(data), data)
      ensures blocks == Grown(old(blocks), i, newsize) && free == FreeGrown(old(blocks), old(free), i, newsize)
    {
      ghost var bs, f0, d := blocks, free, data;
      GrownTiles(bs, i, newsize, End());
      ReadBlock(i);
      var nextPtr := next[header];
      assert FreeAddr(bs, nextPtr);
      SafeFor(bs);
      MergeNext(nextPtr, i, bs);
      ghost var d1 := data;
      var moved := header + HDR + newsize;
      MovedPlace(bs, i, moved);
      assert moved !in free by { assert moved in free ==> FreeAddr(bs, moved) && moved != nextPtr; }
      CutAndPush(header, HDR + newsize, i, bs);
      KeptThen(HDR, bs, d, d1, data);
    }

    /** Cut the block at `a` behind `len` bytes and push the new free header. */
    method CutAndPush(a: nat, len: nat, ghost i: nat, ghost t: seq<Block>)
      requires Core() && FreeLinked() && i < |blocks| && blocks[i].addr == a && a + len !in free
      requires HDR < len && len % 4 == 0 && len + HDR < blocks[i].len
      requires Safe(t) && Writable(t, a + len)
      modifies this`next, this`prev, this`used, this`blocks, this`nextFree, this`prevFree, this`free, this`data
      ensures Core() && FreeLinked() && Kept(HDR, t, old(data), data)
      ensures blocks == Split(old(blocks), i, len) && free == [a + len] + old(free)
    {
      ghost var d := data;
      CutBlock(a, len, i, t);
      ghost var d1 := data;
      FreePush(a + len, t);
      KeptThen(HDR, t, d, d1, data);
    }

    /** The moved header lies in what was the free block, and at the address of no other one. */
    lemma MovedPlace(bs: seq<Block>, i: nat, moved: nat)
      requires 2 * HDR < poolSize && Tiles(bs, HDR, End()) && i + 1 < |bs| && bs[i].used && !bs[i + 1].used
      requires bs[i].addr + bs[i].len < moved && moved + HDR < bs[i + 1].addr + bs[i + 1].len && moved % 4 == 0
      ensures Writable(bs, moved) && (FreeAddr(bs, moved) ==> moved == bs[i + 1].addr)
    {
      assert TileAt(bs, HDR, End(), i);
      ClearInside(bs, HDR, End(), i + 1, moved);
      InArena(bs, End(), i + 1);
      NewAddrNotFree(bs, End(), i + 1, moved - bs[i + 1].addr);
    }

    /** Grow in place by a size that wraps: the free block behind is unlinked, and its header is written
        into the header of the block itself. */
    method GrowWrapped(header: nat, newsize: nat, oldsize: nat, ghost i: nat)
      requires Valid() && i + 1 < |blocks| && blocks[i].addr == header && blocks[i].used && !blocks[i + 1].used
      requires U32 - MINIALLOC <= newsize < U32
      modifies this
      ensures !Valid() && LostBlock(header)
    {
      ghost var bs := blocks;
      avail := (avail - (newsize - oldsize)) % U32;
      if (poolSize - avail) % U32 > maxUsed { maxUsed := (poolSize - avail) % U32; }
      ReadBlock(i);
      var nextPtr := next[header];
      assert FreeAddr(bs, nextPtr);
      SafeFor(bs);
      MergeNext(nextPtr, i, bs);
      WriteMoved(header, header + HDR + newsize - U32, i);
    }

    /** The new header goes where the size says: onto both rings, and over the bytes that are there. */
    method WriteMoved(header: nat, moved: nat, ghost i: nat)
      requires Core() && FreeLinked() && i < |blocks| && blocks[i].addr == header && header < moved < header + HDR
      modifies this`next, this`prev, this`used, this`nextFree, this`prevFree, this`data
      ensures !Valid() && LostBlock(header)
    {
      ReadBlock(i);
      assert RingAt(nextFree, prevFree, FreeRing(free), 0);
      InArena(blocks, End(), i);
      used := used[moved := false];
      prev := prev[moved := header];
      next := next[moved := next[header]];
      prev := prev[next[header] := moved];
      next := next[header := moved];
      RingLost(header, moved);
      LostNotValid(header, i);
      WriteFree(moved);
      LostNotValid(header, i);
    }

    /** The rest of the new header, over the bytes that are there. */
    method WriteFree(moved: nat)
      requires FREE in nextFree && moved + HDR <= |data|
      modifies this`nextFree, this`prevFree, this`data
    {
      var first := nextFree[FREE];
      nextFree := nextFree[moved := first];
      prevFree := prevFree[moved := FREE];
      prevFree := prevFree[first := moved];
      nextFree := nextFree[FREE := moved];
      data := data[..moved] + ItemBytes(moved) + data[moved + HDR..];
    }

    lemma LostNotValid(header: nat, i: nat)
      requires LostBlock(header) && i < |blocks| && blocks[i].addr == header
      ensures !Valid()
    {
    }

    lemma NextOf(bs: seq<Block>, k: nat)
      requires Describes(bs) && k < |bs|
      ensures bs[k].addr in next && next[bs[k].addr] == NextAddr(bs, k, End()) >= bs[k].addr + HDR
    {
      var c := BlockRing(bs, End());
      assert RingAt(next, prev, c, k) && TileAt(bs, HDR, End(), k);
      assert c[k + 1] == NextAddr(bs, k, End());
    }

    lemma RingLost(header: nat, moved: nat)
      requires header in next && next[header] == moved && header < moved < header + HDR
      ensures LostBlock(header)
    {
      forall bs: seq<Block>, k: nat | k < |bs| && bs[k].addr == header
        ensures !Describes(bs)
      {
        if Describes(bs) {
          NextOf(bs, k);
          assert false;
        }
      }
    }

    /** Cut the block back in place; the remainder merges with a free neighbour behind it. */
    method Shrink(header: nat, newsize: nat, ghost i: nat)
      requires Valid() && i < |blocks| && blocks[i].addr == header && blocks[i].used
      requires 0 < newsize && newsize % 4 == 0 && HDR + newsize + HDR < blocks[i].len
      modifies this
      ensures maxUsed == old(maxUsed)
      ensures Valid() && Kept(HDR, Split(old(blocks), i, HDR + newsize), old(data), data)
      ensures blocks == CutBack(old(blocks), i, HDR + newsize) && free == FreeCut(old(blocks), old(free), i, HDR + newsize)
    {
      CutBackKeeps(blocks, End(), i, HDR + newsize, free);
      ShrinkReady(i, HDR + newsize);
      ShrinkLinks(header, newsize, i);
    }

    lemma ShrinkReady(i: nat, len: nat)
      requires Valid() && i < |blocks| && blocks[i].used && HDR < len && len % 4 == 0 && len + HDR < blocks[i].len
      ensures var t := Split(blocks, i, len); Safe(t) && Writable(t, blocks[i].addr + len) && blocks[i].addr + len !in free
      ensures i + 1 < |blocks| ==> (blocks[i + 1].addr in free <==> !blocks[i + 1].used)
    {
      var t := Split(blocks, i, len);
      SplitTiles(blocks, HDR, End(), i, len);
      SplitRing(blocks, End(), i, len);
      var c := BlockRing(blocks, End());
      assert c == c[..i + 1] + c[i + 1..];
      SafeFor(t);
      assert BlockRing(t, End())[i + 1] == blocks[i].addr + len;
      RingWritable(t, blocks[i].addr + len);
      NewAddrNotFree(blocks, End(), i, len);
      if i + 1 < |blocks| {
        if blocks[i + 1].used { UsedNotFree(blocks, End(), i + 1); } else { assert FreeAddr(blocks, blocks[i + 1].addr); }
      }
    }

    /** Cut, merge the remainder with a free next neighbour, push it. */
    method ShrinkLinks(header: nat, newsize: nat, ghost i: nat)
      requires Core() && FreeLinked() && i < |blocks| && blocks[i].addr == header && blocks[i].used
      requires 0 < newsize && newsize % 4 == 0 && HDR + newsize + HDR < blocks[i].len
      requires Safe(Split(blocks, i, HDR + newsize)) && Writable(Split(blocks, i, HDR + newsize), header + HDR + newsize)
      requires header + HDR + newsize !in free
      requires i + 1 < |blocks| ==> (blocks[i + 1].addr in free <==> !blocks[i + 1].used)
      modifies this`next, this`prev, this`used, this`blocks, this`avail, this`nextFree, this`prevFree, this`free, this`data
      ensures Core() && FreeLinked() && Kept(HDR, Split(old(blocks), i, HDR + newsize), old(data), data)
      ensures blocks == CutBack(old(blocks), i, HDR + newsize) && free == FreeCut(old(blocks), old(free), i, HDR + newsize)
      ensures avail == old(avail) + (old(blocks)[i].len - (HDR + newsize) - HDR)
                + if i + 1 < |old(blocks)| && !old(blocks)[i + 1].used then HDR else 0
    {
      ghost var t, d := Split(blocks, i, HDR + newsize), data;
      CutAndMerge(header, newsize, i);
      ghost var d1 := data;
      var newPtr := header + newsize + HDR;
      assert newPtr !in FreeRing(free) by { assert newPtr !in free; }
      FreePush(newPtr, t);
      KeptThen(HDR, t, d, d1, data);
      ReadBlock(i + 1);
      avail := avail + (next[newPtr] - newPtr - HDR);
    }

    /** The address-ring part of the shrink. */
    method CutAndMerge(header: nat, newsize: nat, ghost i: nat)
      requires Core() && FreeLinked() && i < |blocks| && blocks[i].addr == header && blocks[i].used
      requires 0 < newsize && newsize % 4 == 0 && HDR + newsize + HDR < blocks[i].len
      requires Safe(Split(blocks, i, HDR + newsize)) && Writable(Split(blocks, i, HDR + newsize), header + HDR + newsize)
      requires i + 1 < |blocks| ==> (blocks[i + 1].addr in free <==> !blocks[i + 1].used)
      modifies this`next, this`prev, this`used, this`blocks, this`avail, this`nextFree, this`prevFree, this`free, this`data
      ensures Core() && FreeLinked()
      ensures Safe(Split(old(blocks), i, HDR + newsize)) && Kept(HDR, Split(old(blocks), i, HDR + newsize), old(data), data)
      ensures blocks == CutBack(old(blocks), i, HDR + newsize) && free == RightLeaves(old(blocks), old(free), i)
      ensures i + 1 < |blocks| && blocks[i + 1].addr == header + HDR + newsize
      ensures avail + (blocks[i + 1].len - HDR) == old(avail) + (old(blocks)[i].len - (HDR + newsize) - HDR)
                + if i + 1 < |old(blocks)| && !old(blocks)[i + 1].used then HDR else 0
    {
      ghost var bs, t, d := blocks, Split(blocks, i, HDR + newsize), data;
      CutBlock(header, HDR + newsize, i, t);
      ghost var d1 := data;
      if i + 1 < |bs| { assert blocks[i + 2] == bs[i + 1]; }
      ShrinkMerge(header + newsize + HDR, i + 1, t);
      KeptThen(HDR, t, d, d1, data);
    }

    /** Merge the remainder of a cut with a free next neighbour. */
    method ShrinkMerge(newPtr: nat, ghost k: nat, ghost t: seq<Block>)
      requires Core() && FreeLinked() && k < |blocks| && blocks[k].addr == newPtr && Safe(t)
      requires k + 1 < |blocks| && !blocks[k + 1].used ==> blocks[k + 1].addr in free
      modifies this`next, this`prev, this`blocks, this`avail, this`nextFree, this`prevFree, this`free, this`data
      ensures Core() && FreeLinked() && Safe(t) && Kept(HDR, t, old(data), data)
      ensures blocks == if k + 1 < |old(blocks)| && !old(blocks)[k + 1].used then Merge(old(blocks), k) else old(blocks)
      ensures avail == old(avail) - if k + 1 < |old(blocks)| && !old(blocks)[k + 1].used then old(blocks)[k + 1].len - HDR else 0
      ensures free == RightLeaves(old(blocks), old(free), k)
    {
      ReadBlock(k);
      var freePtr := next[newPtr];
      if !used[freePtr] {
        ReadBlock(k + 1);
        avail := avail - (next[freePtr] - freePtr - HDR);
        MergeNext(freePtr, k, t);
      }
    }

    /** Allocate, copy the old payload, free the old block. */
    method Move(ptr: Ptr, oldsize: nat, newsize: nat, ghost i: nat) returns (r: Ptr)
      requires Valid() && LiveAt(blocks, ptr, i) && blocks[i].len >= HDR && oldsize == blocks[i].len - HDR
      requires oldsize < newsize < U32 && Want(newsize) == newsize
      modifies this
      ensures r != ptr && if r == Null then maxUsed == old(maxUsed) else PeakMoved(old(blocks), old(free), newsize, old(maxUsed), maxUsed)
      ensures Valid()
      ensures Moved(old(blocks), old(free), old(avail), i, newsize, r, blocks, free)
      ensures ContentsKept(old(blocks), i, newsize, ptr, r, old(data), data)
    {
      ghost var bs, f0, a0, d0 := blocks, free, avail, data;
      r := Alloc(newsize);
      if r != Null {
        ghost var m, j := FindTaken(bs, f0, a0, newsize, r);
        assert PeakMoved(bs, f0, newsize, old(maxUsed), maxUsed);
        AddrsDiffer(bs, HDR, End(), m, i);
        MoveAllocated(ptr, r, oldsize, bs, f0, a0, d0, newsize, i);
      }
    }

    /** The rest of the move, related to the heap before the allocation: `bs`, `f0`, `a0` and `d0`. */
    method MoveAllocated(ptr: Ptr, dst: Ptr, oldsize: nat, ghost bs: seq<Block>, ghost f0: seq<int>, ghost a0: int, ghost d0: seq<bv8>, want: nat, ghost i: nat)
      requires Valid() && LiveAt(bs, ptr, i) && Tiles(bs, HDR, End()) && bs[i].len == oldsize + HDR
      requires dst != Null && Allocated(bs, f0, a0, want, dst, blocks, free) && Kept(HDR, bs, d0, data)
      modifies this
      ensures maxUsed == old(maxUsed)
      ensures Valid() && Moved(bs, f0, a0, i, want, dst, blocks, free)
      ensures ContentsKept(bs, i, want, ptr, dst, d0, data)
    {
      ghost var m, j := FindTaken(bs, f0, a0, want, dst);
      AddrsDiffer(bs, HDR, End(), m, i);
      MoveInto(ptr, dst, if oldsize < want then oldsize else want, bs, f0, d0, m, want, i);
      MovedBy(bs, f0, a0, i, want, dst, blocks, free, m, j);
      MovedContents(bs, i, want, ptr, dst, d0, data);
    }

    /** The block that was taken. */
    lemma FindTaken(bs: seq<Block>, f0: seq<int>, a0: int, want: nat, r: Ptr) returns (m: nat, j: nat)
      requires r != Null && Allocated(bs, f0, a0, want, r, blocks, free)
      ensures StackFit(bs, f0, want, m, j) && r == At(bs[m].addr + HDR) && want < a0
      ensures blocks == Taken(bs, m, want) && free == FreeTaken(bs, f0, m, want)
    {
      m, j :| StackFit(bs, f0, want, m, j) && r == At(bs[m].addr + HDR) && blocks == Taken(bs, m, want) && free == FreeTaken(bs, f0, m, want);
    }

    /** Copy the old payload to the new block and free the old one; `bs`, `f0` and `d0` are from before the
        allocation. */
    method MoveInto(ptr: Ptr, dst: Ptr, n: nat, ghost bs: seq<Block>, ghost f0: seq<int>, ghost d0: seq<bv8>, ghost m: nat, ghost want: nat, ghost i: nat)
      requires Valid() && m < |bs| && !bs[m].used && LiveAt(bs, ptr, i) && dst == At(bs[m].addr + HDR) && want <= bs[m].len - HDR
      requires blocks == Taken(bs, m, want) && free == FreeTaken(bs, f0, m, want)
      requires n <= want && n <= bs[i].len - HDR && Kept(HDR, bs, d0, data)
      modifies this
      ensures maxUsed == old(maxUsed)
      ensures Valid() && MovedTo(bs, f0, i, want, m, blocks, free)
      ensures SameBytes(d0, ptr.off, data, dst.off, n) && Kept(HDR, Mark(bs, i, false), d0, data)
    {
      TakenSameBlock(bs, m, want, i);
      ghost var t, d1 := blocks, data;
      ghost var d2 := Relocate(ptr, dst, n, m, MovedIndex(bs, m, want, i));
      MoveArrives(bs, t, End(), m, want, i, n, ptr, dst, d0, d1, d2, data);
    }

    /** Copy `n` payload bytes from the old block to the new one, then free the old one;
        `copied` is the arena between the two. */
    method Relocate(ptr: Ptr, dst: Ptr, n: nat, ghost m: nat, ghost i: nat) returns (ghost copied: seq<bv8>)
      requires Valid() && LiveAt(blocks, ptr, i) && m < |blocks| && dst == At(blocks[m].addr + HDR)
      requires n <= blocks[m].len - HDR && n <= blocks[i].len - HDR
      modifies this
      ensures maxUsed == old(maxUsed)
      ensures Valid()
      ensures blocks == Freed(old(blocks), i) && free == FreeFreed(old(blocks), old(free), i)
      ensures ptr.off + n <= |old(data)| && dst.off + n <= |old(data)|
      ensures copied == old(data)[..dst.off] + old(data)[ptr.off..ptr.off + n] + old(data)[dst.off + n..]
      ensures Kept(HDR, Mark(old(blocks), i, false), copied, data)
    {
      InArena(blocks, End(), m);
      InArena(blocks, End(), i);
      data := data[..dst.off] + data[ptr.off..ptr.off + n] + data[dst.off + n..];
      copied := data;
      Free(ptr);
    }
  }
}

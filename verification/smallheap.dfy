/**
  The small-memory heap (mem.c): a first-fit allocator whose block headers live in the arena
  and are linked by byte offsets from `heap_ptr`.  `Heap` updates the headers in place as the C
  code does; its ghost field `blocks` is the tiling that the links describe.
*/
module SmallHeap {
  import P = Payload
  import opened Tiling

  const ALIGN_SIZE: nat := 4
  const HDR: nat := 12                 // SIZEOF_STRUCT_MEM on a 32-bit target
  const MIN_SIZE: nat := 12            // MIN_SIZE == MIN_SIZE_ALIGNED
  const HEAP_MAGIC: nat := 0x1ea0
  const U32: nat := 0x1_0000_0000

  datatype Header = Header(magic: nat, used: bool, next: nat, prev: nat)

  /** RT_NULL, or the byte `off` of the arena; offsets may be outside the arena. */
  datatype Ptr = Null | At(off: int)

  /** RT_ALIGN(size, RT_ALIGN_SIZE) in 32-bit unsigned arithmetic: the addition may wrap. */
  function Align(size: nat): nat {
    (size + ALIGN_SIZE - 1) % U32 / ALIGN_SIZE * ALIGN_SIZE
  }

  /** Payload that rt_malloc reserves for a request. */
  function Want(size: nat): nat {
    if Align(size) < MIN_SIZE then MIN_SIZE else Align(size)
  }

  // ---------------------------------------------------------------- the links describe the tiling

  function PrevAddr(bs: seq<Block>, i: nat): nat
    requires i < |bs|
  {
    if i == 0 then 0 else bs[i - 1].addr
  }

  ghost predicate LinkedAt(hdr: map<nat, Header>, bs: seq<Block>, end: nat, i: nat)
    requires i < |bs|
  {
    bs[i].addr in hdr && hdr[bs[i].addr] == Header(HEAP_MAGIC, bs[i].used, NextAddr(bs, i, end), PrevAddr(bs, i))
  }

  /** Following `next` from offset 0 visits exactly `bs` and stops at `end`; `prev` inverts it.
      `end.prev` is left open: the code does not maintain it on every path. */
  ghost predicate Linked(hdr: map<nat, Header>, bs: seq<Block>, end: nat) {
    && (forall i :: 0 <= i < |bs| ==> LinkedAt(hdr, bs, end, i))
    && end in hdr && hdr[end].used && hdr[end].next == end
  }

  lemma MarkLinked(hdr: map<nat, Header>, bs: seq<Block>, end: nat, i: nat, used: bool)
    requires Tiles(bs, HDR, end) && Linked(hdr, bs, end) && i < |bs|
    ensures bs[i].addr in hdr
    ensures Linked(hdr[bs[i].addr := hdr[bs[i].addr].(used := used)], Mark(bs, i, used), end)
  {
    assert LinkedAt(hdr, bs, end, i);
    var hdr' := hdr[bs[i].addr := hdr[bs[i].addr].(used := used)];
    TilesOrderedAll(bs, HDR, end);
    assert TileAt(bs, HDR, end, i);
    forall k | 0 <= k < |bs|
      ensures LinkedAt(hdr', Mark(bs, i, used), end, k)
    {
      assert LinkedAt(hdr, bs, end, k);
    }
  }

  /** The header map after block `i` absorbs block `i + 1`. */
  function MergeHdr(hdr: map<nat, Header>, bs: seq<Block>, end: nat, i: nat): map<nat, Header>
    requires i + 1 < |bs| && bs[i].addr in hdr && NextAddr(bs, i + 1, end) in hdr
  {
    var n := NextAddr(bs, i + 1, end);
    var linked := hdr[bs[i].addr := hdr[bs[i].addr].(next := n)];
    linked[n := linked[n].(prev := bs[i].addr)]
  }

  /** The header map after block `i` is cut behind `len` bytes. */
  function SplitHdr(hdr: map<nat, Header>, bs: seq<Block>, end: nat, i: nat, len: nat): map<nat, Header>
    requires i < |bs| && bs[i].addr in hdr && NextAddr(bs, i, end) in hdr
  {
    var a, n, next := bs[i].addr, bs[i].addr + len, NextAddr(bs, i, end);
    var made := hdr[n := Header(HEAP_MAGIC, false, next, a)];
    var linked := made[a := made[a].(next := n)];
    if next != end then linked[next := linked[next].(prev := n)] else linked
  }

  lemma NextInHdr(hdr: map<nat, Header>, bs: seq<Block>, end: nat, i: nat)
    requires Linked(hdr, bs, end) && i < |bs|
    ensures bs[i].addr in hdr && NextAddr(bs, i, end) in hdr
    ensures hdr[bs[i].addr] == Header(HEAP_MAGIC, bs[i].used, NextAddr(bs, i, end), PrevAddr(bs, i))
  {
    assert LinkedAt(hdr, bs, end, i);
    if i + 1 < |bs| { assert LinkedAt(hdr, bs, end, i + 1); }
  }

  lemma MergeLinkedAt(hdr: map<nat, Header>, bs: seq<Block>, end: nat, i: nat, k: nat)
    requires Tiles(bs, HDR, end) && Linked(hdr, bs, end) && i + 1 < |bs| && k < |bs| - 1
    requires bs[i].addr in hdr && NextAddr(bs, i + 1, end) in hdr
    ensures LinkedAt(MergeHdr(hdr, bs, end, i), Merge(bs, i), end, k)
  {
    var o := if k <= i then k else k + 1;
    NextInHdr(hdr, bs, end, o);
    AddrsDiffer(bs, HDR, end, o, i);
    if i + 2 < |bs| { AddrsDiffer(bs, HDR, end, o, i + 2); }
  }

  lemma MergeLinked(hdr: map<nat, Header>, bs: seq<Block>, end: nat, i: nat)
    requires Tiles(bs, HDR, end) && Linked(hdr, bs, end) && i + 1 < |bs|
    ensures bs[i].addr in hdr && NextAddr(bs, i + 1, end) in hdr
    ensures Linked(MergeHdr(hdr, bs, end, i), Merge(bs, i), end)
  {
    NextInHdr(hdr, bs, end, i);
    NextInHdr(hdr, bs, end, i + 1);
    AddrsDiffer(bs, HDR, end, i, i);
    if i + 2 < |bs| { AddrsDiffer(bs, HDR, end, i + 2, i); }
    forall k | 0 <= k < |Merge(bs, i)|
      ensures LinkedAt(MergeHdr(hdr, bs, end, i), Merge(bs, i), end, k)
    {
      MergeLinkedAt(hdr, bs, end, i, k);
    }
  }

  lemma SplitLinkedAt(hdr: map<nat, Header>, bs: seq<Block>, end: nat, i: nat, len: nat, k: nat)
    requires Tiles(bs, HDR, end) && Linked(hdr, bs, end) && i < |bs| && k <= |bs|
    requires 0 < len < bs[i].len
    requires bs[i].addr in hdr && NextAddr(bs, i, end) in hdr
    ensures LinkedAt(SplitHdr(hdr, bs, end, i, len), Split(bs, i, len), end, k)
  {
    var o := if k <= i then k else k - 1;
    NextInHdr(hdr, bs, end, o);
    AddrsDiffer(bs, HDR, end, o, i);
    assert TileAt(bs, HDR, end, i) && TileAt(bs, HDR, end, o);
    if o < i {
      TilesOrdered(bs, HDR, end, o, i);
    } else if i < o {
      TilesOrdered(bs, HDR, end, i, o);
    }
    if i + 1 < |bs| { AddrsDiffer(bs, HDR, end, o, i + 1); }
  }

  lemma SplitLinked(hdr: map<nat, Header>, bs: seq<Block>, end: nat, i: nat, len: nat)
    requires Tiles(bs, HDR, end) && Linked(hdr, bs, end) && i < |bs|
    requires 0 < len < bs[i].len
    ensures bs[i].addr in hdr && NextAddr(bs, i, end) in hdr
    ensures Linked(SplitHdr(hdr, bs, end, i, len), Split(bs, i, len), end)
  {
    NextInHdr(hdr, bs, end, i);
    AddrsDiffer(bs, HDR, end, i, i);
    assert TileAt(bs, HDR, end, i);
    if i + 1 < |bs| { AddrsDiffer(bs, HDR, end, i + 1, i); }
    forall k | 0 <= k < |Split(bs, i, len)|
      ensures LinkedAt(SplitHdr(hdr, bs, end, i, len), Split(bs, i, len), end, k)
    {
      SplitLinkedAt(hdr, bs, end, i, len, k);
    }
  }

  // ---------------------------------------------------------------- payload bytes

  /** `d'` differs from `d` only in the header at `p`. */
  ghost predicate OnlyHeader(d: seq<bv8>, d': seq<bv8>, p: nat) {
    && |d'| == |d|
    && forall k :: 0 <= k < |d| && !(p <= k < p + HDR) ==> d'[k] == d[k]
  }

  lemma HeaderWriteKeeps(bs: seq<Block>, end: nat, d: seq<bv8>, d': seq<bv8>, p: nat, m: nat)
    requires Tiles(bs, HDR, end)
    requires OnlyHeader(d, d', p)
    requires p == end || (m < |bs| && (p == bs[m].addr || (!bs[m].used && bs[m].addr <= p && p + HDR <= bs[m].addr + bs[m].len)))
    ensures P.Kept(HDR, bs, d, d')
  {
    TilesOrderedAll(bs, HDR, end);
    assert p != end ==> TileAt(bs, HDR, end, m);
  }

  /** A used block is still a used block after its neighbours merged. */
  lemma KeptThroughMerge(bs: seq<Block>, b: seq<Block>, i: nat, d: seq<bv8>, d': seq<bv8>)
    requires b == bs || (i + 1 < |bs| && !bs[i].used && !bs[i + 1].used && b == Merge(bs, i))
    requires P.Kept(HDR, b, d, d')
    ensures P.Kept(HDR, bs, d, d')
  {
    forall o, k | 0 <= o < |bs| && bs[o].used && bs[o].addr + HDR <= k < bs[o].addr + bs[o].len && k < |d|
      ensures d'[k] == d[k]
    {
      if b != bs { assert bs[o] == b[if o < i then o else o - 1]; }
    }
  }

  /** Cutting a free block leaves every used block alone. */
  lemma KeptThroughSplit(bs: seq<Block>, i: nat, len: nat, d: seq<bv8>, d': seq<bv8>)
    requires i < |bs| && !bs[i].used && len <= bs[i].len
    requires P.Kept(HDR, Split(bs, i, len), d, d')
    ensures P.Kept(HDR, bs, d, d')
  {
    var s := Split(bs, i, len);
    forall o, k | 0 <= o < |bs| && bs[o].used && bs[o].addr + HDR <= k < bs[o].addr + bs[o].len && k < |d|
      ensures d'[k] == d[k]
    {
      assert s[if o <= i then o else o + 1] == bs[o];
    }
  }

  // ---------------------------------------------------------------- the lowest-free pointer

  /** `l` is `heap_end` or the header of a free block. */
  ghost predicate LfreeOk(bs: seq<Block>, l: nat, end: nat) {
    l == end || exists i :: 0 <= i < |bs| && bs[i].addr == l && !bs[i].used
  }

  /** No free block lies below `l`. */
  ghost predicate Lowest(bs: seq<Block>, l: nat) {
    forall i :: 0 <= i < |bs| && bs[i].addr < l ==> bs[i].used
  }

  /** What plug_holes makes of `lfree` when it plugs block `i`. */
  function LfreePlugged(bs: seq<Block>, i: nat, l: nat): nat
    requires i < |bs|
  {
    var fwd := if i + 1 < |bs| && !bs[i + 1].used && l == bs[i + 1].addr then bs[i].addr else l;
    if i > 0 && !bs[i - 1].used && fwd == bs[i].addr then bs[i - 1].addr else fwd
  }

  lemma MergeSameBlock(bs: seq<Block>, i: nat, o: nat) returns (k: nat)
    requires i + 1 < |bs| && o < |bs| && o != i + 1
    ensures k < |Merge(bs, i)|
    ensures Merge(bs, i)[k].addr == bs[o].addr && Merge(bs, i)[k].used == bs[o].used
  {
    k := if o <= i then o else o - 1;
  }

  lemma MergeLfreeOk(bs: seq<Block>, i: nat, l: nat, end: nat)
    requires i + 1 < |bs| && !bs[i].used && !bs[i + 1].used && LfreeOk(bs, l, end)
    ensures LfreeOk(Merge(bs, i), if l == bs[i + 1].addr then bs[i].addr else l, end)
  {
    if l == bs[i + 1].addr {
      var k := MergeSameBlock(bs, i, i);
    } else if l != end {
      var o :| 0 <= o < |bs| && bs[o].addr == l && !bs[o].used;
      var k := MergeSameBlock(bs, i, o);
    }
  }

  lemma PlugLfreeOk(bs: seq<Block>, i: nat, l: nat, end: nat)
    requires i < |bs| && !bs[i].used && LfreeOk(bs, l, end)
    ensures LfreeOk(Plug(bs, i), LfreePlugged(bs, i, l), end)
  {
    var b1, l1 := bs, l;
    if i + 1 < |bs| && !bs[i + 1].used {
      MergeLfreeOk(bs, i, l, end);
      b1, l1 := Merge(bs, i), if l == bs[i + 1].addr then bs[i].addr else l;
    }
    if i > 0 && !bs[i - 1].used {
      assert b1[i].addr == bs[i].addr && !b1[i].used && b1[i - 1] == bs[i - 1];
      MergeLfreeOk(b1, i - 1, l1, end);
    }
  }

  lemma MergeLowest(bs: seq<Block>, i: nat, l: nat)
    requires i + 1 < |bs| && Lowest(bs, l)
    ensures Lowest(Merge(bs, i), l)
  {
    var b := Merge(bs, i);
    assert forall k :: 0 <= k < |b| ==> b[k].addr == bs[if k <= i then k else k + 1].addr && b[k].used == bs[if k <= i then k else k + 1].used;
  }

  /** As long as `lfree` is lowest, plugging never has to move it. */
  lemma PlugLowest(bs: seq<Block>, i: nat, l: nat, end: nat)
    requires Tiles(bs, HDR, end) && i < |bs| && !bs[i].used && Lowest(bs, l)
    ensures LfreePlugged(bs, i, l) == l && Lowest(Plug(bs, i), l)
  {
    assert TileAt(bs, HDR, end, i);
    var b1 := bs;
    if i + 1 < |bs| && !bs[i + 1].used {
      MergeLowest(bs, i, l);
      b1 := Merge(bs, i);
    }
    if i > 0 && !bs[i - 1].used {
      assert TileAt(bs, HDR, end, i - 1);
      MergeLowest(b1, i - 1, l);
    }
  }

  lemma IndexOfLfree(bs: seq<Block>, l: nat, end: nat) returns (i: nat)
    requires LfreeOk(bs, l, end)
    ensures i <= |bs| && l == (if i < |bs| then bs[i].addr else end)
    ensures i < |bs| ==> !bs[i].used
  {
    if l == end {
      i := |bs|;
    } else {
      i :| 0 <= i < |bs| && bs[i].addr == l && !bs[i].used;
    }
  }

  // ---------------------------------------------------------------- first fit

  /** The search loop of rt_malloc admits block `i` and finds it large enough for `want` bytes. */
  ghost predicate Admits(bs: seq<Block>, lfree: nat, memSize: nat, want: nat, i: nat)
    requires i < |bs|
  {
    lfree <= bs[i].addr < memSize - want && !bs[i].used && bs[i].len - HDR >= want
  }

  /** Block `i` is the lowest-addressed block that the search admits. */
  ghost predicate FirstFit(bs: seq<Block>, lfree: nat, memSize: nat, want: nat, i: nat) {
    && i < |bs|
    && Admits(bs, lfree, memSize, want, i)
    && forall j :: 0 <= j < i ==> !Admits(bs, lfree, memSize, want, j)
  }

  ghost predicate NoFit(bs: seq<Block>, lfree: nat, memSize: nat, want: nat) {
    forall j :: 0 <= j < |bs| ==> !Admits(bs, lfree, memSize, want, j)
  }

  /** The tiling after `want` bytes are taken from free block `i`. */
  function Taken(bs: seq<Block>, i: nat, want: nat): seq<Block>
    requires i < |bs|
  {
    if bs[i].len >= want + 2 * HDR + MIN_SIZE
    then Mark(Split(bs, i, HDR + want), i, true)
    else Mark(bs, i, true)
  }

  /** The tiling after rt_realloc shrinks block `i` in place to `size` payload bytes. */
  function Shrunk(bs: seq<Block>, i: nat, size: nat): seq<Block>
    requires i < |bs| && HDR + size <= bs[i].len
  {
    CutBack(bs, i, HDR + size)
  }

  /** `i` is the live block whose payload starts at `p`. */
  ghost predicate LiveAt(bs: seq<Block>, p: Ptr, i: nat) {
    p.At? && i < |bs| && bs[i].used && p.off == bs[i].addr + HDR
  }

  lemma {:induction false} UsedBytesBound(bs: seq<Block>, end: nat, k: nat)
    requires Tiles(bs, HDR, end) && k < |bs|
    ensures UsedBytes(bs[..k + 1]) <= bs[k].addr + bs[k].len
  {
    assert bs[..k + 1][..k] == bs[..k];
    assert TileAt(bs, HDR, end, k);
    if k > 0 {
      assert TileAt(bs, HDR, end, k - 1);
      UsedBytesBound(bs, end, k - 1);
    } else {
      assert bs[..0] == [];
    }
  }

  lemma UsedBytesAtMost(bs: seq<Block>, end: nat)
    requires Tiles(bs, HDR, end)
    ensures UsedBytes(bs) <= end
  {
    UsedBytesBound(bs, end, |bs| - 1);
    assert TileAt(bs, HDR, end, |bs| - 1);
    assert bs[..|bs|] == bs;
  }

  /** The first free block from block `i` on, or `end`. */
  function FreeFrom(bs: seq<Block>, i: nat, end: nat): nat
    decreases |bs| - i
  {
    if i >= |bs| then end else if !bs[i].used then bs[i].addr else FreeFrom(bs, i + 1, end)
  }

  /** `lfree` after block `i` was taken. */
  function LfreeTaken(bs: seq<Block>, i: nat, want: nat, l: nat, end: nat): nat
    requires i < |bs|
  {
    if bs[i].addr == l then FreeFrom(Taken(bs, i, want), i, end) else l
  }

  /** `lfree` after block `i` was released. */
  function LfreeFreed(bs: seq<Block>, i: nat, l: nat): nat
    requires i < |bs|
  {
    LfreePlugged(Mark(bs, i, false), i, if bs[i].addr < l then bs[i].addr else l)
  }

  /** `lfree` after a release is a free block or heap_end, and the lowest if it was. */
  lemma FreedLfree(bs: seq<Block>, i: nat, l: nat, end: nat)
    requires Tiles(bs, HDR, end) && i < |bs| && bs[i].used && LfreeOk(bs, l, end)
    ensures LfreeOk(Freed(bs, i), LfreeFreed(bs, i, l), end)
    ensures Lowest(bs, l) ==> Lowest(Freed(bs, i), LfreeFreed(bs, i, l))
  {
    var m, l' := Mark(bs, i, false), if bs[i].addr < l then bs[i].addr else l;
    MarkedLfree(bs, i, l, end);
    PlugLfreeOk(m, i, l', end);
    if Lowest(bs, l) {
      MarkTiles(bs, HDR, end, i, false);
      PlugLowest(m, i, l', end);
    }
  }

  function Max(a: nat, b: nat): (r: nat)
    ensures r >= a && r >= b && (r == a || r == b)
  {
    if a < b then b else a
  }

  /** Taking a block above `lfree` leaves `lfree` as good as it was. */
  lemma TakenLfree(bs: seq<Block>, i: nat, want: nat, l: nat, end: nat)
    requires i < |bs| && want <= bs[i].len - HDR && l < bs[i].addr
    requires LfreeOk(bs, l, end)
    ensures LfreeOk(Taken(bs, i, want), l, end)
    ensures Lowest(bs, l) ==> Lowest(Taken(bs, i, want), l)
  {
    var t := Taken(bs, i, want);
    if l != end {
      var o :| 0 <= o < |bs| && bs[o].addr == l && !bs[o].used;
      assert t[if o < i then o else o + |t| - |bs|] == bs[o];
    }
    if Lowest(bs, l) {
      forall k | 0 <= k < |t| && t[k].addr < l
        ensures t[k].used
      {
        if k < i {
          assert t[k] == bs[k];
        } else if k > i + |t| - |bs| {
          assert t[k] == bs[k - (|t| - |bs|)];
        }
      }
    }
  }

  /** Releasing block `i` moves `lfree` down to it if that is lower. */
  lemma MarkedLfree(bs: seq<Block>, i: nat, l: nat, end: nat)
    requires i < |bs| && bs[i].used && LfreeOk(bs, l, end)
    ensures var m, l' := Mark(bs, i, false), if bs[i].addr < l then bs[i].addr else l;
      LfreeOk(m, l', end) && (Lowest(bs, l) ==> Lowest(m, l'))
  {
    var m, l' := Mark(bs, i, false), if bs[i].addr < l then bs[i].addr else l;
    if bs[i].addr < l {
      assert m[i].addr == l' && !m[i].used;
    } else if l != end {
      var o :| 0 <= o < |bs| && bs[o].addr == l && !bs[o].used;
      assert m[o] == bs[o];
    }
  }

  lemma LiveInside(bs: seq<Block>, p: Ptr, i: nat, end: nat)
    requires Tiles(bs, HDR, end) && LiveAt(bs, p, i)
    ensures HDR <= p.off < end
  {
    assert TileAt(bs, HDR, end, i);
    if i < |bs| - 1 { TilesOrdered(bs, HDR, end, i, |bs| - 1); }
  }

  lemma TakenLive(bs: seq<Block>, i: nat, want: nat, p: Ptr)
    requires i < |bs| && p == At(bs[i].addr + HDR)
    ensures LiveAt(Taken(bs, i, want), p, i)
  {
  }

  /** Where block `i` stands after `want` bytes were taken from another block `m`. */
  function MovedIndex(bs: seq<Block>, m: nat, want: nat, i: nat): nat
    requires m < |bs|
  {
    if i <= m then i else i + |Taken(bs, m, want)| - |bs|
  }

  lemma TakenSameBlock(bs: seq<Block>, m: nat, want: nat, i: nat)
    requires m < |bs| && i < |bs| && i != m
    ensures MovedIndex(bs, m, want, i) < |Taken(bs, m, want)| && MovedIndex(bs, m, want, i) != m
    ensures Taken(bs, m, want)[MovedIndex(bs, m, want, i)] == bs[i]
  {
  }

  lemma TakenRoom(bs: seq<Block>, m: nat, want: nat)
    requires m < |bs| && want <= bs[m].len - HDR
    ensures Taken(bs, m, want)[m].addr == bs[m].addr && want <= Taken(bs, m, want)[m].len - HDR
  {
  }

  /** The bytes of a moved allocation arrive, and no other live payload is disturbed:
      `t` is the tiling between the allocation of block `m` and the release of block `i`. */
  lemma MoveKeeps(bs: seq<Block>, end: nat, m: nat, want: nat, i: nat, n: nat,
                  d0: seq<bv8>, d1: seq<bv8>, d2: seq<bv8>, d3: seq<bv8>)
    requires m < |bs| && i < |bs| && !bs[m].used && bs[i].used
    requires var t := Taken(bs, m, want);
      && Tiles(t, HDR, end) && end <= |d0|
      && n <= bs[i].len - HDR && n <= t[m].len - HDR
      && P.Kept(HDR, bs, d0, d1)
      && P.Kept(HDR, Mark(t, MovedIndex(bs, m, want, i), false), d2, d3)
    requires var t := Taken(bs, m, want); var dst, src := t[m].addr + HDR, bs[i].addr + HDR;
      && dst + n <= |d1| && src + n <= |d1|
      && d2 == d1[..dst] + d1[src..src + n] + d1[dst + n..]
    ensures |d3| == |d0|
    ensures var dst, src := bs[m].addr + HDR, bs[i].addr + HDR;
      (dst + n <= |d3| && src + n <= |d0| && d3[dst..dst + n] == d0[src..src + n])
    ensures P.Kept(HDR, Mark(bs, i, false), d0, d3)
  {
    var t, i' := Taken(bs, m, want), MovedIndex(bs, m, want, i);
    var mt := Mark(t, i', false);
    TakenSameBlock(bs, m, want, i);
    var dst, src := t[m].addr + HDR, bs[i].addr + HDR;
    assert mt[m] == t[m] && t[m].used && t[m].addr == bs[m].addr;
    assert d2[dst..dst + n] == d1[src..src + n];
    P.KeptSlice(HDR, mt, d2, d3, m, dst, n);
    P.KeptSlice(HDR, bs, d0, d1, i, src, n);
    forall o, k | 0 <= o < |bs| && o != i && bs[o].used && bs[o].addr + HDR <= k < bs[o].addr + bs[o].len && k < |d0|
      ensures d3[k] == d0[k]
    {
      OtherStays(bs, end, m, want, i, n, d1, d2, d3, o, k);
    }
  }

  /** A payload byte of another block is neither copied over nor released. */
  lemma OtherStays(bs: seq<Block>, end: nat, m: nat, want: nat, i: nat, n: nat,
                   d1: seq<bv8>, d2: seq<bv8>, d3: seq<bv8>, o: nat, k: nat)
    requires m < |bs| && i < |bs| && !bs[m].used && bs[i].used && o < |bs| && o != i && bs[o].used
    requires bs[o].addr + HDR <= k < bs[o].addr + bs[o].len && k < |d1|
    requires var t := Taken(bs, m, want);
      && Tiles(t, HDR, end) && n <= t[m].len - HDR
      && P.Kept(HDR, Mark(t, MovedIndex(bs, m, want, i), false), d2, d3)
    requires var t := Taken(bs, m, want); var dst, src := t[m].addr + HDR, bs[i].addr + HDR;
      && dst + n <= |d1| && src + n <= |d1| && d2 == d1[..dst] + d1[src..src + n] + d1[dst + n..]
    ensures d3[k] == d1[k]
  {
    var t, o' := Taken(bs, m, want), MovedIndex(bs, m, want, o);
    TakenSameBlock(bs, m, want, o);
    assert Mark(t, MovedIndex(bs, m, want, i), false)[o'] == bs[o];
    if o' < m { TilesOrdered(t, HDR, end, o', m); } else { TilesOrdered(t, HDR, end, m, o'); }
    assert d2[k] == d1[k];
  }

  lemma InArena(bs: seq<Block>, end: nat, i: nat)
    requires Tiles(bs, HDR, end) && i < |bs|
    ensures bs[i].addr + bs[i].len <= end
  {
    assert TileAt(bs, HDR, end, i);
    if i < |bs| - 1 { TilesOrdered(bs, HDR, end, i, |bs| - 1); }
  }

  /** An aligned 32-bit size is its own alignment. */
  lemma AlignedStays(size: nat)
    requires size % 4 == 0 && size < U32
    ensures Align(size) == size
  {
  }

  lemma SplitLfreeOk(bs: seq<Block>, i: nat, len: nat, l: nat, end: nat)
    requires i < |bs| && bs[i].used && len <= bs[i].len && LfreeOk(bs, l, end)
    ensures LfreeOk(Split(bs, i, len), l, end)
  {
    if l != end {
      var o :| 0 <= o < |bs| && bs[o].addr == l && !bs[o].used;
      assert Split(bs, i, len)[if o < i then o else o + 1] == bs[o];
    }
  }

  lemma ShrunkLfreeOk(bs: seq<Block>, i: nat, len: nat, l: nat, end: nat)
    requires i < |bs| && bs[i].used && len <= bs[i].len && LfreeOk(bs, l, end)
    ensures LfreeOk(CutBack(bs, i, len), LfreePlugged(Split(bs, i, len), i + 1, l), end)
  {
    SplitLfreeOk(bs, i, len, l, end);
    PlugLfreeOk(Split(bs, i, len), i + 1, l, end);
  }

  // ---------------------------------------------------------------- what rt_realloc does

  /** rt_realloc takes its in-place shrink path. */
  predicate Shrinks(bs: seq<Block>, i: nat, size: nat)
    requires i < |bs|
  {
    size + HDR + MIN_SIZE < bs[i].len - HDR
  }

  /** First-fit allocation of `n` aligned bytes: either no admitted block fits, or the lowest one is taken. */
  ghost predicate Allocated(bs: seq<Block>, lfree: nat, memSize: nat, n: nat, r: Ptr, bs': seq<Block>, lfree': nat) {
    && (r == Null ==> bs' == bs && lfree' == lfree && NoFit(bs, lfree, memSize, Want(n)))
    && (r != Null ==> exists m: nat :: (FirstFit(bs, lfree, memSize, Want(n), m)
                                   && r == At(bs[m].addr + HDR) && bs' == Taken(bs, m, Want(n))
                                   && lfree' == LfreeTaken(bs, m, Want(n), lfree, memSize + HDR)))
  }

  /** Block `i` is moved into the block that first fit finds, and released; or nothing fits. */
  ghost predicate Moved(bs: seq<Block>, lfree: nat, memSize: nat, i: nat, n: nat, r: Ptr, bs': seq<Block>, lfree': nat) {
    && (r == Null ==> bs' == bs && lfree' == lfree && NoFit(bs, lfree, memSize, Want(n)))
    && (r != Null ==> exists m: nat :: (FirstFit(bs, lfree, memSize, Want(n), m) && r == At(bs[m].addr + HDR)
                                   && MovedTo(bs, lfree, memSize, i, n, m, bs', lfree')))
  }

  ghost predicate MovedTo(bs: seq<Block>, lfree: nat, memSize: nat, i: nat, n: nat, m: nat, bs': seq<Block>, lfree': nat)
    requires m < |bs|
  {
    var t, i' := Taken(bs, m, Want(n)), MovedIndex(bs, m, Want(n), i);
    && i' < |t| && bs' == Freed(t, i')
    && lfree' == LfreeFreed(t, i', LfreeTaken(bs, m, Want(n), lfree, memSize + HDR))
  }

  lemma MovedBy(bs: seq<Block>, lfree: nat, memSize: nat, i: nat, n: nat, m: nat, r: Ptr, t: seq<Block>, l: nat, bs': seq<Block>, lfree': nat)
    requires FirstFit(bs, lfree, memSize, Want(n), m) && r == At(bs[m].addr + HDR)
    requires t == Taken(bs, m, Want(n)) && l == LfreeTaken(bs, m, Want(n), lfree, memSize + HDR)
    requires MovedIndex(bs, m, Want(n), i) < |t|
    requires bs' == Freed(t, MovedIndex(bs, m, Want(n), i)) && lfree' == LfreeFreed(t, MovedIndex(bs, m, Want(n), i), l)
    ensures Moved(bs, lfree, memSize, i, n, r, bs', lfree')
  {
    assert MovedTo(bs, lfree, memSize, i, n, m, bs', lfree');
  }

  /** The three successful paths of rt_realloc on live block `i`: same size, cut in place, or moved. */
  ghost predicate Reallocated(bs: seq<Block>, lfree: nat, memSize: nat, i: nat, n: nat, rmem: Ptr, r: Ptr, bs': seq<Block>, lfree': nat)
    requires i < |bs|
  {
    if n + HDR == bs[i].len then r == rmem && bs' == bs && lfree' == lfree
    else if Shrinks(bs, i, n) then
      r == rmem && bs' == Shrunk(bs, i, n) && lfree' == LfreePlugged(Split(bs, i, HDR + n), i + 1, lfree)
    else Moved(bs, lfree, memSize, i, n, r, bs', lfree')
  }

  /** The `n` bytes at `p` in `d` are the `n` bytes at `p'` in `d'`. */
  ghost predicate SameBytes(d: seq<bv8>, p: Ptr, d': seq<bv8>, p': Ptr, n: nat) {
    && p.At? && p'.At? && 0 <= p.off && 0 <= p'.off && p.off + n <= |d| && p'.off + n <= |d'|
    && d'[p'.off..p'.off + n] == d[p.off..p.off + n]
  }

  /** The same, for the blocks that two pointers name. */
  lemma MoveArrives(bs: seq<Block>, t: seq<Block>, end: nat, m: nat, want: nat, i: nat, n: nat, rmem: Ptr, nmem: Ptr,
                    d0: seq<bv8>, d1: seq<bv8>, d2: seq<bv8>, d3: seq<bv8>)
    requires m < |bs| && !bs[m].used && LiveAt(bs, rmem, i) && LiveAt(t, nmem, m)
    requires t == Taken(bs, m, want) && bs[m].addr == t[m].addr
    requires n <= t[m].len - HDR && n <= bs[i].len - HDR
    requires Tiles(t, HDR, end) && end <= |d0|
    requires P.Kept(HDR, bs, d0, d1) && P.Kept(HDR, Mark(t, MovedIndex(bs, m, want, i), false), d2, d3)
    requires rmem.off + n <= |d1| && nmem.off + n <= |d1|
    requires d2 == d1[..nmem.off] + d1[rmem.off..rmem.off + n] + d1[nmem.off + n..]
    ensures SameBytes(d0, rmem, d3, nmem, n) && P.Kept(HDR, Mark(bs, i, false), d0, d3)
  {
    MoveKeeps(bs, end, m, want, i, n, d0, d1, d2, d3);
  }

  /** The first min(old, new) bytes survive at the result, and every other live payload is untouched. */
  ghost predicate ContentsKept(bs: seq<Block>, i: nat, n: nat, rmem: Ptr, r: Ptr, d: seq<bv8>, d': seq<bv8>)
    requires i < |bs| && bs[i].len >= HDR
  {
    if r == Null then P.Kept(HDR, bs, d, d')
    else
      && SameBytes(d, rmem, d', r, if n < bs[i].len - HDR then n else bs[i].len - HDR)
      && P.Kept(HDR, Mark(bs, i, false), d, d')
  }

  // ---------------------------------------------------------------- what the allocator promises

  /** The bytes reserved for a request hold it exactly when rounding the size up does not wrap; then they are
      the least multiple of four that does, but at least MIN_SIZE. */
  lemma WantHoldsExactly(size: nat)
    requires size < U32
    ensures size <= Want(size) <==> size <= U32 - 4
    ensures Want(size) >= MIN_SIZE && Want(size) % 4 == 0 && (Want(size) == MIN_SIZE || Want(size) < size + 4)
  {
  }

  /** Taking `want` bytes from free block `i`: it is cut exactly when what is left has room for a header and
      MIN_SIZE bytes; then the rest is the free block right behind it, and otherwise the whole block is used.
      Every other block in use stays as it is. */
  lemma TakenExactly(bs: seq<Block>, end: nat, i: nat, want: nat)
    requires Tiles(bs, HDR, end) && i < |bs| && !bs[i].used && want <= bs[i].len - HDR
    ensures var t, rest := Taken(bs, i, want), bs[i].len - HDR - want;
      && i < |t|
      && (if rest < HDR + MIN_SIZE then |t| == |bs| && t[i] == Block(bs[i].addr, bs[i].len, true)
          else i + 1 < |t| && t[i] == Block(bs[i].addr, HDR + want, true) && t[i + 1] == Block(bs[i].addr + HDR + want, rest, false))
      && forall b: Block :: InUse(t, b) <==> b == t[i] || InUse(bs, b)
  {
    var t := Taken(bs, i, want);
    forall b: Block
      ensures InUse(t, b) <==> b == t[i] || InUse(bs, b)
    {
      if bs[i].len >= want + 2 * HDR + MIN_SIZE {
        var s := Split(bs, i, HDR + want);
        assert s[..i] == bs[..i] && t == s[..i] + [t[i]] + s[i + 1..] && s[i + 1..] == [s[i + 1]] + bs[i + 1..];
        Others(bs, HDR, end, i, b);
      } else {
        MarkUsed(bs, HDR, end, i, true, b);
      }
    }
  }

  /** If the block at `lfree` is taken, `lfree` becomes the next free block, or heap_end; else it stays. */
  lemma LfreeTakenExactly(bs: seq<Block>, i: nat, want: nat, l: nat, end: nat)
    requires Tiles(bs, HDR, end) && i < |bs| && !bs[i].used && want <= bs[i].len - HDR
    ensures var t, l' := Taken(bs, i, want), LfreeTaken(bs, i, want, l, end);
      if bs[i].addr != l then l' == l
      else
        || (l' == end && forall k :: i <= k < |t| ==> t[k].used)
        || exists j :: i <= j < |t| && t[j].addr == l' && !t[j].used && forall k :: i <= k < j ==> t[k].used
  {
    FreeFromIs(Taken(bs, i, want), i, end);
  }

  lemma {:induction false} FreeFromIs(bs: seq<Block>, i: nat, end: nat)
    ensures var l := FreeFrom(bs, i, end);
      || (l == end && forall k :: i <= k < |bs| ==> bs[k].used)
      || exists j :: i <= j < |bs| && bs[j].addr == l && !bs[j].used && forall k :: i <= k < j ==> bs[k].used
    decreases |bs| - i
  {
    if i < |bs| && bs[i].used { FreeFromIs(bs, i + 1, end); }
  }

  /** `lfree` after a release is the free block that contains the lower of the old `lfree` and the block
      released, after its neighbours were merged. */
  lemma LfreeFreedExactly(bs: seq<Block>, i: nat, l: nat, end: nat)
    requires Tiles(bs, HDR, end) && i < |bs| && bs[i].used && LfreeOk(bs, l, end)
    ensures var f, l', low := Freed(bs, i), LfreeFreed(bs, i, l), if bs[i].addr < l then bs[i].addr else l;
      exists k :: 0 <= k < |f| && !f[k].used && f[k].addr == l' && f[k].addr <= low < f[k].addr + f[k].len
  {
    var m, low := Mark(bs, i, false), if bs[i].addr < l then bs[i].addr else l;
    MarkTiles(bs, HDR, end, i, false);
    MarkedLfree(bs, i, l, end);
    AddrsDiffer(bs, HDR, end, i, i);
    var o :| 0 <= o < |m| && m[o].addr == low && !m[o].used;
    assert TileAt(m, HDR, end, o) && TileAt(m, HDR, end, i);
    if i < o { TilesOrdered(m, HDR, end, i, o); }
    assert Freed(bs, i) == Plug(m, i) && LfreeFreed(bs, i, l) == LfreePlugged(m, i, m[o].addr);
    LowAfterMerges(m, i, o, end);
  }

  /** The free block that starts at `low`, not above block `i`, after that block was plugged. */
  lemma LowAfterMerges(m: seq<Block>, i: nat, o: nat, end: nat)
    requires Tiles(m, HDR, end) && o <= i < |m| && !m[i].used && !m[o].used
    ensures var f, l' := Plug(m, i), LfreePlugged(m, i, m[o].addr);
      exists k :: 0 <= k < |f| && !f[k].used && f[k].addr == l' && f[k].addr <= m[o].addr < f[k].addr + f[k].len
  {
    var fwd := m;
    assert TileAt(m, HDR, end, o);
    if i + 1 < |m| && !m[i + 1].used {
      MergeTiles(m, HDR, end, i);
      AddrsDiffer(m, HDR, end, o, i + 1);
      fwd := Merge(m, i);
    }
    assert fwd[o].addr == m[o].addr && !fwd[o].used && m[o].addr < fwd[o].addr + fwd[o].len;
    if i > 0 && !m[i - 1].used {
      assert fwd[i - 1] == m[i - 1] && fwd[i].addr == m[i].addr && fwd[o].addr == m[o].addr;
      assert Plug(m, i) == Merge(fwd, i - 1);
      assert LfreePlugged(m, i, m[o].addr) == if m[o].addr == m[i].addr then m[i - 1].addr else m[o].addr;
      LowAfterBack(fwd, i, o, end);
    } else {
      assert Plug(m, i) == fwd && LfreePlugged(m, i, m[o].addr) == m[o].addr;
    }
  }

  lemma LowAfterBack(m: seq<Block>, i: nat, o: nat, end: nat)
    requires Tiles(m, HDR, end) && 0 < i && o <= i < |m| && !m[i].used && !m[i - 1].used && !m[o].used
    ensures var f, l' := Merge(m, i - 1), if m[o].addr == m[i].addr then m[i - 1].addr else m[o].addr;
      exists k :: 0 <= k < |f| && !f[k].used && f[k].addr == l' && f[k].addr <= m[o].addr < f[k].addr + f[k].len
  {
    var f, c := Merge(m, i - 1), if o < i then o else o - 1;
    AddrsDiffer(m, HDR, end, o, i);
    assert TileAt(m, HDR, end, i - 1) && TileAt(m, HDR, end, o);
    assert !f[c].used && f[c].addr <= m[o].addr < f[c].addr + f[c].len;
  }

  lemma TakenTiles(bs: seq<Block>, end: nat, i: nat, want: nat)
    requires Tiles(bs, HDR, end) && Coalesced(bs) && i < |bs| && !bs[i].used && MIN_SIZE <= want <= bs[i].len - HDR && want % 4 == 0
    ensures Tiles(Taken(bs, i, want), HDR, end) && Coalesced(Taken(bs, i, want))
  {
    if bs[i].len >= want + 2 * HDR + MIN_SIZE {
      TakenSplit(bs, i, HDR + want, HDR, end);
    } else {
      TakenWhole(bs, i, HDR, end);
    }
  }

  /** What a moved allocation leaves in use: the new block, which holds the size and wastes less than a header
      and MIN_SIZE bytes, and everything else but the old one. */
  lemma MovedUsed(bs: seq<Block>, end: nat, i: nat, m: nat, want: nat, b: Block)
    requires Tiles(bs, HDR, end) && Coalesced(bs) && i < |bs| && bs[i].used && m < |bs| && !bs[m].used
    requires MIN_SIZE <= want <= bs[m].len - HDR && want % 4 == 0
    ensures var t, i' := Taken(bs, m, want), MovedIndex(bs, m, want, i);
      i' < |t| && m < |t| && (InUse(Freed(t, i'), b) <==> b == t[m] || (InUse(bs, b) && b != bs[i]))
  {
    var t, i' := Taken(bs, m, want), MovedIndex(bs, m, want, i);
    TakenSameBlock(bs, m, want, i);
    TakenTiles(bs, end, m, want);
    TakenExactly(bs, end, m, want);
    FreedUsed(t, HDR, end, i', b);
    AddrsDiffer(t, HDR, end, m, i');
  }

  /** rt_realloc on live block `i`: the block stays where it is exactly when the size is the same or so much
      smaller that what is left has room for more than a header and MIN_SIZE bytes; then exactly its length
      changes.  It fails exactly when it would have to move and nothing fits, and then nothing changes. */
  lemma ReallocStaysExactly(bs: seq<Block>, lfree: nat, memSize: nat, i: nat, n: nat, rmem: Ptr, r: Ptr, bs': seq<Block>, lfree': nat)
    requires Tiles(bs, HDR, memSize + HDR) && LiveAt(bs, rmem, i)
    requires 0 < n && n % 4 == 0 && Reallocated(bs, lfree, memSize, i, n, rmem, r, bs', lfree')
    ensures r == rmem <==> n == bs[i].len - HDR || n + HDR + MIN_SIZE < bs[i].len - HDR
    ensures r == rmem ==> forall b: Block :: InUse(bs', b) <==> b == Block(bs[i].addr, HDR + n, true) || (InUse(bs, b) && b != bs[i])
    ensures r == Null <==> r != rmem && NoFit(bs, lfree, memSize, Want(n))
    ensures r == Null ==> bs' == bs && lfree' == lfree
  {
    var end := memSize + HDR;
    assert TileAt(bs, HDR, end, i);
    if n == bs[i].len - HDR {
      assert bs[i] == Block(bs[i].addr, HDR + n, true);
    } else if Shrinks(bs, i, n) {
      forall b: Block
        ensures InUse(bs', b) <==> b == Block(bs[i].addr, HDR + n, true) || (InUse(bs, b) && b != bs[i])
      {
        CutBackUsed(bs, HDR, end, i, HDR + n, b);
      }
    } else if r != Null {
      var m: nat :| FirstFit(bs, lfree, memSize, Want(n), m) && r == At(bs[m].addr + HDR);
      AddrsDiffer(bs, HDR, end, m, i);
    }
  }

  /** Otherwise it moves to the first block `m` that fits, now block `c`, and the old block is released. */
  lemma ReallocMovesExactly(bs: seq<Block>, lfree: nat, memSize: nat, i: nat, n: nat, rmem: Ptr, r: Ptr, bs': seq<Block>, lfree': nat)
    returns (m: nat, c: Block)
    requires Tiles(bs, HDR, memSize + HDR) && Coalesced(bs) && LiveAt(bs, rmem, i)
    requires 0 < n < U32 && n % 4 == 0 && Reallocated(bs, lfree, memSize, i, n, rmem, r, bs', lfree') && r != rmem && r != Null
    ensures FirstFit(bs, lfree, memSize, Want(n), m)
    ensures c.used && c.addr == bs[m].addr && r == At(c.addr + HDR) && Want(n) <= c.len - HDR < Want(n) + HDR + MIN_SIZE
    ensures forall b: Block :: InUse(bs', b) <==> b == c || (InUse(bs, b) && b != bs[i])
  {
    m :| FirstFit(bs, lfree, memSize, Want(n), m) && r == At(bs[m].addr + HDR) && MovedTo(bs, lfree, memSize, i, n, m, bs', lfree');
    c := MovedExactly(bs, memSize + HDR, i, n, m, bs');
  }

  lemma MovedExactly(bs: seq<Block>, end: nat, i: nat, n: nat, m: nat, bs': seq<Block>) returns (c: Block)
    requires Tiles(bs, HDR, end) && Coalesced(bs) && i < |bs| && bs[i].used && m < |bs| && !bs[m].used
    requires 0 < n < U32 && n % 4 == 0 && Want(n) <= bs[m].len - HDR
    requires var t, i' := Taken(bs, m, Want(n)), MovedIndex(bs, m, Want(n), i); i' < |t| && bs' == Freed(t, i')
    ensures c.used && c.addr == bs[m].addr && Want(n) <= c.len - HDR < Want(n) + HDR + MIN_SIZE
    ensures forall b: Block :: InUse(bs', b) <==> b == c || (InUse(bs, b) && b != bs[i])
  {
    WantHoldsExactly(n);
    TakenExactly(bs, end, m, Want(n));
    c := Taken(bs, m, Want(n))[m];
    forall b: Block
      ensures InUse(bs', b) <==> b == c || (InUse(bs, b) && b != bs[i])
    {
      MovedUsed(bs, end, i, m, Want(n), b);
    }
  }

  /** Where the search loop of rt_malloc stands after `n` rounds. */
  function Walk(hdr: map<nat, Header>, n: nat): nat {
    if n == 0 then 0 else var p := Walk(hdr, n - 1); if p in hdr then hdr[p].next else p
  }

  /** In an arena of less than MIN_SIZE bytes the search bound wraps: a request that the size check lets
      through is never answered. */
  lemma {:induction false} TinyArenaNeverEnds(memSize: nat, size: nat, n: nat)
    requires memSize < MIN_SIZE && 0 < Align(size) <= memSize
    ensures var hdr, p := BootHeaders(memSize), Walk(BootHeaders(memSize), n);
      && p in hdr && p < (memSize - Want(size)) % U32
      && !(!hdr[p].used && hdr[p].next - (p + HDR) >= Want(size))
  {
    if n > 0 { TinyArenaNeverEnds(memSize, size, n - 1); }
  }

  /** While `lfree` is the lowest free block, a request that the size checks accept fails exactly
      when every free block large enough is the last block of the arena and fits exactly: the
      search bound is strict and never looks at such a block. */
  lemma NoFitExactly(bs: seq<Block>, lfree: nat, memSize: nat, want: nat)
    requires Tiles(bs, HDR, memSize + HDR)
    requires LfreeOk(bs, lfree, memSize + HDR) && Lowest(bs, lfree)
    requires want <= memSize
    ensures NoFit(bs, lfree, memSize, want)
       <==> forall i :: 0 <= i < |bs| && !bs[i].used && bs[i].len - HDR >= want ==> i == |bs| - 1 && bs[i].len - HDR == want
  {
    TilesOrderedAll(bs, HDR, memSize + HDR);
    forall i | 0 <= i < |bs| && !bs[i].used && bs[i].len - HDR >= want
      ensures Admits(bs, lfree, memSize, want, i) <==> !(i == |bs| - 1 && bs[i].len - HDR == want)
    {
      assert TileAt(bs, HDR, memSize + HDR, i);
      if i < |bs| - 1 {
        assert TileAt(bs, HDR, memSize + HDR, i + 1);
        assert bs[i].addr + bs[i].len <= bs[i + 1].addr;
      }
    }
  }

  /** Freeing a block right after it was allocated gives back the identical tiling. */
  lemma FreeUndoesMalloc(bs: seq<Block>, i: nat, want: nat)
    requires i < |bs| && !bs[i].used && Coalesced(bs)
    requires bs[i].len - HDR >= want
    ensures Freed(Taken(bs, i, want), i) == bs
  {
    if bs[i].len >= want + 2 * HDR + MIN_SIZE {
      SplitThenPlug(bs, i, HDR + want);
    } else {
      MarkThenPlug(bs, i);
    }
  }

  /** rt_realloc's in-place shrink creates a free block without comparing it with `lfree`.
      The lowest-free promise survives exactly when `lfree` was below the block, or was the free
      block right behind it (which the new one absorbs). */
  lemma ShrinkKeepsLowestExactly(bs: seq<Block>, i: nat, size: nat, l: nat, end: nat)
    requires Tiles(bs, HDR, end) && Coalesced(bs) && i < |bs| && bs[i].used
    requires 0 < size && size % 4 == 0 && size + HDR + MIN_SIZE < bs[i].len - HDR
    requires LfreeOk(bs, l, end) && Lowest(bs, l)
    ensures Lowest(Shrunk(bs, i, size), LfreePlugged(Split(bs, i, HDR + size), i + 1, l))
       <==> l < bs[i].addr || (i + 1 < |bs| && l == bs[i + 1].addr)
  {
    var s := Split(bs, i, HDR + size);
    assert TileAt(bs, HDR, end, i);
    if l < bs[i].addr {
      SplitLowest(bs, i, HDR + size, l, end);
      SplitTiles(bs, HDR, end, i, HDR + size);
      PlugLowest(s, i + 1, l, end);
    } else if i + 1 < |bs| && l == bs[i + 1].addr {
      CutBackKeepsTiling(bs, i, HDR + size, HDR, end);
      AddrsDiffer(bs, HDR, end, i + 1, i + 1);
      assert !bs[i + 1].used by {
        var o :| 0 <= o < |bs| && bs[o].addr == l && !bs[o].used;
        AddrsDiffer(bs, HDR, end, o, i + 1);
      }
      assert s[i + 2] == bs[i + 1];
      ShrunkBelow(bs, i, size, end);
    } else {
      ShrinkBreaksLowest(bs, i, size, l, end);
    }
  }

  lemma ShrinkBreaksLowest(bs: seq<Block>, i: nat, size: nat, l: nat, end: nat)
    requires Tiles(bs, HDR, end) && i < |bs| && bs[i].used
    requires HDR + size < bs[i].len
    requires LfreeOk(bs, l, end)
    requires l >= bs[i].addr && (i + 1 < |bs| ==> l != bs[i + 1].addr)
    ensures !Lowest(Shrunk(bs, i, size), LfreePlugged(Split(bs, i, HDR + size), i + 1, l))
  {
    var s, sh := Split(bs, i, HDR + size), Shrunk(bs, i, size);
    assert TileAt(bs, HDR, end, i);
    if i + 1 < |bs| { assert s[i + 2] == bs[i + 1]; }
    assert sh[i + 1].addr == bs[i].addr + HDR + size && !sh[i + 1].used;
    if l == end {
      if i < |bs| - 1 { TilesOrdered(bs, HDR, end, i, |bs| - 1); }
    } else {
      var o :| 0 <= o < |bs| && bs[o].addr == l && !bs[o].used;
      AddrsDiffer(bs, HDR, end, o, i);
      if o < i { TilesOrdered(bs, HDR, end, o, i); } else { TilesOrdered(bs, HDR, end, i, o); }
    }
  }

  lemma SplitLowest(bs: seq<Block>, i: nat, len: nat, l: nat, end: nat)
    requires i < |bs| && len <= bs[i].len && Lowest(bs, l) && l < bs[i].addr
    ensures Lowest(Split(bs, i, len), l)
  {
    var s := Split(bs, i, len);
    assert forall k :: 0 <= k < |s| && k != i + 1 ==> s[k].addr == bs[if k <= i then k else k - 1].addr && s[k].used == bs[if k <= i then k else k - 1].used;
  }

  lemma ShrunkBelow(bs: seq<Block>, i: nat, size: nat, end: nat)
    requires Tiles(bs, HDR, end) && i + 1 < |bs| && bs[i].used && !bs[i + 1].used && HDR + size <= bs[i].len
    requires Tiles(Shrunk(bs, i, size), HDR, end)
    requires Lowest(bs, bs[i + 1].addr)
    ensures Lowest(Shrunk(bs, i, size), bs[i].addr + HDR + size)
  {
    TilesOrderedAll(bs, HDR, end);
    var sh := Shrunk(bs, i, size);
    TilesOrderedAll(sh, HDR, end);
    assert sh[i + 1].addr == bs[i].addr + HDR + size;
    forall k | 0 <= k < |sh| && sh[k].addr < sh[i + 1].addr
      ensures sh[k].used
    {
      assert k <= i;
      assert bs[k].addr == sh[k].addr && bs[k].used == sh[k].used;
      assert TileAt(bs, HDR, end, k);
      assert bs[k].addr < bs[i + 1].addr;
    }
  }

  lemma ShrinkContents(bs: seq<Block>, i: nat, n: nat, p: Ptr, d: seq<bv8>, d': seq<bv8>)
    requires LiveAt(bs, p, i) && Shrinks(bs, i, n) && bs[i].addr + bs[i].len <= |d|
    requires P.Kept(HDR, Split(bs, i, HDR + n), d, d')
    ensures ContentsKept(bs, i, n, p, p, d, d')
  {
    var s := Split(bs, i, HDR + n);
    assert s[i] == Block(bs[i].addr, HDR + n, true);
    assert d'[p.off..p.off + n] == d[p.off..p.off + n];
    forall o, k | 0 <= o < |bs| && o != i && bs[o].used && bs[o].addr + HDR <= k < bs[o].addr + bs[o].len && k < |d|
      ensures d'[k] == d[k]
    {
      assert s[if o < i then o else o + 1] == bs[o];
    }
  }

  // ---------------------------------------------------------------- the heap itself

  /** Bytes of a header as they lie in the arena: magic, used, next, prev, little-endian. */
  function HeaderBytes(h: Header): (r: seq<bv8>)
    ensures |r| == HDR
  {
    seq(HDR, k => ((if k < 2 then h.magic else if k < 4 then (if h.used then 1 else 0) else if k < 8 then h.next else h.prev)
                   / (if k % 4 == 0 then 1 else if k % 4 == 1 then 0x100 else if k % 4 == 2 then 0x1_0000 else 0x100_0000) % 256) as bv8)
  }

  function BootHeaders(memSize: nat): map<nat, Header> {
    map[0 := Header(HEAP_MAGIC, false, memSize + HDR, 0)]
       [memSize + HDR := Header(HEAP_MAGIC, true, memSize + HDR, memSize + HDR)]
  }

  class Heap {
    const memSize: nat            // mem_size_aligned
    var hdr: map<nat, Header>     // the headers, by offset from heap_ptr
    var data: seq<bv8>            // the arena bytes
    var lfree: nat
    var usedMem: nat
    var maxMem: nat
    ghost var blocks: seq<Block>

    const End: nat := memSize + HDR   // offset of heap_end

    /** Everything but the lfree pointer, the coalescing and the counters. */
    ghost predicate Core()
      reads this
    {
      && MIN_SIZE <= memSize && memSize + 2 * HDR < U32
      && |data| == memSize + 2 * HDR
      && Tiles(blocks, HDR, End)
      && Linked(hdr, blocks, End)
    }

    ghost predicate Valid()
      reads this
    {
      && Core()
      && Coalesced(blocks)
      && LfreeOk(blocks, lfree, End)
      && usedMem == UsedBytes(blocks) && usedMem <= maxMem
    }

    /** `lfree` is the lowest free block, or heap_end when there is none. */
    ghost predicate LfreeLowest()
      reads this
    {
      Lowest(blocks, lfree)
    }

    /** rt_system_heap_init; the allocator works only in an arena of at least MIN_SIZE bytes. */
    constructor (memSize: nat, bytes: seq<bv8>)
      requires memSize % 4 == 0 && memSize + 2 * HDR < U32
      requires |bytes| == memSize + 2 * HDR
      ensures memSize >= MIN_SIZE ==> Valid()
      ensures this.memSize == memSize && hdr == BootHeaders(memSize) && LfreeLowest()
      ensures blocks == [Block(0, memSize + HDR, false)] && lfree == 0 && usedMem == 0
    {
      this.memSize := memSize;
      var first := Header(HEAP_MAGIC, false, memSize + HDR, 0);
      var last := Header(HEAP_MAGIC, true, memSize + HDR, memSize + HDR);
      hdr := map[0 := first][memSize + HDR := last];
      data := HeaderBytes(first) + bytes[HDR..memSize + HDR] + HeaderBytes(last);
      lfree, usedMem, maxMem := 0, 0, 0;
      blocks := [Block(0, memSize + HDR, false)];
      new;
      assert blocks[..0] == [];
    }

    /** Store the header at `p`, in the map and in the arena bytes. */
    method Store(p: nat, h: Header)
      requires p + HDR <= |data|
      modifies this`hdr, this`data
      ensures hdr == old(hdr)[p := h]
      ensures OnlyHeader(old(data), data, p)
    {
      hdr := hdr[p := h];
      data := data[..p] + HeaderBytes(h) + data[p + HDR..];
    }

    /** plug_holes: merge the free block at `mem` with its free neighbours. */
    method PlugHoles(mem: nat, ghost i: nat)
      requires Core() && i < |blocks| && blocks[i].addr == mem && !blocks[i].used
      modifies this`hdr, this`data, this`lfree, this`blocks
      ensures Core()
      ensures blocks == Plug(old(blocks), i)
      ensures lfree == LfreePlugged(old(blocks), i, old(lfree))
      ensures P.Kept(HDR, old(blocks), old(data), data)
    {
      ghost var bs := blocks;
      NextInHdr(hdr, bs, End, i);
      AddrsDiffer(bs, HDR, End, i, i);
      ghost var i1 := i + 1;
      if i + 1 < |bs| {
        AddrsDiffer(bs, HDR, End, i + 1, i);
        NextInHdr(hdr, bs, End, i + 1);
      }
      // plug hole forward
      var nmem := hdr[mem].next;
      if mem != nmem && !hdr[nmem].used && nmem != End {
        Absorb(mem, nmem, i);
      }
      // plug hole backward
      assert blocks[i].addr == mem && !blocks[i].used;
      NextInHdr(hdr, blocks, End, i);
      var pmem := hdr[mem].prev;
      if i > 0 {
        AddrsDiffer(blocks, HDR, End, i - 1, i);
        NextInHdr(hdr, blocks, End, i - 1);
        assert blocks[i - 1] == bs[i - 1];
      }
      if pmem != mem && !hdr[pmem].used {
        ghost var mid, d := blocks, data;
        Absorb(pmem, mem, i - 1);
        KeptThroughMerge(bs, mid, i, d, data);
      }
    }

    /** Either half of plug_holes: the free block at `mem` absorbs the free block `nmem` behind it. */
    method Absorb(mem: nat, nmem: nat, ghost i: nat)
      requires Core() && i + 1 < |blocks| && blocks[i].addr == mem && blocks[i + 1].addr == nmem
      requires !blocks[i].used && !blocks[i + 1].used
      modifies this`hdr, this`data, this`lfree, this`blocks
      ensures Core()
      ensures blocks == Merge(old(blocks), i)
      ensures lfree == if old(lfree) == nmem then mem else old(lfree)
      ensures P.Kept(HDR, old(blocks), old(data), data)
    {
      ghost var bs, d := blocks, data;
      MergeLinked(hdr, bs, End, i);
      MergeTiles(bs, HDR, End, i);
      NextInHdr(hdr, bs, End, i + 1);
      if lfree == nmem {
        lfree := mem;
      }
      AddrsDiffer(bs, HDR, End, i, i);
      Store(mem, hdr[mem].(next := hdr[nmem].next));
      HeaderWriteKeeps(bs, End, d, data, mem, i);
      ghost var d1 := data;
      var after := hdr[nmem].next;
      if i + 2 < |bs| { AddrsDiffer(bs, HDR, End, i + 2, i + 1); }
      Store(after, hdr[after].(prev := mem));
      HeaderWriteKeeps(bs, End, d1, data, after, i + 2);
      blocks := Merge(bs, i);
    }

    /** Take `want` bytes from the free block at `ptr`, the block the search of rt_malloc stopped at. */
    method Take(ptr: nat, want: nat, ghost i: nat)
      requires Valid() && i < |blocks| && blocks[i].addr == ptr && !blocks[i].used
      requires MIN_SIZE <= want && want % 4 == 0 && blocks[i].len - HDR >= want
      requires lfree <= ptr
      modifies this
      ensures Valid()
      ensures blocks == Taken(old(blocks), i, want)
      ensures lfree == LfreeTaken(old(blocks), i, want, old(lfree), End) && maxMem == Max(old(maxMem), usedMem)
      ensures P.Kept(HDR, old(blocks), old(data), data)
      ensures old(LfreeLowest()) ==> LfreeLowest()
    {
      ghost var bs := blocks;
      Carve(ptr, want, i);
      if ptr == lfree {
        AdvanceLfree(bs, want, i);
      } else {
        TakenLfree(bs, i, want, lfree, End);
      }
      UsedBytesAtMost(blocks, End);
    }

    /** Create a free header behind the first `len` bytes of the block at `ptr` and link it in. */
    method CutBlock(ptr: nat, len: nat, ghost i: nat)
      requires Core() && i < |blocks| && blocks[i].addr == ptr
      requires HDR < len && len % 4 == 0 && len + HDR < blocks[i].len
      modifies this`hdr, this`data, this`blocks
      ensures Core()
      ensures blocks == Split(old(blocks), i, len)
      ensures P.Kept(HDR, blocks, old(data), data)
    {
      ghost var bs, d := blocks, data;
      ghost var s := Split(bs, i, len);
      CutFacts(i, len);
      var ptr2 := ptr + len;
      Store(ptr2, Header(HEAP_MAGIC, false, hdr[ptr].next, ptr));
      HeaderWriteKeeps(s, End, d, data, ptr2, i + 1);
      ghost var d1 := data;
      Store(ptr, hdr[ptr].(next := ptr2));
      HeaderWriteKeeps(s, End, d1, data, ptr, i);
      ghost var d2 := data;
      var after := hdr[ptr2].next;
      if after != memSize + HDR {
        Store(after, hdr[after].(prev := ptr2));
        HeaderWriteKeeps(s, End, d2, data, after, i + 2);
      }
      blocks := s;
    }

    lemma CutFacts(i: nat, len: nat)
      requires Core() && i < |blocks|
      requires HDR < len && len % 4 == 0 && len + HDR < blocks[i].len
      ensures Tiles(Split(blocks, i, len), HDR, End)
      ensures blocks[i].addr in hdr && NextAddr(blocks, i, End) in hdr
      ensures hdr[blocks[i].addr].next == NextAddr(blocks, i, End)
      ensures Linked(SplitHdr(hdr, blocks, End, i, len), Split(blocks, i, len), End)
      ensures blocks[i].addr + blocks[i].len <= End
      ensures i + 1 < |blocks| ==> Split(blocks, i, len)[i + 2] == blocks[i + 1] && blocks[i + 1].addr < End && blocks[i + 1].addr >= blocks[i].addr + blocks[i].len
    {
      NextInHdr(hdr, blocks, End, i);
      SplitTiles(blocks, HDR, End, i, len);
      SplitLinked(hdr, blocks, End, i, len);
      InArena(blocks, End, i);
      if i + 1 < |blocks| {
        AddrsDiffer(blocks, HDR, End, i + 1, i);
        TilesOrdered(blocks, HDR, End, i, i + 1);
      }
    }

    /** Set or clear the used flag of the block at `mem`. */
    method SetUsed(mem: nat, u: bool, ghost i: nat)
      requires Core() && i < |blocks| && blocks[i].addr == mem
      modifies this`hdr, this`data, this`blocks
      ensures Core()
      ensures blocks == Mark(old(blocks), i, u)
      ensures P.Kept(HDR, old(blocks), old(data), data) && P.Kept(HDR, blocks, old(data), data)
    {
      ghost var bs, d := blocks, data;
      NextInHdr(hdr, bs, End, i);
      AddrsDiffer(bs, HDR, End, i, i);
      MarkLinked(hdr, bs, End, i, u);
      MarkTiles(bs, HDR, End, i, u);
      Store(mem, hdr[mem].(used := u, magic := HEAP_MAGIC));
      blocks := Mark(bs, i, u);
      HeaderWriteKeeps(bs, End, d, data, mem, i);
      HeaderWriteKeeps(blocks, End, d, data, mem, i);
    }

    /** Cut a free block and use its front. */
    method CutAndUse(ptr: nat, len: nat, ghost i: nat)
      requires Core() && i < |blocks| && blocks[i].addr == ptr && !blocks[i].used
      requires HDR < len && len % 4 == 0 && len + HDR < blocks[i].len
      modifies this`hdr, this`data, this`blocks
      ensures Core()
      ensures blocks == Mark(Split(old(blocks), i, len), i, true)
      ensures P.Kept(HDR, old(blocks), old(data), data)
    {
      ghost var bs, d := blocks, data;
      CutBlock(ptr, len, i);
      KeptThroughSplit(bs, i, len, d, data);
      ghost var d1 := data;
      SetUsed(ptr, true, i);
      KeptThroughSplit(bs, i, len, d1, data);
    }

    /** The split-or-take-whole part of rt_malloc, with its accounting. */
    method Carve(ptr: nat, want: nat, ghost i: nat)
      requires Valid() && i < |blocks| && blocks[i].addr == ptr && !blocks[i].used
      requires MIN_SIZE <= want && want % 4 == 0 && blocks[i].len - HDR >= want
      modifies this
      ensures Core() && Coalesced(blocks)
      ensures blocks == Taken(old(blocks), i, want)
      ensures lfree == old(lfree)
      ensures usedMem == UsedBytes(blocks) && maxMem == Max(old(maxMem), usedMem)
      ensures P.Kept(HDR, old(blocks), old(data), data)
    {
      ghost var bs := blocks;
      NextInHdr(hdr, bs, End, i);
      assert TileAt(bs, HDR, End, i);
      if hdr[ptr].next - (ptr + HDR) >= want + HDR + MIN_SIZE {
        TakenSplit(bs, i, HDR + want, HDR, End);
        CutAndUse(ptr, HDR + want, i);
        usedMem := usedMem + want + HDR;
      } else {
        TakenWhole(bs, i, HDR, End);
        SetUsed(ptr, true, i);
        NextInHdr(hdr, blocks, End, i);
        usedMem := usedMem + (hdr[ptr].next - ptr);
      }
      if maxMem < usedMem {
        maxMem := usedMem;
      }
    }

    /** Move `lfree` from the block just taken to the next free block, or to heap_end. */
    method AdvanceLfree(ghost bs: seq<Block>, want: nat, ghost i: nat)
      requires Core() && i < |bs| && want <= bs[i].len - HDR
      requires blocks == Taken(bs, i, want) && lfree == bs[i].addr
      modifies this`lfree
      ensures LfreeOk(blocks, lfree, End) && lfree == FreeFrom(blocks, i, End)
      ensures Lowest(bs, bs[i].addr) ==> Lowest(blocks, lfree)
    {
      ghost var j := i;
      NextInHdr(hdr, blocks, End, i);
      while hdr[lfree].used && lfree != End
        invariant i <= j <= |blocks| && lfree == (if j < |blocks| then blocks[j].addr else End)
        invariant lfree in hdr
        invariant forall k :: i <= k < j ==> blocks[k].used
        invariant FreeFrom(blocks, i, End) == FreeFrom(blocks, j, End)
        decreases |blocks| - j
      {
        NextInHdr(hdr, blocks, End, j);
        lfree := hdr[lfree].next;
        j := j + 1;
      }
      if j < |blocks| {
        NextInHdr(hdr, blocks, End, j);
        AddrsDiffer(blocks, HDR, End, j, j);
      }
      if Lowest(bs, bs[i].addr) {
        forall k | 0 <= k < |blocks| && blocks[k].addr < lfree
          ensures blocks[k].used
        {
          if k < i {
            assert blocks[k] == bs[k];
            TilesOrdered(blocks, HDR, End, k, i);
            assert TileAt(blocks, HDR, End, k);
          } else if j < k {
            assert TileAt(blocks, HDR, End, j);
            TilesOrdered(blocks, HDR, End, j, k);
          }
        }
      }
    }

    /** rt_malloc; `m` is the number of the block it takes. */
    method Malloc(size: nat) returns (r: Ptr, ghost m: nat)
      requires Valid() && size < U32
      modifies this
      ensures Valid()
      ensures old(LfreeLowest()) ==> LfreeLowest()
      ensures r == Null ==> unchanged(this)
      ensures size == 0 || Align(size) > memSize ==> r == Null
      ensures size != 0 && Align(size) <= memSize && r == Null ==> NoFit(old(blocks), old(lfree), memSize, Want(size))
      ensures r != Null ==> size != 0 && Align(size) <= memSize
      ensures r != Null ==> m < |blocks| && m < |old(blocks)| && blocks[m].addr == old(blocks)[m].addr && Want(size) <= blocks[m].len - HDR
      ensures r != Null ==>
                if old(blocks)[m].len - HDR - Want(size) < HDR + MIN_SIZE then blocks[m].len == old(blocks)[m].len
                else blocks[m].len == HDR + Want(size) && m + 1 < |blocks| && blocks[m + 1].addr == blocks[m].addr + blocks[m].len
                     && !blocks[m + 1].used && blocks[m + 1].len == old(blocks)[m].len - blocks[m].len
      ensures r != Null ==> forall b: Block :: InUse(blocks, b) <==> b == blocks[m] || InUse(old(blocks), b)
      ensures r != Null ==> (size <= Want(size) <==> size <= U32 - 4)
      ensures r != Null ==> FirstFit(old(blocks), old(lfree), memSize, Want(size), m) && LiveAt(blocks, r, m)
      ensures r != Null ==> blocks == Taken(old(blocks), m, Want(size)) && lfree == LfreeTaken(old(blocks), m, Want(size), old(lfree), memSize + HDR)
      ensures maxMem == Max(old(maxMem), usedMem)
      ensures P.Kept(HDR, old(blocks), old(data), data)
    {
      m := 0;
      if size == 0 { return Null, m; }
      var want := Align(size);
      if want > memSize { return Null, m; }
      if want < MIN_SIZE { want := MIN_SIZE; }

      ghost var bs := blocks;
      var found, ptr := Search(want);
      if !found { return Null, m; }
      m :| FirstFit(bs, lfree, memSize, want, m) && ptr == bs[m].addr;
      Take(ptr, want, m);
      r := At(ptr + HDR);
      TakenLive(bs, m, want, r);
      TakenRoom(bs, m, want);
      TakenExactly(bs, End, m, want);
      WantHoldsExactly(size);
    }

    /** The search loop of rt_malloc: from `lfree` along `next`, up to the search bound. */
    method Search(want: nat) returns (found: bool, ptr: nat)
      requires Valid() && want <= memSize
      ensures found ==> exists i: nat :: (FirstFit(blocks, lfree, memSize, want, i) && ptr == blocks[i].addr)
      ensures !found ==> NoFit(blocks, lfree, memSize, want)
    {
      ghost var i := IndexOfLfree(blocks, lfree, End);
      forall j | 0 <= j < i
        ensures !Admits(blocks, lfree, memSize, want, j)
      {
        assert TileAt(blocks, HDR, End, j);
        if i < |blocks| { TilesOrdered(blocks, HDR, End, j, i); } else { AddrsDiffer(blocks, HDR, End, j, j); }
      }
      ghost var i0 := i;
      ptr := lfree;
      while ptr < memSize - want
        invariant i0 <= i <= |blocks| && ptr == (if i < |blocks| then blocks[i].addr else End)
        invariant forall j :: 0 <= j < i ==> !Admits(blocks, lfree, memSize, want, j)
        decreases |blocks| - i
      {
        NextInHdr(hdr, blocks, End, i);
        assert TileAt(blocks, HDR, End, i);
        var mem := hdr[ptr];
        if !mem.used && mem.next - (ptr + HDR) >= want {
          if i0 < i {
            assert TileAt(blocks, HDR, End, i0);
            TilesOrdered(blocks, HDR, End, i0, i);
          }
          assert FirstFit(blocks, lfree, memSize, want, i);
          return true, ptr;
        }
        assert !Admits(blocks, lfree, memSize, want, i);
        ptr := mem.next;
        i := i + 1;
      }
      forall j | 0 <= j < |blocks|
        ensures !Admits(blocks, lfree, memSize, want, j)
      {
        if i < j {
          assert TileAt(blocks, HDR, End, i) && TileAt(blocks, HDR, End, j);
          TilesOrdered(blocks, HDR, End, i, j);
        }
      }
      found := false;
    }

    /** rt_free.  Null and pointers outside the arena are ignored; any other pointer must be live. */
    method Free(rmem: Ptr)
      requires Valid()
      requires rmem.At? && 0 <= rmem.off < End ==> exists i: nat :: LiveAt(blocks, rmem, i)
      modifies this
      ensures Valid()
      ensures old(LfreeLowest()) ==> LfreeLowest()
      ensures rmem == Null || rmem.off < 0 || rmem.off >= End ==> unchanged(this)
      ensures forall i: nat :: LiveAt(old(blocks), rmem, i) ==>
                blocks == Freed(old(blocks), i) && P.Kept(HDR, Mark(old(blocks), i, false), old(data), data)
                && lfree == LfreeFreed(old(blocks), i, old(lfree)) && usedMem == old(usedMem) - old(blocks)[i].len
      ensures forall i: nat, b: Block :: LiveAt(old(blocks), rmem, i) ==> (InUse(blocks, b) <==> InUse(old(blocks), b) && b != old(blocks)[i])
      ensures maxMem == old(maxMem)
    {
      if rmem == Null { return; }
      if rmem.off < 0 || rmem.off >= End {
        OutsideNotLive(rmem);
        return;
      }
      ghost var i := TheLive(rmem);
      ghost var bs := blocks;
      Release(rmem.off - HDR, i);
      forall b: Block
        ensures InUse(blocks, b) <==> InUse(bs, b) && b != bs[i]
      {
        FreedUsed(bs, HDR, End, i, b);
      }
    }

    /** The body of rt_free once the header has been found. */
    method Release(mem: nat, ghost i: nat)
      requires Valid() && i < |blocks| && blocks[i].addr == mem && blocks[i].used
      modifies this
      ensures Valid()
      ensures old(LfreeLowest()) ==> LfreeLowest()
      ensures blocks == Freed(old(blocks), i) && lfree == LfreeFreed(old(blocks), i, old(lfree)) && maxMem == old(maxMem)
      ensures usedMem == old(usedMem) - old(blocks)[i].len
      ensures P.Kept(HDR, Mark(old(blocks), i, false), old(data), data)
    {
      FreedKeepsTiling(blocks, i, HDR, End);
      FreedLfree(blocks, i, lfree, End);
      NextInHdr(hdr, blocks, End, i);
      assert hdr[mem].used && hdr[mem].magic == HEAP_MAGIC && TileAt(blocks, HDR, End, i);
      usedMem := usedMem - (hdr[mem].next - mem);
      MarkAndPlug(mem, i);
    }

    /** The block becomes free, `lfree` moves down to it if it is lower, and its neighbours are merged. */
    method MarkAndPlug(mem: nat, ghost i: nat)
      requires Core() && i < |blocks| && blocks[i].addr == mem && blocks[i].used
      modifies this`hdr, this`data, this`lfree, this`blocks
      ensures Core() && blocks == Freed(old(blocks), i) && lfree == LfreeFreed(old(blocks), i, old(lfree))
      ensures P.Kept(HDR, Mark(old(blocks), i, false), old(data), data)
    {
      ghost var d := data;
      SetUsed(mem, false, i);
      ghost var m, d1 := blocks, data;
      if mem < lfree {
        lfree := mem;
      }
      PlugHoles(mem, i);
      P.KeptThen(HDR, m, d, d1, data);
    }

    /** rt_realloc.  Null and pointers outside the arena are accepted; any other pointer must be live. */
    method Realloc(rmem: Ptr, newsize: nat) returns (r: Ptr)
      requires Valid() && newsize < U32
      requires rmem.At? && 0 <= rmem.off < End ==> exists i: nat :: LiveAt(blocks, rmem, i)
      modifies this
      ensures Valid()
      ensures Align(newsize) > memSize ==> r == Null && unchanged(this)
      ensures rmem == Null && Align(newsize) == 0 ==> unchanged(this)
      ensures rmem == Null ==> P.Kept(HDR, old(blocks), old(data), data) && maxMem == Max(old(maxMem), usedMem)
      ensures Align(newsize) == 0 ==> r == Null && (forall i: nat :: LiveAt(old(blocks), rmem, i) ==>
                blocks == Freed(old(blocks), i) && lfree == LfreeFreed(old(blocks), i, old(lfree))
                && P.Kept(HDR, Mark(old(blocks), i, false), old(data), data) && maxMem == old(maxMem))
      ensures rmem == Null && 0 < Align(newsize) <= memSize ==>
                Allocated(old(blocks), old(lfree), memSize, Align(newsize), r, blocks, lfree)
      ensures rmem.At? && !(0 <= rmem.off < End) ==> unchanged(this) && (0 < Align(newsize) <= memSize ==> r == rmem)
      ensures forall i: nat :: LiveAt(old(blocks), rmem, i) && 0 < Align(newsize) <= memSize ==>
                Reallocated(old(blocks), old(lfree), memSize, i, Align(newsize), rmem, r, blocks, lfree)
                && maxMem == if r == rmem || r == Null then old(maxMem) else Max(old(maxMem), usedMem + old(blocks)[i].len)
      ensures forall i: nat :: LiveAt(old(blocks), rmem, i) && 0 < Align(newsize) <= memSize ==>
                old(blocks)[i].len >= HDR && ContentsKept(old(blocks), i, Align(newsize), rmem, r, old(data), data)
      ensures old(LfreeLowest())
              && (forall i: nat :: LiveAt(old(blocks), rmem, i) ==> !(0 < Align(newsize) <= memSize && Shrinks(old(blocks), i, Align(newsize))))
              ==> LfreeLowest()
    {
      var want := Align(newsize);
      if want > memSize {
        return Null;
      } else if want == 0 {
        Free(rmem);
        return Null;
      }
      if rmem == Null {
        ghost var m;
        r, m := Malloc(want);
        return;
      }
      if rmem.off < 0 || rmem.off >= End {
        OutsideNotLive(rmem);
        return rmem;
      }
      ghost var i := TheLive(rmem);
      assert TileAt(blocks, HDR, End, i);
      r := ReallocLive(rmem, want, i);
    }

    lemma OutsideNotLive(p: Ptr)
      requires Core() && p.At? && !(0 <= p.off < End)
      ensures forall i: nat :: !LiveAt(blocks, p, i)
    {
      forall i: nat
        ensures !LiveAt(blocks, p, i)
      {
        if LiveAt(blocks, p, i) { LiveInside(blocks, p, i, End); }
      }
    }

    /** The index of a live pointer is unique. */
    lemma TheLive(p: Ptr) returns (i: nat)
      requires Core() && exists i: nat :: LiveAt(blocks, p, i)
      ensures LiveAt(blocks, p, i) && forall o: nat :: LiveAt(blocks, p, o) ==> o == i
    {
      i :| LiveAt(blocks, p, i);
      forall o: nat | LiveAt(blocks, p, o)
        ensures o == i
      {
        AddrsDiffer(blocks, HDR, End, o, i);
      }
    }

    /** rt_realloc on a live block, with the size already aligned and checked. */
    method ReallocLive(rmem: Ptr, want: nat, ghost i: nat) returns (r: Ptr)
      requires Valid() && LiveAt(blocks, rmem, i) && blocks[i].len >= HDR
      requires 0 < want <= memSize && want % 4 == 0
      modifies this
      ensures Valid()
      ensures Reallocated(old(blocks), old(lfree), memSize, i, want, rmem, r, blocks, lfree)
      ensures maxMem == if r == rmem || r == Null then old(maxMem) else Max(old(maxMem), usedMem + old(blocks)[i].len)
      ensures ContentsKept(old(blocks), i, want, rmem, r, old(data), data)
      ensures old(LfreeLowest()) && !Shrinks(old(blocks), i, want) ==> LfreeLowest()
    {
      ghost var bs := blocks;
      var ptr := rmem.off - HDR;
      NextInHdr(hdr, bs, End, i);
      assert TileAt(bs, HDR, End, i);
      var size := hdr[ptr].next - ptr - HDR;
      InArena(bs, End, i);
      if size == want {
        return rmem;
      }
      if want + HDR + MIN_SIZE < size {
        ghost var d := data;
        ShrinkInPlace(ptr, want, i);
        ShrinkContents(bs, i, want, rmem, d, data);
        return rmem;
      }
      r := Move(rmem, size, want, i);
    }

    /** The split path of rt_realloc. */
    method ShrinkInPlace(ptr: nat, newsize: nat, ghost i: nat)
      requires Valid() && i < |blocks| && blocks[i].addr == ptr && blocks[i].used
      requires 0 < newsize && newsize % 4 == 0 && Shrinks(blocks, i, newsize)
      modifies this
      ensures Valid()
      ensures blocks == Shrunk(old(blocks), i, newsize) && maxMem == old(maxMem)
      ensures lfree == LfreePlugged(Split(old(blocks), i, HDR + newsize), i + 1, old(lfree))
      ensures P.Kept(HDR, Split(old(blocks), i, HDR + newsize), old(data), data)
    {
      NextInHdr(hdr, blocks, End, i);
      assert TileAt(blocks, HDR, End, i);
      var size := hdr[ptr].next - ptr - HDR;
      ghost var bs, l := blocks, lfree;
      CutBackTotals(bs, i, HDR + newsize, HDR, End);
      usedMem := usedMem - (size - newsize);
      CutAndPlug(ptr, newsize, i);
      ShrunkValid(bs, i, newsize, l);
    }

    lemma ShrunkValid(bs: seq<Block>, i: nat, size: nat, l: nat)
      requires Core() && Tiles(bs, HDR, End) && Coalesced(bs) && LfreeOk(bs, l, End) && i < |bs| && bs[i].used
      requires 0 < size && size % 4 == 0 && Shrinks(bs, i, size) && blocks == Shrunk(bs, i, size)
      requires lfree == LfreePlugged(Split(bs, i, HDR + size), i + 1, l)
      requires usedMem == UsedBytes(bs) - (bs[i].len - HDR - size) && usedMem <= maxMem
      ensures Valid()
    {
      CutBackApart(bs, i, HDR + size);
      ShrunkLfreeOk(bs, i, HDR + size, l, End);
      CutBackTotals(bs, i, HDR + size, HDR, End);
    }

    /** Cut the block; the remainder merges with a free block behind it. */
    method CutAndPlug(ptr: nat, newsize: nat, ghost i: nat)
      requires Core() && i < |blocks| && blocks[i].addr == ptr && blocks[i].used
      requires 0 < newsize && newsize % 4 == 0 && Shrinks(blocks, i, newsize)
      modifies this`hdr, this`data, this`lfree, this`blocks
      ensures Core() && blocks == Shrunk(old(blocks), i, newsize)
      ensures lfree == LfreePlugged(Split(old(blocks), i, HDR + newsize), i + 1, old(lfree))
      ensures P.Kept(HDR, Split(old(blocks), i, HDR + newsize), old(data), data)
    {
      ghost var d := data;
      CutBlock(ptr, HDR + newsize, i);
      ghost var s, d1 := blocks, data;
      PlugHoles(ptr + HDR + newsize, i + 1);
      P.KeptThen(HDR, s, d, d1, data);
    }

    /** The allocate-copy-free path of rt_realloc. */
    method Move(rmem: Ptr, size: nat, newsize: nat, ghost i: nat) returns (r: Ptr)
      requires Valid() && LiveAt(blocks, rmem, i) && size == blocks[i].len - HDR
      requires 0 < newsize <= memSize && newsize % 4 == 0
      modifies this
      ensures Valid()
      ensures r == Null ==> data == old(data)
      ensures Moved(old(blocks), old(lfree), memSize, i, newsize, r, blocks, lfree) && r != rmem
      ensures maxMem == if r == Null then old(maxMem) else Max(old(maxMem), usedMem + old(blocks)[i].len)
      ensures r != Null ==> SameBytes(old(data), rmem, data, r, if size < newsize then size else newsize)
      ensures P.Kept(HDR, Mark(old(blocks), i, false), old(data), data)
      ensures old(LfreeLowest()) ==> LfreeLowest()
    {
      ghost var bs, d0 := blocks, data;
      AlignedStays(newsize);
      ghost var m;
      r, m := Malloc(newsize);
      if r != Null {
        AddrsDiffer(bs, HDR, End, m, i);
        MoveInto(rmem, r, if size < newsize then size else newsize, bs, d0, old(lfree), m, newsize, i);
      }
    }

    /** The copy-free part of Move, related to the tiling `bs`, the bytes `d0` and the lfree `l0` before
        the allocation. */
    method MoveInto(rmem: Ptr, nmem: Ptr, n: nat, ghost bs: seq<Block>, ghost d0: seq<bv8>, ghost l0: nat, ghost m: nat, ghost size: nat, ghost i: nat)
      requires Valid() && m < |bs| && !bs[m].used && LiveAt(bs, rmem, i) && LiveAt(blocks, nmem, m)
      requires blocks == Taken(bs, m, Want(size)) && bs[m].addr == blocks[m].addr
      requires FirstFit(bs, l0, memSize, Want(size), m) && lfree == LfreeTaken(bs, m, Want(size), l0, memSize + HDR)
      requires n <= blocks[m].len - HDR && n <= bs[i].len - HDR
      requires P.Kept(HDR, bs, d0, data)
      modifies this
      ensures Valid()
      ensures Moved(bs, l0, memSize, i, size, nmem, blocks, lfree)
      ensures usedMem == old(usedMem) - bs[i].len && maxMem == old(maxMem)
      ensures SameBytes(d0, rmem, data, nmem, n)
      ensures P.Kept(HDR, Mark(bs, i, false), d0, data)
      ensures old(LfreeLowest()) ==> LfreeLowest()
    {
      ghost var t, l := blocks, lfree;
      MoveBytes(rmem, nmem, n, bs, d0, m, Want(size), i);
      MovedBy(bs, l0, memSize, i, size, m, nmem, t, l, blocks, lfree);
    }

    /** The same, as far as the blocks and the bytes are concerned. */
    method MoveBytes(rmem: Ptr, nmem: Ptr, n: nat, ghost bs: seq<Block>, ghost d0: seq<bv8>, ghost m: nat, ghost want: nat, ghost i: nat)
      requires Valid() && m < |bs| && !bs[m].used && LiveAt(bs, rmem, i) && LiveAt(blocks, nmem, m)
      requires blocks == Taken(bs, m, want) && bs[m].addr == blocks[m].addr
      requires n <= blocks[m].len - HDR && n <= bs[i].len - HDR
      requires P.Kept(HDR, bs, d0, data)
      modifies this
      ensures Valid()
      ensures MovedIndex(bs, m, want, i) < |old(blocks)|
      ensures blocks == Freed(old(blocks), MovedIndex(bs, m, want, i))
      ensures lfree == LfreeFreed(old(blocks), MovedIndex(bs, m, want, i), old(lfree))
      ensures usedMem == old(usedMem) - bs[i].len && maxMem == old(maxMem)
      ensures SameBytes(d0, rmem, data, nmem, n)
      ensures P.Kept(HDR, Mark(bs, i, false), d0, data)
      ensures old(LfreeLowest()) ==> LfreeLowest()
    {
      ghost var i' := MovedIndex(bs, m, want, i);
      TakenSameBlock(bs, m, want, i);
      ghost var t, d1 := blocks, data;
      ghost var d2 := Relocate(rmem, nmem, n, m, i');
      MoveArrives(bs, t, End, m, want, i, n, rmem, nmem, d0, d1, d2, data);
    }

    /** Copy `n` payload bytes from the old block to the new one, then free the old one;
        `copied` is the arena between the two. */
    method Relocate(rmem: Ptr, nmem: Ptr, n: nat, ghost m: nat, ghost i: nat) returns (ghost copied: seq<bv8>)
      requires Valid() && LiveAt(blocks, rmem, i) && LiveAt(blocks, nmem, m)
      requires n <= blocks[m].len - HDR && n <= blocks[i].len - HDR
      modifies this
      ensures Valid()
      ensures blocks == Freed(old(blocks), i) && lfree == LfreeFreed(old(blocks), i, old(lfree))
      ensures usedMem == old(usedMem) - old(blocks)[i].len && maxMem == old(maxMem)
      ensures rmem.off + n <= |old(data)| && nmem.off + n <= |old(data)|
      ensures copied == old(data)[..nmem.off] + old(data)[rmem.off..rmem.off + n] + old(data)[nmem.off + n..]
      ensures P.Kept(HDR, Mark(old(blocks), i, false), copied, data)
      ensures old(LfreeLowest()) ==> LfreeLowest()
    {
      InArena(blocks, End, m);
      InArena(blocks, End, i);
      data := data[..nmem.off] + data[rmem.off..rmem.off + n] + data[nmem.off + n..];
      copied := data;
      Free(rmem);
    }
  }
}

/**
  Address-ordered tilings of an arena by blocks.  Both header-in-place allocators of the kernel
  (the small heap and the memheap) keep such a tiling in their `next`/`prev` links; this module
  states what a tiling is, the three moves the allocators make on it, and what each move keeps.
*/
module Tiling {

  /** One tile: `len` bytes from `addr`, its header included. */
  datatype Block = Block(addr: nat, len: nat, used: bool)

  /** Address of the tile after tile `i`; `end` after the last one. */
  function NextAddr(bs: seq<Block>, i: nat, end: nat): nat
    requires i < |bs|
  {
    if i + 1 < |bs| then bs[i + 1].addr else end
  }

  /** Block `i` is a 4-aligned tile with a non-empty payload, and ends where the next one begins. */
  ghost predicate TileAt(bs: seq<Block>, hdr: nat, end: nat, i: nat)
    requires i < |bs|
  {
    && bs[i].addr % 4 == 0
    && bs[i].len % 4 == 0
    && bs[i].len > hdr
    && bs[i].addr + bs[i].len == NextAddr(bs, i, end)
  }

  /** The blocks cover [0, end) without gap or overlap, as 4-aligned tiles. */
  ghost predicate Tiles(bs: seq<Block>, hdr: nat, end: nat) {
    && |bs| > 0
    && bs[0].addr == 0
    && (forall i :: 0 <= i < |bs| ==> TileAt(bs, hdr, end, i))
  }

  /** Blocks `i` and `i + 1` are not both free. */
  ghost predicate Apart(bs: seq<Block>, i: nat)
    requires i + 1 < |bs|
  {
    bs[i].used || bs[i + 1].used
  }

  /** No two neighbouring blocks are both free. */
  ghost predicate Coalesced(bs: seq<Block>) {
    forall i :: 0 <= i < |bs| - 1 ==> Apart(bs, i)
  }

  /** Coalesced, except possibly for the two pairs that block `m` belongs to. */
  ghost predicate CoalescedBut(bs: seq<Block>, m: int) {
    forall i :: 0 <= i < |bs| - 1 && i != m && i + 1 != m ==> Apart(bs, i)
  }

  function Mark(bs: seq<Block>, i: nat, used: bool): seq<Block>
    requires i < |bs|
  {
    bs[i := bs[i].(used := used)]
  }

  /** Cut block `i` after `len` bytes; the remainder is free. */
  function Split(bs: seq<Block>, i: nat, len: nat): seq<Block>
    requires i < |bs| && len <= bs[i].len
  {
    bs[..i] + [Block(bs[i].addr, len, bs[i].used), Block(bs[i].addr + len, bs[i].len - len, false)] + bs[i + 1..]
  }

  /** Absorb block `i + 1` into block `i`. */
  function Merge(bs: seq<Block>, i: nat): seq<Block>
    requires i + 1 < |bs|
  {
    bs[..i] + [Block(bs[i].addr, bs[i].len + bs[i + 1].len, bs[i].used)] + bs[i + 2..]
  }

  /** Merge the free block `i` with its free neighbours, forward first. */
  function Plug(bs: seq<Block>, i: nat): seq<Block>
    requires i < |bs|
  {
    var fwd := if i + 1 < |bs| && !bs[i + 1].used then Merge(bs, i) else bs;
    if i > 0 && !bs[i - 1].used then Merge(fwd, i - 1) else fwd
  }

  /** Total length of the used blocks, headers included. */
  function UsedBytes(bs: seq<Block>): nat {
    if bs == [] then 0 else UsedBytes(bs[..|bs| - 1]) + (if bs[|bs| - 1].used then bs[|bs| - 1].len else 0)
  }

  /** Total payload of the free blocks. */
  function FreeBytes(bs: seq<Block>, hdr: nat): int {
    if bs == [] then 0 else FreeBytes(bs[..|bs| - 1], hdr) + (if bs[|bs| - 1].used then 0 else bs[|bs| - 1].len - hdr)
  }

  /** Tiles are in address order and never overlap. */
  lemma {:induction false} TilesOrdered(bs: seq<Block>, hdr: nat, end: nat, i: nat, j: nat)
    requires Tiles(bs, hdr, end)
    requires i < j < |bs|
    ensures bs[i].addr + bs[i].len <= bs[j].addr
    ensures bs[j].addr + bs[j].len <= end
    decreases |bs| - i
  {
    assert TileAt(bs, hdr, end, i) && TileAt(bs, hdr, end, j);
    if i + 1 < j {
      TilesOrdered(bs, hdr, end, i + 1, j);
    } else if j + 1 < |bs| {
      TilesOrdered(bs, hdr, end, j, |bs| - 1);
    }
  }

  lemma TilesOrderedAll(bs: seq<Block>, hdr: nat, end: nat)
    requires Tiles(bs, hdr, end)
    ensures forall i, j :: 0 <= i < j < |bs| ==> bs[i].addr + bs[i].len <= bs[j].addr
    ensures forall i :: 0 <= i < |bs| ==> bs[i].addr + bs[i].len <= end
    ensures forall i, j :: 0 <= i < |bs| && 0 <= j < |bs| && bs[i].addr == bs[j].addr ==> i == j
  {
    forall i | 0 <= i < |bs|
      ensures bs[i].len > 0
    {
      assert TileAt(bs, hdr, end, i);
    }
    forall i, j | 0 <= i < j < |bs|
      ensures bs[i].addr + bs[i].len <= bs[j].addr
    {
      TilesOrdered(bs, hdr, end, i, j);
    }
    forall i | 0 <= i < |bs|
      ensures bs[i].addr + bs[i].len <= end
    {
      assert TileAt(bs, hdr, end, i);
      if i < |bs| - 1 { TilesOrdered(bs, hdr, end, i, |bs| - 1); }
    }
  }

  /** Different blocks have different addresses, all below `end`. */
  lemma AddrsDiffer(bs: seq<Block>, hdr: nat, end: nat, i: nat, j: nat)
    requires Tiles(bs, hdr, end)
    requires i < |bs| && j < |bs|
    ensures bs[i].addr < end
    ensures i != j ==> bs[i].addr != bs[j].addr
  {
    assert TileAt(bs, hdr, end, i) && TileAt(bs, hdr, end, j);
    if i < j {
      TilesOrdered(bs, hdr, end, i, j);
    } else if j < i {
      TilesOrdered(bs, hdr, end, j, i);
    } else if i < |bs| - 1 {
      TilesOrdered(bs, hdr, end, i, |bs| - 1);
    }
  }

  lemma SplitTiles(bs: seq<Block>, hdr: nat, end: nat, i: nat, len: nat)
    requires Tiles(bs, hdr, end) && i < |bs|
    requires hdr < len && len + hdr < bs[i].len && len % 4 == 0
    ensures Tiles(Split(bs, i, len), hdr, end)
  {
    var b := Split(bs, i, len);
    assert TileAt(bs, hdr, end, i);
    forall k | 0 <= k < |b|
      ensures TileAt(b, hdr, end, k)
    {
      if k < i {
        assert TileAt(bs, hdr, end, k);
      } else if k > i + 1 {
        assert TileAt(bs, hdr, end, k - 1);
      }
    }
  }

  lemma MergeTiles(bs: seq<Block>, hdr: nat, end: nat, i: nat)
    requires Tiles(bs, hdr, end) && i + 1 < |bs|
    ensures Tiles(Merge(bs, i), hdr, end)
  {
    var b := Merge(bs, i);
    assert TileAt(bs, hdr, end, i) && TileAt(bs, hdr, end, i + 1);
    forall k | 0 <= k < |b|
      ensures TileAt(b, hdr, end, k)
    {
      if k < i {
        assert TileAt(bs, hdr, end, k);
      } else if k > i {
        assert TileAt(bs, hdr, end, k + 1);
      }
    }
  }

  lemma {:induction false} UsedBytesConcat(a: seq<Block>, b: seq<Block>)
    ensures UsedBytes(a + b) == UsedBytes(a) + UsedBytes(b)
    decreases |b|
  {
    if b == [] {
      assert a + b == a;
    } else {
      assert (a + b)[..|a + b| - 1] == a + b[..|b| - 1];
      UsedBytesConcat(a, b[..|b| - 1]);
    }
  }

  lemma {:induction false} FreeBytesConcat(a: seq<Block>, b: seq<Block>, hdr: nat)
    ensures FreeBytes(a + b, hdr) == FreeBytes(a, hdr) + FreeBytes(b, hdr)
    decreases |b|
  {
    if b == [] {
      assert a + b == a;
    } else {
      assert (a + b)[..|a + b| - 1] == a + b[..|b| - 1];
      FreeBytesConcat(a, b[..|b| - 1], hdr);
    }
  }

  function Gain(b: Block): nat { if b.used then b.len else 0 }

  function FreeGain(b: Block, hdr: nat): int { if b.used then 0 else b.len - hdr }

  lemma TotalsOfOne(b: Block, hdr: nat)
    ensures UsedBytes([b]) == Gain(b) && FreeBytes([b], hdr) == FreeGain(b, hdr)
  {
    assert [b][..0] == [];
  }

  lemma TotalsOfTwo(b: Block, c: Block, hdr: nat)
    ensures UsedBytes([b, c]) == Gain(b) + Gain(c)
    ensures FreeBytes([b, c], hdr) == FreeGain(b, hdr) + FreeGain(c, hdr)
  {
    assert [b, c] == [b] + [c];
    UsedBytesConcat([b], [c]);
    FreeBytesConcat([b], [c], hdr);
    TotalsOfOne(b, hdr);
    TotalsOfOne(c, hdr);
  }

  /** Totals of a sequence with a segment `mid` exchanged for `mid'`. */
  lemma TotalsExchange(pre: seq<Block>, mid: seq<Block>, mid': seq<Block>, post: seq<Block>, hdr: nat)
    ensures UsedBytes(pre + mid' + post) - UsedBytes(mid') == UsedBytes(pre + mid + post) - UsedBytes(mid)
    ensures FreeBytes(pre + mid' + post, hdr) - FreeBytes(mid', hdr) == FreeBytes(pre + mid + post, hdr) - FreeBytes(mid, hdr)
  {
    UsedBytesConcat(pre + mid, post);
    UsedBytesConcat(pre, mid);
    UsedBytesConcat(pre + mid', post);
    UsedBytesConcat(pre, mid');
    FreeBytesConcat(pre + mid, post, hdr);
    FreeBytesConcat(pre, mid, hdr);
    FreeBytesConcat(pre + mid', post, hdr);
    FreeBytesConcat(pre, mid', hdr);
  }

  lemma MarkTotals(bs: seq<Block>, i: nat, used: bool, hdr: nat)
    requires i < |bs|
    ensures UsedBytes(Mark(bs, i, used)) == UsedBytes(bs) - Gain(bs[i]) + (if used then bs[i].len else 0)
    ensures FreeBytes(Mark(bs, i, used), hdr) == FreeBytes(bs, hdr) - FreeGain(bs[i], hdr) + (if used then 0 else bs[i].len - hdr)
  {
    var b := bs[i].(used := used);
    assert bs == bs[..i] + [bs[i]] + bs[i + 1..];
    assert Mark(bs, i, used) == bs[..i] + [b] + bs[i + 1..];
    TotalsExchange(bs[..i], [bs[i]], [b], bs[i + 1..], hdr);
    TotalsOfOne(b, hdr);
    TotalsOfOne(bs[i], hdr);
  }

  lemma SplitTotals(bs: seq<Block>, i: nat, len: nat, hdr: nat)
    requires i < |bs| && len <= bs[i].len
    ensures UsedBytes(Split(bs, i, len)) == UsedBytes(bs) - (if bs[i].used then bs[i].len - len else 0)
    ensures FreeBytes(Split(bs, i, len), hdr) == FreeBytes(bs, hdr) + (if bs[i].used then bs[i].len - len else 0) - hdr
  {
    var b, c := Block(bs[i].addr, len, bs[i].used), Block(bs[i].addr + len, bs[i].len - len, false);
    assert bs == bs[..i] + [bs[i]] + bs[i + 1..];
    TotalsExchange(bs[..i], [bs[i]], [b, c], bs[i + 1..], hdr);
    TotalsOfOne(bs[i], hdr);
    TotalsOfTwo(b, c, hdr);
  }

  lemma MergeTotals(bs: seq<Block>, i: nat, hdr: nat)
    requires i + 1 < |bs| && !bs[i].used && !bs[i + 1].used
    ensures UsedBytes(Merge(bs, i)) == UsedBytes(bs)
    ensures FreeBytes(Merge(bs, i), hdr) == FreeBytes(bs, hdr) + hdr
  {
    var b := Block(bs[i].addr, bs[i].len + bs[i + 1].len, bs[i].used);
    assert bs == bs[..i] + [bs[i], bs[i + 1]] + bs[i + 2..];
    TotalsExchange(bs[..i], [bs[i], bs[i + 1]], [b], bs[i + 2..], hdr);
    TotalsOfOne(b, hdr);
    TotalsOfTwo(bs[i], bs[i + 1], hdr);
  }

  lemma MergeUsedTotals(bs: seq<Block>, i: nat, hdr: nat)
    requires i + 1 < |bs| && bs[i].used && !bs[i + 1].used
    ensures UsedBytes(Merge(bs, i)) == UsedBytes(bs) + bs[i + 1].len
    ensures FreeBytes(Merge(bs, i), hdr) == FreeBytes(bs, hdr) - (bs[i + 1].len - hdr)
  {
    var b := Block(bs[i].addr, bs[i].len + bs[i + 1].len, bs[i].used);
    assert bs == bs[..i] + [bs[i], bs[i + 1]] + bs[i + 2..];
    TotalsExchange(bs[..i], [bs[i], bs[i + 1]], [b], bs[i + 2..], hdr);
    TotalsOfOne(b, hdr);
    TotalsOfTwo(bs[i], bs[i + 1], hdr);
  }

  /** The forward half of a plug leaves only the pair before block `i` unsettled. */
  lemma PlugForward(bs: seq<Block>, i: nat)
    requires i + 1 < |bs| && !bs[i].used && !bs[i + 1].used
    requires CoalescedBut(bs, i)
    ensures var fwd := Merge(bs, i); forall k :: 0 <= k < |fwd| - 1 && k + 1 != i ==> Apart(fwd, k)
  {
    var fwd := Merge(bs, i);
    forall k | 0 <= k < |fwd| - 1 && k + 1 != i
      ensures Apart(fwd, k)
    {
      assert Apart(bs, if k < i then k else k + 1);
    }
  }

  lemma PlugBackward(bs: seq<Block>, i: nat)
    requires 0 < i < |bs| && !bs[i].used && !bs[i - 1].used
    requires forall k :: 0 <= k < |bs| - 1 && k + 1 != i ==> Apart(bs, k)
    requires i > 1 ==> bs[i - 2].used
    ensures Coalesced(Merge(bs, i - 1))
  {
    var b := Merge(bs, i - 1);
    forall k | 0 <= k < |b| - 1
      ensures Apart(b, k)
    {
      assert k != i - 2 ==> Apart(bs, if k < i - 1 then k else k + 1);
    }
  }

  /** Plugging keeps the tiling and the used total, and frees one header for each merge. */
  lemma PlugKeeps(bs: seq<Block>, i: nat, hdr: nat, end: nat)
    requires Tiles(bs, hdr, end) && i < |bs| && !bs[i].used
    ensures Tiles(Plug(bs, i), hdr, end)
    ensures UsedBytes(Plug(bs, i)) == UsedBytes(bs)
    ensures FreeBytes(Plug(bs, i), hdr) == FreeBytes(bs, hdr)
              + (if i + 1 < |bs| && !bs[i + 1].used then hdr else 0)
              + (if i > 0 && !bs[i - 1].used then hdr else 0)
  {
    var fwd := if i + 1 < |bs| && !bs[i + 1].used then Merge(bs, i) else bs;
    if i + 1 < |bs| && !bs[i + 1].used {
      MergeTiles(bs, hdr, end, i);
      MergeTotals(bs, i, hdr);
    }
    if i > 0 && !bs[i - 1].used {
      MergeTiles(fwd, hdr, end, i - 1);
      MergeTotals(fwd, i - 1, hdr);
    }
  }

  /** Plugging a free block restores coalescing. */
  lemma PlugRestores(bs: seq<Block>, i: nat)
    requires i < |bs| && !bs[i].used
    requires CoalescedBut(bs, i)
    ensures Coalesced(Plug(bs, i))
  {
    var fwd := if i + 1 < |bs| && !bs[i + 1].used then Merge(bs, i) else bs;
    if i + 1 < |bs| && !bs[i + 1].used {
      PlugForward(bs, i);
    }
    assert forall k :: 0 <= k < |fwd| - 1 && k + 1 != i ==> Apart(fwd, k);
    if i > 0 && !bs[i - 1].used {
      assert i > 1 ==> Apart(bs, i - 2);
      PlugBackward(fwd, i);
    } else {
      assert i > 0 ==> Apart(fwd, i - 1);
    }
  }

  /** Splitting a free block, using its front and then freeing and plugging it gives back the same tiling. */
  lemma SplitThenPlug(bs: seq<Block>, i: nat, len: nat)
    requires i < |bs| && len <= bs[i].len && !bs[i].used
    requires Coalesced(bs)
    ensures Plug(Mark(Mark(Split(bs, i, len), i, true), i, false), i) == bs
  {
    var s := Split(bs, i, len);
    assert Mark(Mark(s, i, true), i, false) == s;
    assert s[i + 1] == Block(bs[i].addr + len, bs[i].len - len, false);
    assert Merge(s, i) == bs by {
      assert s[i + 2..] == bs[i + 1..];
      assert s[..i] == bs[..i];
    }
    if i > 0 {
      assert Apart(bs, i - 1);
      assert s[i - 1] == bs[i - 1];
    }
  }

  /** The same round trip for a block taken whole. */
  lemma MarkThenPlug(bs: seq<Block>, i: nat)
    requires i < |bs| && !bs[i].used
    requires Coalesced(bs)
    ensures Plug(Mark(Mark(bs, i, true), i, false), i) == bs
  {
    assert Mark(Mark(bs, i, true), i, false) == bs;
    if i > 0 { assert Apart(bs, i - 1); }
    if i + 1 < |bs| { assert Apart(bs, i); }
  }

  /** The tiling after used block `i` is released. */
  function Freed(bs: seq<Block>, i: nat): seq<Block>
    requires i < |bs|
  {
    Plug(Mark(bs, i, false), i)
  }

  /** The tiling after used block `i` is cut to `len` bytes in place. */
  function CutBack(bs: seq<Block>, i: nat, len: nat): seq<Block>
    requires i < |bs| && len <= bs[i].len
  {
    Plug(Split(bs, i, len), i + 1)
  }

  lemma MarkTiles(bs: seq<Block>, hdr: nat, end: nat, i: nat, used: bool)
    requires Tiles(bs, hdr, end) && i < |bs|
    ensures Tiles(Mark(bs, i, used), hdr, end)
  {
    forall k | 0 <= k < |bs|
      ensures TileAt(Mark(bs, i, used), hdr, end, k)
    {
      assert TileAt(bs, hdr, end, k);
    }
  }

  /** Using a whole free block. */
  lemma TakenWhole(bs: seq<Block>, i: nat, hdr: nat, end: nat)
    requires Tiles(bs, hdr, end) && Coalesced(bs) && i < |bs| && !bs[i].used
    ensures Tiles(Mark(bs, i, true), hdr, end) && Coalesced(Mark(bs, i, true))
    ensures UsedBytes(Mark(bs, i, true)) == UsedBytes(bs) + bs[i].len
    ensures FreeBytes(Mark(bs, i, true), hdr) == FreeBytes(bs, hdr) - (bs[i].len - hdr)
  {
    MarkTiles(bs, hdr, end, i, true);
    MarkTotals(bs, i, true, hdr);
    var t := Mark(bs, i, true);
    forall k | 0 <= k < |t| - 1
      ensures Apart(t, k)
    {
      assert Apart(bs, k);
    }
  }

  /** Using the first `len` bytes of a free block. */
  lemma TakenSplit(bs: seq<Block>, i: nat, len: nat, hdr: nat, end: nat)
    requires Tiles(bs, hdr, end) && Coalesced(bs) && i < |bs| && !bs[i].used
    requires hdr < len && len % 4 == 0 && len + hdr < bs[i].len
    ensures Tiles(Mark(Split(bs, i, len), i, true), hdr, end) && Coalesced(Mark(Split(bs, i, len), i, true))
    ensures UsedBytes(Mark(Split(bs, i, len), i, true)) == UsedBytes(bs) + len
    ensures FreeBytes(Mark(Split(bs, i, len), i, true), hdr) == FreeBytes(bs, hdr) - len
  {
    var s := Split(bs, i, len);
    SplitTiles(bs, hdr, end, i, len);
    SplitTotals(bs, i, len, hdr);
    MarkTiles(s, hdr, end, i, true);
    MarkTotals(s, i, true, hdr);
    var t := Mark(s, i, true);
    forall k | 0 <= k < |t| - 1
      ensures Apart(t, k)
    {
      if k < i {
        assert Apart(bs, k);
      } else if k == i + 1 {
        assert Apart(bs, i);
      } else if k > i {
        assert Apart(bs, k - 1);
      }
    }
  }

  /** Releasing a used block. */
  lemma FreedKeepsTiling(bs: seq<Block>, i: nat, hdr: nat, end: nat)
    requires Tiles(bs, hdr, end) && Coalesced(bs) && i < |bs| && bs[i].used
    ensures Tiles(Mark(bs, i, false), hdr, end) && Tiles(Freed(bs, i), hdr, end) && Coalesced(Freed(bs, i))
    ensures UsedBytes(Freed(bs, i)) == UsedBytes(bs) - bs[i].len
    ensures FreeBytes(Freed(bs, i), hdr) == FreeBytes(bs, hdr) + (bs[i].len - hdr)
              + (if i + 1 < |bs| && !bs[i + 1].used then hdr else 0)
              + (if i > 0 && !bs[i - 1].used then hdr else 0)
  {
    var m := Mark(bs, i, false);
    MarkTiles(bs, hdr, end, i, false);
    MarkTotals(bs, i, false, hdr);
    forall k | 0 <= k < |m| - 1 && k != i && k + 1 != i
      ensures Apart(m, k)
    {
      assert Apart(bs, k);
    }
    PlugKeeps(m, i, hdr, end);
    PlugRestores(m, i);
  }

  /** Cutting a used block back in place. */
  lemma CutBackKeepsTiling(bs: seq<Block>, i: nat, len: nat, hdr: nat, end: nat)
    requires Tiles(bs, hdr, end) && Coalesced(bs) && i < |bs| && bs[i].used
    requires hdr < len && len % 4 == 0 && len + hdr < bs[i].len
    ensures Tiles(Split(bs, i, len), hdr, end)
    ensures Tiles(CutBack(bs, i, len), hdr, end) && Coalesced(CutBack(bs, i, len))
    ensures UsedBytes(CutBack(bs, i, len)) == UsedBytes(bs) - (bs[i].len - len)
    ensures FreeBytes(CutBack(bs, i, len), hdr) == FreeBytes(bs, hdr) + (bs[i].len - len - hdr)
              + (if i + 1 < |bs| && !bs[i + 1].used then hdr else 0)
  {
    SplitTiles(bs, hdr, end, i, len);
    PlugKeeps(Split(bs, i, len), i + 1, hdr, end);
    CutBackApart(bs, i, len);
    CutBackTotals(bs, i, len, hdr, end);
  }

  lemma CutBackApart(bs: seq<Block>, i: nat, len: nat)
    requires Coalesced(bs) && i < |bs| && bs[i].used && len <= bs[i].len
    ensures Coalesced(CutBack(bs, i, len))
  {
    var s := Split(bs, i, len);
    forall k | 0 <= k < |s| - 1 && k != i + 1 && k + 1 != i + 1
      ensures Apart(s, k)
    {
      assert Apart(bs, if k < i then k else k - 1);
    }
    PlugRestores(s, i + 1);
  }

  lemma CutBackTotals(bs: seq<Block>, i: nat, len: nat, hdr: nat, end: nat)
    requires Tiles(bs, hdr, end) && i < |bs| && bs[i].used && hdr < len && len % 4 == 0 && len + hdr < bs[i].len
    ensures UsedBytes(CutBack(bs, i, len)) == UsedBytes(bs) - (bs[i].len - len)
    ensures FreeBytes(CutBack(bs, i, len), hdr) == FreeBytes(bs, hdr) + (bs[i].len - len - hdr)
              + (if i + 1 < |bs| && !bs[i + 1].used then hdr else 0)
  {
    var s := Split(bs, i, len);
    SplitTiles(bs, hdr, end, i, len);
    SplitTotals(bs, i, len, hdr);
    if i + 1 < |bs| { assert s[i + 2] == bs[i + 1]; }
    PlugKeeps(s, i + 1, hdr, end);
  }

  // ---------------------------------------------------------------- what determines a tiling

  /** `b` is a used block of `bs`. */
  predicate InUse(bs: seq<Block>, b: Block) { b.used && b in bs }

  /** A coalesced tiling is determined by its used blocks: the rest of the arena is free, in the largest
      possible pieces. */
  lemma UsedDetermine(bs: seq<Block>, bs': seq<Block>, hdr: nat, end: nat)
    requires Tiles(bs, hdr, end) && Coalesced(bs) && Tiles(bs', hdr, end) && Coalesced(bs')
    requires forall b: Block :: InUse(bs, b) <==> InUse(bs', b)
    ensures bs == bs'
  {
    if |bs| <= |bs'| { SamePrefix(bs, bs', hdr, end, |bs|); } else { SamePrefix(bs', bs, hdr, end, |bs'|); }
    assert bs[..|bs|] == bs && bs'[..|bs'|] == bs';
    if |bs| <= |bs'| { EndReached(bs, bs', hdr, end); } else { EndReached(bs', bs, hdr, end); }
  }

  /** A tiling that is a prefix of another is all of it. */
  lemma EndReached(bs: seq<Block>, bs': seq<Block>, hdr: nat, end: nat)
    requires Tiles(bs, hdr, end) && Tiles(bs', hdr, end) && |bs| <= |bs'| && bs'[..|bs|] == bs
    ensures |bs| == |bs'|
  {
    var k := |bs| - 1;
    assert bs'[k] == bs[k];
    assert TileAt(bs, hdr, end, k) && TileAt(bs', hdr, end, k);
    if |bs| < |bs'| { AddrsDiffer(bs', hdr, end, k + 1, k + 1); }
  }

  lemma {:induction false} SamePrefix(bs: seq<Block>, bs': seq<Block>, hdr: nat, end: nat, k: nat)
    requires Tiles(bs, hdr, end) && Coalesced(bs) && Tiles(bs', hdr, end) && Coalesced(bs')
    requires forall b: Block :: InUse(bs, b) <==> InUse(bs', b)
    requires k <= |bs| && k <= |bs'|
    ensures bs[..k] == bs'[..k]
  {
    if k > 0 {
      SamePrefix(bs, bs', hdr, end, k - 1);
      SameStart(bs, bs', hdr, end, k - 1);
      SameBlock(bs, bs', hdr, end, k - 1);
      assert bs[..k] == bs[..k - 1] + [bs[k - 1]] && bs'[..k] == bs'[..k - 1] + [bs'[k - 1]];
    }
  }

  lemma SameStart(bs: seq<Block>, bs': seq<Block>, hdr: nat, end: nat, k: nat)
    requires Tiles(bs, hdr, end) && Tiles(bs', hdr, end) && k < |bs| && k < |bs'| && bs[..k] == bs'[..k]
    ensures bs[k].addr == bs'[k].addr
  {
    if k > 0 {
      assert bs[k - 1] == bs[..k][k - 1] == bs'[..k][k - 1] == bs'[k - 1];
      assert TileAt(bs, hdr, end, k - 1) && TileAt(bs', hdr, end, k - 1);
    }
  }

  lemma SameBlock(bs: seq<Block>, bs': seq<Block>, hdr: nat, end: nat, k: nat)
    requires Tiles(bs, hdr, end) && Coalesced(bs) && Tiles(bs', hdr, end) && Coalesced(bs')
    requires forall b: Block :: InUse(bs, b) <==> InUse(bs', b)
    requires k < |bs| && k < |bs'| && bs[k].addr == bs'[k].addr
    ensures bs[k] == bs'[k]
  {
    if bs[k].used {
      UsedAtSame(bs, bs', hdr, end, k);
    } else if bs'[k].used {
      UsedAtSame(bs', bs, hdr, end, k);
    } else if bs[k].len < bs'[k].len {
      FreeNotShorter(bs, bs', hdr, end, k);
    } else if bs'[k].len < bs[k].len {
      FreeNotShorter(bs', bs, hdr, end, k);
    }
  }

  lemma UsedAtSame(bs: seq<Block>, bs': seq<Block>, hdr: nat, end: nat, k: nat)
    requires Tiles(bs, hdr, end) && Tiles(bs', hdr, end)
    requires forall b: Block :: InUse(bs, b) <==> InUse(bs', b)
    requires k < |bs| && k < |bs'| && bs[k].addr == bs'[k].addr && bs[k].used
    ensures bs[k] == bs'[k]
  {
    assert InUse(bs, bs[k]) && InUse(bs', bs[k]);
    var j :| 0 <= j < |bs'| && bs'[j] == bs[k];
    AddrsDiffer(bs', hdr, end, j, k);
  }

  /** Behind a free block stands a used one or the end, so a free block cannot be part of a larger one. */
  lemma FreeNotShorter(bs: seq<Block>, bs': seq<Block>, hdr: nat, end: nat, k: nat)
    requires Tiles(bs, hdr, end) && Coalesced(bs) && Tiles(bs', hdr, end)
    requires forall b: Block :: InUse(bs, b) <==> InUse(bs', b)
    requires k < |bs| && k < |bs'| && bs[k].addr == bs'[k].addr && !bs[k].used && !bs'[k].used
    ensures bs[k].len >= bs'[k].len
  {
    if bs[k].len < bs'[k].len {
      EndsInside(bs', hdr, end, k);
      assert TileAt(bs, hdr, end, k);
      assert k + 1 < |bs| && Apart(bs, k);
      assert InUse(bs, bs[k + 1]) && InUse(bs', bs[k + 1]);
      var j :| 0 <= j < |bs'| && bs'[j] == bs[k + 1];
      StartsOutside(bs', hdr, end, k, j);
    }
  }

  lemma EndsInside(bs: seq<Block>, hdr: nat, end: nat, k: nat)
    requires Tiles(bs, hdr, end) && k < |bs|
    ensures bs[k].addr + bs[k].len <= end
  {
    assert TileAt(bs, hdr, end, k);
    if k < |bs| - 1 { TilesOrdered(bs, hdr, end, k, |bs| - 1); }
  }

  /** No block starts inside another. */
  lemma StartsOutside(bs: seq<Block>, hdr: nat, end: nat, k: nat, j: nat)
    requires Tiles(bs, hdr, end) && k < |bs| && j < |bs|
    ensures bs[j].addr <= bs[k].addr || bs[k].addr + bs[k].len <= bs[j].addr
  {
    if j < k { TilesOrdered(bs, hdr, end, j, k); } else if k < j { TilesOrdered(bs, hdr, end, k, j); }
  }

  // ---- the used blocks after each move

  lemma OneOf(bs: seq<Block>, i: nat, b: Block)
    requires i < |bs|
    ensures b in bs <==> b in bs[..i] || b == bs[i] || b in bs[i + 1..]
  {
    assert bs == bs[..i] + [bs[i]] + bs[i + 1..];
  }

  lemma Others(bs: seq<Block>, hdr: nat, end: nat, i: nat, b: Block)
    requires Tiles(bs, hdr, end) && i < |bs|
    ensures b in bs && b != bs[i] <==> b in bs[..i] || b in bs[i + 1..]
  {
    OneOf(bs, i, b);
    if b in bs[..i] {
      var j :| 0 <= j < i && bs[j] == b;
      AddrsDiffer(bs, hdr, end, j, i);
    }
    if b in bs[i + 1..] {
      var j :| i + 1 <= j < |bs| && bs[j] == b;
      AddrsDiffer(bs, hdr, end, j, i);
    }
  }

  lemma MarkUsed(bs: seq<Block>, hdr: nat, end: nat, i: nat, u: bool, b: Block)
    requires Tiles(bs, hdr, end) && i < |bs|
    ensures InUse(Mark(bs, i, u), b) <==> (u && b == bs[i].(used := true)) || (InUse(bs, b) && b != bs[i])
  {
    var m := Mark(bs, i, u);
    OneOf(m, i, b);
    assert m[..i] == bs[..i] && m[i + 1..] == bs[i + 1..];
    Others(bs, hdr, end, i, b);
  }

  lemma SplitUsed(bs: seq<Block>, hdr: nat, end: nat, i: nat, len: nat, b: Block)
    requires Tiles(bs, hdr, end) && i < |bs| && len <= bs[i].len
    ensures InUse(Split(bs, i, len), b) <==> (bs[i].used && b == bs[i].(len := len)) || (InUse(bs, b) && b != bs[i])
  {
    var s := Split(bs, i, len);
    assert s == bs[..i] + ([bs[i].(len := len), Block(bs[i].addr + len, bs[i].len - len, false)] + bs[i + 1..]);
    Others(bs, hdr, end, i, b);
  }

  lemma MergeUsed(bs: seq<Block>, hdr: nat, end: nat, i: nat, b: Block)
    requires Tiles(bs, hdr, end) && i + 1 < |bs| && !bs[i + 1].used
    ensures InUse(Merge(bs, i), b) <==>
      (bs[i].used && b == bs[i].(len := bs[i].len + bs[i + 1].len)) || (InUse(bs, b) && b != bs[i])
  {
    var m := Merge(bs, i);
    assert m == bs[..i] + ([bs[i].(len := bs[i].len + bs[i + 1].len)] + bs[i + 2..]);
    assert bs[i + 1..] == [bs[i + 1]] + bs[i + 2..];
    Others(bs, hdr, end, i, b);
  }

  lemma PlugUsed(bs: seq<Block>, hdr: nat, end: nat, i: nat, b: Block)
    requires Tiles(bs, hdr, end) && i < |bs| && !bs[i].used
    ensures InUse(Plug(bs, i), b) <==> InUse(bs, b)
  {
    var fwd := if i + 1 < |bs| && !bs[i + 1].used then Merge(bs, i) else bs;
    if i + 1 < |bs| && !bs[i + 1].used {
      MergeUsed(bs, hdr, end, i, b);
      MergeTiles(bs, hdr, end, i);
    }
    if i > 0 && !bs[i - 1].used { MergeUsed(fwd, hdr, end, i - 1, b); }
  }

  /** A release takes exactly that block out of use. */
  lemma FreedUsed(bs: seq<Block>, hdr: nat, end: nat, i: nat, b: Block)
    requires Tiles(bs, hdr, end) && i < |bs| && bs[i].used
    ensures InUse(Freed(bs, i), b) <==> InUse(bs, b) && b != bs[i]
  {
    MarkUsed(bs, hdr, end, i, false, b);
    MarkTiles(bs, hdr, end, i, false);
    PlugUsed(Mark(bs, i, false), hdr, end, i, b);
  }

  /** Cutting a used block makes exactly that block shorter. */
  lemma CutBackUsed(bs: seq<Block>, hdr: nat, end: nat, i: nat, len: nat, b: Block)
    requires Tiles(bs, hdr, end) && i < |bs| && bs[i].used && hdr < len && len % 4 == 0 && len + hdr < bs[i].len
    ensures InUse(CutBack(bs, i, len), b) <==> b == Block(bs[i].addr, len, true) || (InUse(bs, b) && b != bs[i])
  {
    SplitUsed(bs, hdr, end, i, len, b);
    SplitTiles(bs, hdr, end, i, len);
    PlugUsed(Split(bs, i, len), hdr, end, i + 1, b);
  }
}

/**
  The bytes of an arena whose blocks carry their headers: which of them an operation may change.
*/
module Payload {
  import opened Tiling

  /** Every payload byte of every used block of `bs` has the same value in `d'` as in `d`. */
  ghost predicate Kept(hdr: nat, bs: seq<Block>, d: seq<bv8>, d': seq<bv8>) {
    && |d'| == |d|
    && forall i, k :: 0 <= i < |bs| && bs[i].used && bs[i].addr + hdr <= k < bs[i].addr + bs[i].len && k < |d| ==> d'[k] == d[k]
  }

  lemma KeptThen(hdr: nat, bs: seq<Block>, d0: seq<bv8>, d1: seq<bv8>, d2: seq<bv8>)
    requires Kept(hdr, bs, d0, d1) && Kept(hdr, bs, d1, d2)
    ensures Kept(hdr, bs, d0, d2)
  {
  }

  /** Kept bytes, as a slice of one payload. */
  lemma KeptSlice(hdr: nat, bs: seq<Block>, d: seq<bv8>, d': seq<bv8>, i: nat, a: nat, n: nat)
    requires Kept(hdr, bs, d, d') && i < |bs| && bs[i].used
    requires bs[i].addr + hdr <= a && a + n <= bs[i].addr + bs[i].len && a + n <= |d|
    ensures d'[a..a + n] == d[a..a + n]
  {
    var x, y := d'[a..a + n], d[a..a + n];
    forall k | 0 <= k < |x|
      ensures x[k] == y[k]
    {
      assert d'[a + k] == d[a + k];
    }
  }

  /** A header at `a` lies outside the payload of every used block. */
  ghost predicate Clear(bs: seq<Block>, hdr: nat, a: int) {
    forall i :: 0 <= i < |bs| && bs[i].used ==> a <= bs[i].addr || bs[i].addr + bs[i].len <= a
  }

  /** Writing a header there keeps every payload. */
  lemma ClearKeeps(bs: seq<Block>, hdr: nat, a: nat, h: seq<bv8>, d: seq<bv8>)
    requires Clear(bs, hdr, a) && |h| == hdr && a + hdr <= |d|
    ensures Kept(hdr, bs, d, d[..a] + h + d[a + hdr..])
  {
  }

  /** The headers of a tiling are clear of its payloads. */
  lemma ClearAddr(bs: seq<Block>, hdr: nat, end: nat, k: nat)
    requires Tiles(bs, hdr, end) && k < |bs|
    ensures Clear(bs, hdr, bs[k].addr)
  {
    forall i | 0 <= i < |bs| && bs[i].used
      ensures bs[k].addr <= bs[i].addr || bs[i].addr + bs[i].len <= bs[k].addr
    {
      if i < k { TilesOrdered(bs, hdr, end, i, k); } else if k < i { TilesOrdered(bs, hdr, end, k, i); }
    }
  }

  lemma ClearEnd(bs: seq<Block>, hdr: nat, end: nat)
    requires Tiles(bs, hdr, end)
    ensures Clear(bs, hdr, end)
  {
    TilesOrderedAll(bs, hdr, end);
  }

  /** So is a place inside a free block. */
  lemma ClearInside(bs: seq<Block>, hdr: nat, end: nat, k: nat, a: nat)
    requires Tiles(bs, hdr, end) && k < |bs| && !bs[k].used
    requires bs[k].addr <= a && a + hdr <= bs[k].addr + bs[k].len
    ensures Clear(bs, hdr, a)
  {
    forall i | 0 <= i < |bs| && bs[i].used
      ensures a <= bs[i].addr || bs[i].addr + bs[i].len <= a
    {
      if i < k { TilesOrdered(bs, hdr, end, i, k); } else if k < i { TilesOrdered(bs, hdr, end, k, i); }
    }
  }

  /** The `n` bytes at `p` in `d` are the `n` bytes at `p'` in `d'`. */
  ghost predicate SameBytes(d: seq<bv8>, p: nat, d': seq<bv8>, p': nat, n: nat) {
    p + n <= |d| && p' + n <= |d'| && d'[p'..p' + n] == d[p..p + n]
  }
}

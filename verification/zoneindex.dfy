/**
  zoneindex (slab.c): which zone serves a request, and how large its chunks are.
*/
module ZoneIndex {
  import opened Division

  const NZONES: nat := 72

  function RoundUp(n: nat, unit: nat): nat
    requires unit > 0
  {
    (n + unit - 1) / unit * unit
  }

  /** Chunk sizes grow in steps of `unit`, an eighth of the power of two below the request. */
  function Unit(n: nat): (unit: nat)
    ensures unit > 0
  {
    if n < 128 then 8
    else if n < 256 then 16
    else if n < 512 then 32
    else if n < 1024 then 64
    else if n < 2048 then 128
    else if n < 4096 then 256
    else if n < 8192 then 512
    else 1024
  }

  /** The number of the first zone of a step size, minus the number of steps below it. */
  function Offset(n: nat): int {
    if n < 128 then -1
    else if n < 256 then 7
    else if n < 512 then 15
    else if n < 1024 then 23
    else if n < 2048 then 31
    else if n < 4096 then 39
    else if n < 8192 then 47
    else 55
  }

  function Chunk(n: nat): nat { RoundUp(n, Unit(n)) }

  function Index(n: nat): int { Chunk(n) / Unit(n) + Offset(n) }

  /** The chunk size that belongs to a zone number. */
  function ChunkOf(zi: nat): nat {
    if zi < 16 then 8 * (zi + 1)
    else if zi < 24 then 16 * (zi - 7)
    else if zi < 32 then 32 * (zi - 15)
    else if zi < 40 then 64 * (zi - 23)
    else if zi < 48 then 128 * (zi - 31)
    else if zi < 56 then 256 * (zi - 39)
    else if zi < 64 then 512 * (zi - 47)
    else 1024 * (zi - 55)
  }

  /** zoneindex, as the source computes it: the chunk size goes back through the argument.  Sizes that no
      zone serves come back unchanged, with zone number 0. */
  method Zoneindex(bytes: nat) returns (size: nat, zi: int)
    ensures bytes < 16384 ==> size == Chunk(bytes) && zi == Index(bytes)
    ensures bytes >= 16384 ==> size == bytes && zi == 0
  {
    var n: int := bytes;
    if n < 128 {
      n := (n + 7) / 8 * 8;
      return n, n / 8 - 1;
    }
    if n < 256 {
      n := (n + 15) / 16 * 16;
      return n, n / 16 + 7;
    }
    if n < 8192 {
      if n < 512 {
        n := (n + 31) / 32 * 32;
        return n, n / 32 + 15;
      }
      if n < 1024 {
        n := (n + 63) / 64 * 64;
        return n, n / 64 + 23;
      }
      if n < 2048 {
        n := (n + 127) / 128 * 128;
        return n, n / 128 + 31;
      }
      if n < 4096 {
        n := (n + 255) / 256 * 256;
        return n, n / 256 + 39;
      }
      n := (n + 511) / 512 * 512;
      return n, n / 512 + 47;
    }
    if n < 16384 {
      n := (n + 1023) / 1024 * 1024;
      return n, n / 1024 + 55;
    }
    return n, 0;
  }

  /** What zoneindex makes of a size. */
  function Rounded(n: nat): nat { if n < 16384 then Chunk(n) else n }

  /** rt_realloc leaves a block of `c` bytes where it is exactly when the new size lies above the next
      smaller chunk size and not above `c`. */
  lemma StaysExactly(zi: nat, n: nat)
    requires zi < NZONES && 0 < n
    ensures Rounded(n) == ChunkOf(zi) <==> (if zi == 0 then 0 else ChunkOf(zi - 1)) < n <= ChunkOf(zi)
  {
    if n < 16384 {
      IndexFits(n);
      ChunkHolds(n);
      if Index(n) == zi { if zi > 0 { ChunkBelow(n); } } else { OtherZone(zi, n); }
    } else {
      LargestChunk(zi);
    }
  }

  lemma LargestChunk(zi: nat)
    requires zi < NZONES
    ensures ChunkOf(zi) <= 16384 && (zi > 0 ==> ChunkOf(zi - 1) < 16384)
  {
  }

  /** A request of another zone number lies outside the range. */
  lemma OtherZone(zi: nat, n: nat)
    requires zi < NZONES && 0 < n < 16384 && Index(n) != zi
    ensures Chunk(n) != ChunkOf(zi) && !((if zi == 0 then 0 else ChunkOf(zi - 1)) < n <= ChunkOf(zi))
  {
    IndexFits(n);
    ChunkHolds(n);
    if Index(n) < zi {
      ChunkGrows(Index(n), zi);
      if Index(n) < zi - 1 { ChunkGrows(Index(n), zi - 1); }
    } else {
      ChunkBelow(n);
      ChunkGrows(zi, Index(n));
      if zi < Index(n) - 1 { ChunkGrows(zi, Index(n) - 1); }
    }
  }

  /** The next smaller chunk is too small for the request. */
  lemma ChunkBelow(n: nat)
    requires 0 < n < 16384 && Index(n) > 0
    ensures ChunkOf(Index(n) - 1) < n
  {
    IndexFits(n);
    ChunkHolds(n);
  }

  /** The chunk holds the request and wastes less than one step, at most an eighth. */
  lemma ChunkHolds(n: nat)
    requires 0 < n < 16384
    ensures n <= Chunk(n) < n + Unit(n) && Chunk(n) <= 16384
    ensures n >= 128 ==> 8 * (Chunk(n) - n) < n
    ensures n < 8192 ==> Chunk(n) <= 8192
  {
  }

  /** The zone number is valid and stands for the chunk size, so zones of one number have one chunk size. */
  lemma IndexFits(n: nat)
    requires 0 < n < 16384
    ensures 0 <= Index(n) < NZONES && ChunkOf(Index(n)) == Chunk(n)
  {
    var unit := Unit(n);
    var q := (n + unit - 1) / unit;
    RoundedUp(n, unit);
    Multiple(q, unit);
    assert Index(n) == q + Offset(n);
  }

  /** Larger zone numbers have larger chunks. */
  lemma ChunkGrows(i: nat, j: nat)
    requires i < j < NZONES
    ensures ChunkOf(i) < ChunkOf(j)
  {
  }

  /** Two requests share a zone number exactly when they get the same chunk size. */
  lemma SameZoneSameChunk(m: nat, n: nat)
    requires 0 < m < 16384 && 0 < n < 16384
    ensures Index(m) == Index(n) <==> Chunk(m) == Chunk(n)
  {
    IndexFits(m);
    IndexFits(n);
    if Index(m) < Index(n) { ChunkGrows(Index(m), Index(n)); }
    if Index(n) < Index(m) { ChunkGrows(Index(n), Index(m)); }
  }

  /** A chunk of the size that was chosen would be chosen again. */
  lemma ChunkIsStable(n: nat)
    requires 0 < n < 16384 && Chunk(n) < 16384
    ensures Chunk(Chunk(n)) == Chunk(n) && Index(Chunk(n)) == Index(n)
  {
    var m := Chunk(n);
    ChunkHolds(n);
    ChunkInSteps(n);
    RoundUpMultiple(m, Unit(m));
    SameZoneSameChunk(n, m);
  }

  /** A chunk size is a multiple of its own step, also where it reaches the next one. */
  lemma ChunkInSteps(n: nat)
    requires 0 < n < 16384
    ensures Chunk(n) % Unit(Chunk(n)) == 0
  {
    RoundedMultiple(n, Unit(n));
  }

  lemma RoundedMultiple(n: nat, unit: nat)
    requires unit > 0
    ensures RoundUp(n, unit) % unit == 0
  {
    Multiple((n + unit - 1) / unit, unit);
  }

  lemma RoundUpMultiple(m: nat, unit: nat)
    requires unit > 0 && m % unit == 0
    ensures RoundUp(m, unit) == m
  {
    QuotientUnique(m + unit - 1, unit, m / unit);
  }
}

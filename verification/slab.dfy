/**
  The slab allocator (slab.c): zones of equal chunks on top of the page allocator.  A zone is known by
  its first page; a chunk by its zone and its number.
*/
module Slab {
  import opened Division
  import opened Lists
  import opened ZoneIndex
  import P = Pages

  const PAGE: nat := 4096
  const HEADER: nat := 36            // sizeof(slab_zone): nine 32-bit words
  const THRESHOLD: nat := 2          // ZONE_RELEASE_THRESH
  const U32: nat := 0x1_0000_0000

  // ---------------------------------------------------------------- the layout of a zone

  /** The chunk sizes for which (size | (size - 1)) + 1 == size << 1. */
  predicate PowerOfTwo(c: nat) {
    c in {8, 16, 32, 64, 128, 256, 512, 1024, 2048, 4096, 8192, 16384}
  }

  /** Offset of the chunk array in its zone. */
  function Base(c: nat): nat { if PowerOfTwo(c) then RoundUp(HEADER, c) else RoundUp(HEADER, 8) }

  /** Zones are 32, 64 or 128 KiB. */
  predicate ZonePages(zp: nat) { zp == 8 || zp == 16 || zp == 32 }

  /** Requests from here on go to the page allocator. */
  function Limit(zp: nat): nat { if zp * PAGE / 4 > 16384 then 16384 else zp * PAGE / 4 }

  function Nmax(zp: nat, c: nat): nat
    requires c > 0 && Base(c) <= zp * PAGE
  {
    (zp * PAGE - Base(c)) / c
  }

  function Addr(z: nat, c: nat, k: nat): nat { z * PAGE + Base(c) + k * c }

  /** A chunk size that requests below the limit can get. */
  predicate ChunkSize(zp: nat, c: nat) { 8 <= c <= 16384 && c % 8 == 0 && 4 * c <= zp * PAGE }

  lemma BaseBound(c: nat)
    requires 8 <= c <= 16384
    ensures HEADER <= Base(c) <= HEADER + c
  {
    RoundedUp(HEADER, c);
  }

  /** The chunk array starts at the first multiple behind the header: of the chunk size if that is a power of two,
      of eight otherwise. */
  lemma BaseExactly(c: nat)
    requires 8 <= c <= 16384
    ensures var align := if PowerOfTwo(c) then c else 8; HEADER <= Base(c) < HEADER + align && Base(c) % align == 0
  {
    var align := if PowerOfTwo(c) then c else 8;
    RoundedUp(HEADER, align);
    Multiple((HEADER + align - 1) / align, align);
  }

  /** A zone has room for at least two chunks, and no chunk reaches past the end of its zone. */
  lemma ZoneHolds(zp: nat, c: nat)
    requires ZonePages(zp) && ChunkSize(zp, c)
    ensures Base(c) <= zp * PAGE && Nmax(zp, c) >= 2 && Base(c) + Nmax(zp, c) * c <= zp * PAGE
  {
    BaseBound(c);
    Quotient(zp * PAGE - Base(c), c);
    if Nmax(zp, c) < 2 { Times(Nmax(zp, c) + 1, 2, c); }
  }

  /** One chunk more would reach past the end of the zone. */
  lemma ZoneIsFilled(zp: nat, c: nat)
    requires ZonePages(zp) && ChunkSize(zp, c)
    ensures Base(c) <= zp * PAGE < Base(c) + Nmax(zp, c) * c + c
  {
    BaseBound(c);
    Quotient(zp * PAGE - Base(c), c);
  }

  /** Slot `k` of an array that fits between `lo` and `hi`. */
  lemma Slots(lo: nat, b: nat, hi: nat, c: nat, k: nat, n: nat)
    requires lo <= b && b + n * c <= hi && k < n
    ensures lo <= b + k * c && b + k * c + c <= hi
  {
    Times(k + 1, n, c);
    Product(k, c);
  }

  /** Every chunk lies behind the header of its zone and before its end. */
  lemma ChunkInside(zp: nat, z: nat, c: nat, k: nat)
    requires ZonePages(zp) && ChunkSize(zp, c) && (Base(c) <= zp * PAGE ==> k < Nmax(zp, c))
    ensures z * PAGE + HEADER <= Addr(z, c, k) && Addr(z, c, k) + c <= z * PAGE + zp * PAGE
  {
    ZoneHolds(zp, c);
    BaseBound(c);
    Slots(z * PAGE + HEADER, z * PAGE + Base(c), z * PAGE + zp * PAGE, c, k, Nmax(zp, c));
  }

  /** Chunks of one zone do not overlap. */
  lemma ChunksApart(z: nat, c: nat, j: nat, k: nat)
    requires j < k
    ensures Addr(z, c, j) + c <= Addr(z, c, k)
  {
    Times(j + 1, k, c);
  }

  /** The page of an address between two page boundaries. */
  lemma PageOf(a: nat, z: nat, zp: nat)
    requires z * PAGE <= a < z * PAGE + zp * PAGE
    ensures P.Within(z, zp, a / PAGE)
  {
    Quotient(a, PAGE);
  }

  /** The page of a chunk's address is a page of its zone, and its number can be computed back. */
  lemma AddrFinds(zp: nat, z: nat, c: nat, k: nat)
    requires ZonePages(zp) && ChunkSize(zp, c) && (Base(c) <= zp * PAGE ==> k < Nmax(zp, c))
    ensures P.Within(z, zp, Addr(z, c, k) / PAGE)
    ensures (Addr(z, c, k) - z * PAGE - Base(c)) / c == k
  {
    ChunkInside(zp, z, c, k);
    PageOf(Addr(z, c, k), z, zp);
    Multiple(k, c);
  }

  /** The promise that chunks of a power of two are aligned to their size is kept for every chunk of a
      zone exactly when the zone itself starts at a multiple of that size; up to the page size it does. */
  lemma PowerOfTwoAlignedExactly(z: nat, c: nat)
    requires PowerOfTwo(c)
    ensures (forall k: nat :: Addr(z, c, k) % c == 0) <==> z * PAGE % c == 0
    ensures c <= PAGE ==> z * PAGE % c == 0
  {
    Multiple((HEADER + c - 1) / c, c);
    forall k: nat
      ensures Addr(z, c, k) % c == z * PAGE % c
    {
      SameRest(z * PAGE, (HEADER + c - 1) / c + k, c);
      assert ((HEADER + c - 1) / c + k) * c == Base(c) + k * c;
    }
    assert Addr(z, c, 0) % c == z * PAGE % c;
    if c <= PAGE { PageMultiple(z, c); }
  }

  lemma SameRest(x: nat, q: nat, c: nat)
    requires c > 0
    ensures (x + q * c) % c == x % c
  {
    Quotient(x, c);
    assert x / c * c <= x;
    assert (x / c + q) * c == x / c * c + q * c;
    QuotientUnique(x + q * c, c, x / c + q);
    assert x == x / c * c + x % c;
    assert x + q * c == (x + q * c) / c * c + (x + q * c) % c;
  }

  lemma PageMultiple(z: nat, c: nat)
    requires PowerOfTwo(c) && c <= PAGE
    ensures z * PAGE % c == 0
  {
    assert PAGE % c == 0;
    assert PAGE == PAGE / c * c;
    assert z * PAGE == (z * (PAGE / c)) * c;
    Multiple(z * (PAGE / c), c);
  }

  // ---------------------------------------------------------------- pages and who has them

  /** memusage of a page. */
  datatype Usage = FreePage | SmallPage(offset: nat) | LargePage(count: nat)

  /** Who holds a page: the zone that starts at page z, or a large allocation of n pages from a on. */
  datatype Owner = InZone(z: nat) | InLarge(a: nat, n: nat)

  datatype Store = Store(pages: seq<P.Run>, usage: map<nat, Usage>, owner: map<nat, Owner>)

  function Claimed(owner: map<nat, Owner>, a: nat, n: nat, o: Owner): map<nat, Owner> {
    map p | p in owner.Keys + P.Span(a, n) :: if P.Within(a, n, p) then o else if p in owner then owner[p] else o
  }

  function Marked(usage: map<nat, Usage>, z: nat, zp: nat): map<nat, Usage> {
    map p | p in usage.Keys + P.Span(z, zp) :: if P.Within(z, zp, p) then SmallPage(p - z) else if p in usage then usage[p] else FreePage
  }

  function Unmarked(usage: map<nat, Usage>, z: nat, zp: nat): map<nat, Usage> {
    map p | p in usage.Keys + P.Span(z, zp) :: if P.Within(z, zp, p) then FreePage else if p in usage then usage[p] else FreePage
  }

  function TakeZone(st: Store, zp: nat): (Store, P.Option) {
    var (pages, some) := P.Alloc(st.pages, zp);
    if some.None? then (st, some)
    else (Store(pages, Marked(st.usage, some.page, zp), Claimed(st.owner, some.page, zp, InZone(some.page))), some)
  }

  function GiveZone(st: Store, zp: nat, z: nat): Store {
    Store(P.Release(st.pages, z, zp), Unmarked(st.usage, z, zp), st.owner - P.Span(z, zp))
  }

  function TakeLarge(st: Store, n: nat): (Store, P.Option) {
    var (pages, some) := P.Alloc(st.pages, n);
    if some.None? then (st, some)
    else (Store(pages, st.usage[some.page := LargePage(n)], Claimed(st.owner, some.page, n, InLarge(some.page, n))), some)
  }

  function GiveLarge(st: Store, a: nat, n: nat): Store {
    Store(P.Release(st.pages, a, n), st.usage[a := LargePage(0)], st.owner - P.Span(a, n))
  }

  /** All pages of a large allocation belong to it. */
  ghost predicate Whole(owner: map<nat, Owner>, a: nat, n: nat, o: Owner) {
    forall p :: P.Within(a, n, p) ==> p in owner && owner[p] == o
  }

  /** What the records say about an owned page. */
  ghost predicate OwnerOk(st: Store, zp: nat, zs: set<nat>, p: nat)
    requires p in st.owner
  {
    match st.owner[p]
    case InZone(z) => z in zs && P.Within(z, zp, p) && p in st.usage && st.usage[p] == SmallPage(p - z)
    case InLarge(a, n) => P.Within(a, n, p) && a in st.usage && st.usage[a] == LargePage(n) && Whole(st.owner, a, n, InLarge(a, n))
  }

  /** Every page of the heap is free or has one owner; a zone in `zs` owns all its pages. */
  ghost predicate StoreInv(st: Store, zp: nat, zs: set<nat>, heap: set<nat>) {
    && P.Ordered(st.pages)
    && (forall p: nat :: P.Free(st.pages, p) <==> p in heap && p !in st.owner)
    && (forall p :: p in st.owner ==> p in heap && OwnerOk(st, zp, zs, p))
    && (forall z :: z in zs ==> Whole(st.owner, z, zp, InZone(z)))
  }

  lemma ClaimedAre(owner: map<nat, Owner>, a: nat, n: nat, o: Owner, p: nat)
    ensures p in Claimed(owner, a, n, o) <==> p in owner || P.Within(a, n, p)
    ensures p in Claimed(owner, a, n, o) ==> Claimed(owner, a, n, o)[p] == if P.Within(a, n, p) then o else owner[p]
  {
    assert p in P.Span(a, n) <==> P.Within(a, n, p);
  }

  /** Claiming free pages leaves every owner with all it had. */
  lemma ClaimedWhole(owner: map<nat, Owner>, a: nat, n: nat, o: Owner, b: nat, m: nat, q: Owner)
    requires Whole(owner, b, m, q) && forall p :: P.Within(a, n, p) ==> p !in owner
    ensures Whole(Claimed(owner, a, n, o), b, m, q)
  {
    forall p | P.Within(b, m, p)
      ensures p in Claimed(owner, a, n, o) && Claimed(owner, a, n, o)[p] == q
    {
      ClaimedAre(owner, a, n, o, p);
    }
  }

  lemma ClaimedOwn(owner: map<nat, Owner>, a: nat, n: nat, o: Owner)
    ensures Whole(Claimed(owner, a, n, o), a, n, o)
  {
    forall p | P.Within(a, n, p)
      ensures p in Claimed(owner, a, n, o) && Claimed(owner, a, n, o)[p] == o
    {
      ClaimedAre(owner, a, n, o, p);
    }
  }

  /** Pages that were just allocated had no owner. */
  lemma FreshPages(st: Store, zp: nat, zs: set<nat>, heap: set<nat>, n: nat)
    requires StoreInv(st, zp, zs, heap) && P.Alloc(st.pages, n).1.Some?
    ensures n > 0 && forall p :: P.Within(P.Alloc(st.pages, n).1.page, n, p) ==> p in heap && p !in st.owner
  {
    forall p | P.Within(P.Alloc(st.pages, n).1.page, n, p)
      ensures p in heap && p !in st.owner
    {
      P.AllocTakes(st.pages, n, p);
    }
  }

  /** Page lists and owners stay complementary when `n` pages are allocated. */
  lemma AllocPages(st: Store, zp: nat, zs: set<nat>, heap: set<nat>, n: nat, o: Owner)
    requires StoreInv(st, zp, zs, heap) && P.Alloc(st.pages, n).1.Some?
    ensures var (pages, some) := P.Alloc(st.pages, n); var owner := Claimed(st.owner, some.page, n, o);
      && P.Ordered(pages)
      && (forall p: nat :: P.Free(pages, p) <==> p in heap && p !in owner)
      && (forall p :: p in owner ==> p in heap)
  {
    var (pages, some) := P.Alloc(st.pages, n);
    var owner := Claimed(st.owner, some.page, n, o);
    P.AllocKeeps(st.pages, n);
    FreshPages(st, zp, zs, heap, n);
    forall p: nat
      ensures (P.Free(pages, p) <==> p in heap && p !in owner) && (p in owner ==> p in heap)
    {
      P.AllocTakes(st.pages, n, p);
      ClaimedAre(st.owner, some.page, n, o, p);
    }
  }

  /** An owner that was fine stays fine when other pages are claimed. */
  lemma OwnerStays(st: Store, zp: nat, zs: set<nat>, p: nat, st': Store, zs': set<nat>, a: nat, n: nat, o: Owner)
    requires p in st.owner && OwnerOk(st, zp, zs, p) && zs <= zs' && st'.owner == Claimed(st.owner, a, n, o)
    requires forall q :: P.Within(a, n, q) ==> q !in st.owner
    requires forall q :: q in st.usage && !P.Within(a, n, q) ==> q in st'.usage && st'.usage[q] == st.usage[q]
    ensures p in st'.owner && OwnerOk(st', zp, zs', p)
  {
    ClaimedAre(st.owner, a, n, o, p);
    if st.owner[p].InLarge? {
      var b, m := st.owner[p].a, st.owner[p].n;
      assert P.Within(b, m, b) && b in st.owner;
      ClaimedWhole(st.owner, a, n, o, b, m, InLarge(b, m));
    }
  }

  lemma TakeZoneKeeps(st: Store, zp: nat, zs: set<nat>, heap: set<nat>)
    requires StoreInv(st, zp, zs, heap) && TakeZone(st, zp).1.Some?
    ensures var z := TakeZone(st, zp).1.page; z !in zs && StoreInv(TakeZone(st, zp).0, zp, zs + {z}, heap)
  {
    var st', z := TakeZone(st, zp).0, TakeZone(st, zp).1.page;
    FreshPages(st, zp, zs, heap, zp);
    AllocPages(st, zp, zs, heap, zp, InZone(z));
    assert P.Within(z, zp, z);
    ClaimedOwn(st.owner, z, zp, InZone(z));
    forall p | p in st'.owner
      ensures OwnerOk(st', zp, zs + {z}, p)
    {
      ClaimedAre(st.owner, z, zp, InZone(z), p);
      assert p in P.Span(z, zp) <==> P.Within(z, zp, p);
      if p in st.owner { OwnerStays(st, zp, zs, p, st', zs + {z}, z, zp, InZone(z)); }
    }
    forall y | y in zs
      ensures Whole(st'.owner, y, zp, InZone(y))
    {
      ClaimedWhole(st.owner, z, zp, InZone(z), y, zp, InZone(y));
    }
  }

  lemma TakeLargeKeeps(st: Store, zp: nat, zs: set<nat>, heap: set<nat>, n: nat)
    requires StoreInv(st, zp, zs, heap) && TakeLarge(st, n).1.Some?
    ensures StoreInv(TakeLarge(st, n).0, zp, zs, heap)
    ensures var a := TakeLarge(st, n).1.page; n > 0 && Whole(TakeLarge(st, n).0.owner, a, n, InLarge(a, n))
  {
    var st', a := TakeLarge(st, n).0, TakeLarge(st, n).1.page;
    FreshPages(st, zp, zs, heap, n);
    AllocPages(st, zp, zs, heap, n, InLarge(a, n));
    assert P.Within(a, n, a);
    ClaimedOwn(st.owner, a, n, InLarge(a, n));
    forall p | p in st'.owner
      ensures OwnerOk(st', zp, zs, p)
    {
      ClaimedAre(st.owner, a, n, InLarge(a, n), p);
      if p in st.owner { OwnerStays(st, zp, zs, p, st', zs, a, n, InLarge(a, n)); }
    }
    forall y | y in zs
      ensures Whole(st'.owner, y, zp, InZone(y))
    {
      ClaimedWhole(st.owner, a, n, InLarge(a, n), y, zp, InZone(y));
    }
  }

  // ---- giving pages back

  /** Owners keep all they have when somebody else's pages go. */
  lemma WholeWithout(owner: map<nat, Owner>, a: nat, n: nat, o: Owner, b: nat, m: nat, q: Owner)
    requires Whole(owner, a, n, o) && Whole(owner, b, m, q) && o != q
    ensures Whole(owner - P.Span(a, n), b, m, q)
  {
    forall p | P.Within(b, m, p)
      ensures p in owner - P.Span(a, n)
    {
      assert p in P.Span(a, n) <==> P.Within(a, n, p);
    }
  }

  lemma ReleasePages(st: Store, zp: nat, zs: set<nat>, heap: set<nat>, a: nat, n: nat, o: Owner)
    requires StoreInv(st, zp, zs, heap) && n > 0 && Whole(st.owner, a, n, o)
    ensures P.AllTaken(st.pages, a, n)
    ensures var pages, owner := P.Release(st.pages, a, n), st.owner - P.Span(a, n);
      && P.Ordered(pages)
      && (forall p: nat :: P.Free(pages, p) <==> p in heap && p !in owner)
  {
    assert P.AllTaken(st.pages, a, n);
    P.ReleaseKeeps(st.pages, a, n);
    forall p: nat
      ensures P.Free(P.Release(st.pages, a, n), p) <==> p in heap && p !in st.owner - P.Span(a, n)
    {
      P.ReleaseAdds(st.pages, a, n, p);
      assert p in P.Span(a, n) <==> P.Within(a, n, p);
    }
  }

  lemma OwnerRemains(st: Store, zp: nat, zs: set<nat>, p: nat, st': Store, zs': set<nat>, a: nat, n: nat, o: Owner)
    requires p in st.owner && OwnerOk(st, zp, zs, p) && st.owner[p] != o && st'.owner == st.owner - P.Span(a, n)
    requires Whole(st.owner, a, n, o) && forall z :: z in zs && InZone(z) != o ==> z in zs'
    requires forall q :: q in st.usage && !P.Within(a, n, q) ==> q in st'.usage && st'.usage[q] == st.usage[q]
    ensures p in st'.owner && OwnerOk(st', zp, zs', p)
  {
    assert p in P.Span(a, n) <==> P.Within(a, n, p);
    if st.owner[p].InLarge? {
      var b, m := st.owner[p].a, st.owner[p].n;
      assert P.Within(b, m, b) && st.owner[b] == InLarge(b, m);
      WholeWithout(st.owner, a, n, o, b, m, InLarge(b, m));
    }
  }

  lemma GiveZoneKeeps(st: Store, zp: nat, zs: set<nat>, heap: set<nat>, z: nat)
    requires StoreInv(st, zp, zs, heap) && z in zs && zp > 0
    ensures P.AllTaken(st.pages, z, zp) && StoreInv(GiveZone(st, zp, z), zp, zs - {z}, heap)
  {
    var st', o := GiveZone(st, zp, z), InZone(z);
    ReleasePages(st, zp, zs, heap, z, zp, o);
    forall p | p in st'.owner
      ensures OwnerOk(st', zp, zs - {z}, p)
    {
      assert p in P.Span(z, zp) <==> P.Within(z, zp, p);
      assert OwnerOk(st, zp, zs, p);
      OwnerRemains(st, zp, zs, p, st', zs - {z}, z, zp, o);
    }
    forall y | y in zs - {z}
      ensures Whole(st'.owner, y, zp, InZone(y))
    {
      WholeWithout(st.owner, z, zp, o, y, zp, InZone(y));
    }
  }

  lemma GiveLargeKeeps(st: Store, zp: nat, zs: set<nat>, heap: set<nat>, a: nat, n: nat)
    requires StoreInv(st, zp, zs, heap) && n > 0 && Whole(st.owner, a, n, InLarge(a, n))
    ensures P.AllTaken(st.pages, a, n) && StoreInv(GiveLarge(st, a, n), zp, zs, heap)
  {
    var st', o := GiveLarge(st, a, n), InLarge(a, n);
    ReleasePages(st, zp, zs, heap, a, n, o);
    assert P.Within(a, n, a);
    forall p | p in st'.owner
      ensures OwnerOk(st', zp, zs, p)
    {
      assert p in P.Span(a, n) <==> P.Within(a, n, p);
      assert OwnerOk(st, zp, zs, p);
      OwnerRemains(st, zp, zs, p, st', zs, a, n, o);
    }
    forall y | y in zs
      ensures Whole(st'.owner, y, zp, InZone(y))
    {
      WholeWithout(st.owner, a, n, o, y, zp, InZone(y));
    }
  }

  // ---------------------------------------------------------------- zones and their chunks

  /** z_zoneindex, z_nmax, z_nfree, z_uindex, and the numbers of the chunks on z_freechunk. */
  datatype Zone = Zone(index: nat, nmax: nat, nfree: int, uindex: nat, free: seq<nat>)

  /** `lists` is zone_array, `spare` is zone_free; a zone is listed under its first page. */
  datatype Slab = Slab(zp: nat, store: Store, zones: map<nat, Zone>, lists: seq<seq<nat>>, spare: seq<nat>)

  datatype Got = Null | Chunk(z: nat, k: nat) | Pages(a: nat)

  function SizeOf(zone: Zone): nat { ChunkOf(zone.index) }

  function NewZone(zp: nat, zi: nat): Zone {
    var nmax := if ChunkOf(zi) > 0 && Base(ChunkOf(zi)) <= zp * PAGE then Nmax(zp, ChunkOf(zi)) else 0;
    Zone(zi, nmax, nmax - 1, 0, [])
  }

  /** A chunk out of a zone: never-used ones first, then the last one freed. */
  function TakeChunk(zone: Zone): (Zone, nat) {
    if zone.uindex + 1 != zone.nmax then (zone.(nfree := zone.nfree - 1, uindex := zone.uindex + 1), zone.uindex + 1)
    else if zone.free == [] then (zone, 0)
    else (zone.(nfree := zone.nfree - 1, free := zone.free[1..]), zone.free[0])
  }

  function PutChunk(zone: Zone, k: nat): Zone { zone.(nfree := zone.nfree + 1, free := [k] + zone.free) }

  function List(s: Slab, zi: nat): seq<nat> { if zi < |s.lists| then s.lists[zi] else [] }

  function SetList(lists: seq<seq<nat>>, zi: nat, list: seq<nat>): seq<seq<nat>> {
    if zi < |lists| then lists[zi := list] else lists
  }

  function ZoneAt(s: Slab, z: nat): Zone { if z in s.zones then s.zones[z] else Zone(0, 0, 0, 0, []) }

  /** A zone that is in no list goes into service. */
  function OpenZone(s: Slab, z: nat, zi: nat): (Slab, Got) {
    (s.(zones := s.zones[z := NewZone(s.zp, zi)], lists := SetList(s.lists, zi, [z] + List(s, zi))), Chunk(z, 0))
  }

  /** rt_malloc below the limit, for zone number `zi`. */
  function MallocSmall(s: Slab, zi: nat): (Slab, Got) {
    if List(s, zi) != [] then
      var z := List(s, zi)[0];
      var (zone, k) := TakeChunk(ZoneAt(s, z));
      (s.(zones := s.zones[z := zone], lists := if zone.nfree == 0 then SetList(s.lists, zi, List(s, zi)[1..]) else s.lists), Chunk(z, k))
    else if s.spare != [] then
      OpenZone(s.(spare := s.spare[1..]), s.spare[0], zi)
    else
      var (store, some) := TakeZone(s.store, s.zp);
      if some.None? then (s, Null) else OpenZone(s.(store := store), some.page, zi)
  }

  /** The number of pages of a large request; RT_ALIGN wraps in 32 bits. */
  function PageCount(size: nat): nat { (size + (PAGE - 1)) % U32 / PAGE }

  function MallocLarge(s: Slab, size: nat): (Slab, Got) {
    var (store, some) := TakeLarge(s.store, PageCount(size));
    if some.None? then (s, Null) else (s.(store := store), Pages(some.page))
  }

  function MallocStep(s: Slab, size: nat): (Slab, Got) {
    if size == 0 then (s, Null)
    else if size >= Limit(s.zp) then MallocLarge(s, size)
    else if Index(size) < 0 then (s, Null)
    else MallocSmall(s, Index(size))
  }

  /** A zone leaves service: it is kept as a spare, or its pages go back. */
  function Retire(s: Slab, z: nat): Slab {
    var zi := ZoneAt(s, z).index;
    var s1 := s.(zones := s.zones - {z}, lists := SetList(s.lists, zi, Unlink(List(s, zi), z)));
    if |s.spare| + 1 > THRESHOLD then s1.(store := GiveZone(s.store, s.zp, z)) else s1.(spare := [z] + s.spare)
  }

  /** The chunk goes back to its zone; a zone that had no free chunk goes back to its list. */
  function PutBack(s: Slab, z: nat, k: nat): Slab {
    var zone := ZoneAt(s, z);
    s.(zones := s.zones[z := PutChunk(zone, k)],
       lists := if zone.nfree == 0 then SetList(s.lists, zone.index, [z] + List(s, zone.index)) else s.lists)
  }

  function FreeSmall(s: Slab, z: nat, k: nat): Slab {
    var zone, s1 := ZoneAt(s, z), PutBack(s, z, k);
    if zone.nfree + 1 == zone.nmax && |List(s1, zone.index)| >= 2 then Retire(s1, z) else s1
  }

  function ChunkNumber(z: nat, c: nat, ptr: nat): nat {
    if c > 0 && ptr >= z * PAGE + Base(c) then (Quotient(ptr - z * PAGE - Base(c), c); (ptr - z * PAGE - Base(c)) / c) else 0
  }

  /** rt_free: the page of the address says what it is. */
  function FreeAt(s: Slab, ptr: nat): Slab {
    var page := ptr / PAGE;
    match (if page in s.store.usage then s.store.usage[page] else FreePage)
    case LargePage(n) => s.(store := GiveLarge(s.store, page, n))
    case SmallPage(off) =>
      var z := if page >= off then page - off else 0;
      FreeSmall(s, z, ChunkNumber(z, SizeOf(ZoneAt(s, z)), ptr))
    case FreePage => s
  }

  // ---------------------------------------------------------------- the invariant

  /** z_nfree counts the never-used chunks and the freed ones; freed chunks were used before. */
  ghost predicate ZoneOk(zp: nat, zone: Zone) {
    && zone.index < NZONES && ChunkSize(zp, SizeOf(zone)) && Base(SizeOf(zone)) <= zp * PAGE
    && zone.nmax == Nmax(zp, SizeOf(zone)) && zone.nmax >= 2 && zone.uindex < zone.nmax
    && NoDup(zone.free) && (forall k :: k in zone.free ==> k <= zone.uindex)
    && zone.nfree == zone.nmax - 1 - zone.uindex + |zone.free|
  }

  /** Zone `z` is in the list of its number exactly when it has a free chunk. */
  ghost predicate ListOk(zones: map<nat, Zone>, list: seq<nat>, zi: nat) {
    NoDup(list) && forall z :: z in list <==> z in zones && zones[z].index == zi && zones[z].nfree > 0
  }

  ghost predicate ZonesInv(s: Slab) {
    && ZonePages(s.zp) && |s.lists| == NZONES
    && (forall z :: z in s.zones ==> ZoneOk(s.zp, s.zones[z]))
    && (forall i :: 0 <= i < NZONES ==> ListOk(s.zones, s.lists[i], i))
    && NoDup(s.spare) && |s.spare| <= THRESHOLD && (forall z :: z in s.spare ==> z !in s.zones)
  }

  function AllZones(s: Slab): set<nat> { s.zones.Keys + set z | z in s.spare }

  ghost predicate Inv(s: Slab, heap: set<nat>) {
    ZonesInv(s) && StoreInv(s.store, s.zp, AllZones(s), heap)
  }

  /** Chunk `k` of zone `z` is in a caller's hands. */
  predicate Live(s: Slab, z: nat, k: nat) { z in s.zones && k <= s.zones[z].uindex && k !in s.zones[z].free }

  // ---- one zone

  lemma TakeChunkKeeps(zp: nat, zone: Zone)
    requires ZoneOk(zp, zone) && zone.nfree > 0
    ensures var (zone', k) := TakeChunk(zone);
      && ZoneOk(zp, zone') && zone'.nfree == zone.nfree - 1 && zone'.index == zone.index
      && k < zone.nmax && (k <= zone.uindex ==> k in zone.free)
      && forall j: nat :: (j <= zone'.uindex && j !in zone'.free) <==> (j <= zone.uindex && j !in zone.free) || j == k
  {
    if zone.uindex + 1 == zone.nmax {
      var k := zone.free[0];
      UnlinkHead(zone.free);
      assert k in zone.free && zone.free == [k] + zone.free[1..];
    }
  }

  lemma PutChunkKeeps(zp: nat, zone: Zone, k: nat)
    requires ZoneOk(zp, zone) && k <= zone.uindex && k !in zone.free
    ensures var zone' := PutChunk(zone, k);
      && ZoneOk(zp, zone') && zone'.nfree == zone.nfree + 1
      && forall j: nat :: (j <= zone'.uindex && j !in zone'.free) <==> (j <= zone.uindex && j !in zone.free) && j != k
  {
  }

  function UpTo(n: nat): (r: set<nat>)
    ensures |r| == n && forall k: nat :: k in r <==> k < n
  {
    if n == 0 then {} else UpTo(n - 1) + {n - 1}
  }

  function Elems(list: seq<nat>): (r: set<nat>)
    ensures forall k: nat :: k in r <==> k in list
  {
    if list == [] then {} else {list[0]} + Elems(list[1..])
  }

  lemma {:induction false} NoDupCount(list: seq<nat>)
    requires NoDup(list)
    ensures |Elems(list)| == |list|
  {
    if list != [] {
      NoDupCount(list[1..]);
      var h, rest := list[0], Elems(list[1..]);
      assert h !in rest by { assert forall i :: 1 <= i < |list| ==> list[i] != h; }
      assert Elems(list) == {h} + rest;
    }
  }

  /** A zone whose count has reached z_nmax has no chunk in anybody's hands. */
  lemma FullMeansUnused(zp: nat, zone: Zone, k: nat)
    requires ZoneOk(zp, zone) && zone.nfree == zone.nmax && k <= zone.uindex
    ensures k in zone.free
  {
    var all, freed := UpTo(zone.uindex + 1), Elems(zone.free);
    NoDupCount(zone.free);
    assert freed <= all && k in all && |freed| == |all|;
    if k !in zone.free {
      assert freed <= all - {k};
      SubsetCount(freed, all - {k});
    }
  }

  lemma SubsetCount(a: set<nat>, b: set<nat>)
    requires a <= b
    ensures |a| <= |b|
  {
    assert b == a + (b - a);
  }

  lemma NewZoneOk(zp: nat, zi: nat)
    requires ZonePages(zp) && zi < NZONES && ChunkSize(zp, ChunkOf(zi))
    ensures ZoneOk(zp, NewZone(zp, zi)) && NewZone(zp, zi).nfree > 0
    ensures forall j: nat :: (j <= NewZone(zp, zi).uindex && j !in NewZone(zp, zi).free) <==> j == 0
  {
    ZoneHolds(zp, ChunkOf(zi));
  }

  /** A request below the limit gets a chunk size that fits the zones. */
  lemma SmallFits(zp: nat, size: nat)
    requires ZonePages(zp) && 0 < size < Limit(zp)
    ensures size < 16384 && 0 <= Index(size) < NZONES && ChunkOf(Index(size)) == ZoneIndex.Chunk(size)
    ensures ChunkSize(zp, ChunkOf(Index(size))) && size <= ChunkOf(Index(size))
  {
    IndexFits(size);
    ChunkHolds(size);
    StepsOfEight(size);
  }

  lemma StepsOfEight(size: nat)
    requires 0 < size < 16384
    ensures ZoneIndex.Chunk(size) % 8 == 0 && ZoneIndex.Chunk(size) >= 8
  {
    var unit := Unit(size);
    var q := (size + unit - 1) / unit;
    assert unit == 8 * (unit / 8);
    assert q * unit == q * (unit / 8) * 8;
    Multiple(q * (unit / 8), 8);
    ChunkHolds(size);
  }

  // ---- lists

  ghost predicate ListsOk(zones: map<nat, Zone>, lists: seq<seq<nat>>) {
    |lists| == NZONES && forall i :: 0 <= i < NZONES ==> ListOk(zones, lists[i], i)
  }

  /** One zone record and the list of its number change together. */
  lemma ListsAfter(zones: map<nat, Zone>, lists: seq<seq<nat>>, z: nat, zone: Zone, list: seq<nat>)
    requires ListsOk(zones, lists) && zone.index < NZONES && (z in zones ==> zones[z].index == zone.index)
    requires NoDup(list)
    requires forall y :: y in list <==> if y == z then zone.nfree > 0 else y in lists[zone.index]
    ensures ListsOk(zones[z := zone], SetList(lists, zone.index, list))
  {
    var zones', lists' := zones[z := zone], SetList(lists, zone.index, list);
    forall i | 0 <= i < NZONES
      ensures ListOk(zones', lists'[i], i)
    {
      assert ListOk(zones, lists[i], i);
      assert ListOk(zones, lists[zone.index], zone.index);
    }
  }

  /** A zone record changes and its list does not. */
  lemma ListsSame(zones: map<nat, Zone>, lists: seq<seq<nat>>, z: nat, zone: Zone)
    requires ListsOk(zones, lists) && z in zones && zones[z].index == zone.index
    requires zone.nfree > 0 <==> zones[z].nfree > 0
    ensures ListsOk(zones[z := zone], lists)
  {
    forall i | 0 <= i < NZONES
      ensures ListOk(zones[z := zone], lists[i], i)
    {
      assert ListOk(zones, lists[i], i);
    }
  }

  lemma ListsWithout(zones: map<nat, Zone>, lists: seq<seq<nat>>, z: nat)
    requires ListsOk(zones, lists) && z in zones && zones[z].index < NZONES
    ensures ListsOk(zones - {z}, SetList(lists, zones[z].index, Unlink(lists[zones[z].index], z)))
  {
    var zi := zones[z].index;
    assert ListOk(zones, lists[zi], zi);
    UnlinkNoDup(lists[zi], z);
    forall i | 0 <= i < NZONES
      ensures ListOk(zones - {z}, SetList(lists, zi, Unlink(lists[zi], z))[i], i)
    {
      assert ListOk(zones, lists[i], i);
    }
  }

  /** The chunks in callers' hands, zone by zone. */
  ghost predicate LiveIn(zones: map<nat, Zone>, z: nat, k: nat) { z in zones && k <= zones[z].uindex && k !in zones[z].free }

  ghost predicate SpareOk(spare: seq<nat>, zones: map<nat, Zone>) {
    NoDup(spare) && |spare| <= THRESHOLD && forall z :: z in spare ==> z !in zones
  }

  ghost predicate RecordsOk(zp: nat, zones: map<nat, Zone>) { forall z :: z in zones ==> ZoneOk(zp, zones[z]) }

  lemma ZonesInvParts(s: Slab)
    ensures ZonesInv(s) <==> ZonePages(s.zp) && ListsOk(s.zones, s.lists) && RecordsOk(s.zp, s.zones) && SpareOk(s.spare, s.zones)
  {
  }

  lemma ListedZone(s: Slab, zi: nat)
    requires ZonesInv(s) && zi < NZONES && List(s, zi) != []
    ensures var z := List(s, zi)[0]; z in s.zones && s.zones[z].index == zi && s.zones[z].nfree > 0 && ZoneOk(s.zp, s.zones[z])
  {
    var list := s.lists[zi];
    assert ListOk(s.zones, list, zi) && list[0] in list;
  }

  lemma TakeListed(s: Slab, zi: nat)
    requires ZonesInv(s) && zi < NZONES && List(s, zi) != []
    ensures ZonesInv(MallocSmall(s, zi).0) && AllZones(MallocSmall(s, zi).0) == AllZones(s)
  {
    var s', list := MallocSmall(s, zi).0, s.lists[zi];
    var z := list[0];
    ListedZone(s, zi);
    ZonesInvParts(s);
    ZonesInvParts(s');
    TakeChunkKeeps(s.zp, s.zones[z]);
    var zone' := TakeChunk(s.zones[z]).0;
    assert ListOk(s.zones, list, zi);
    if zone'.nfree == 0 {
      UnlinkHead(list);
      assert list == [z] + list[1..];
      ListsAfter(s.zones, s.lists, z, zone', list[1..]);
    } else {
      ListsSame(s.zones, s.lists, z, zone');
    }
    assert s'.zones == s.zones[z := zone'];
    assert AllZones(s') == AllZones(s);
  }

  /** Malloc from the first zone in the list. */
  lemma MallocListed(s: Slab, heap: set<nat>, zi: nat)
    requires Inv(s, heap) && zi < NZONES && List(s, zi) != []
    ensures Inv(MallocSmall(s, zi).0, heap) && HandsOut(s, MallocSmall(s, zi).0, MallocSmall(s, zi).1, zi)
  {
    TakeListed(s, zi);
    ListedZone(s, zi);
    TakeChunkKeeps(s.zp, s.zones[s.lists[zi][0]]);
  }

  /** A chunk that nobody held is handed out, from a zone of number `zi`, and nothing else changes hands. */
  ghost predicate HandsOut(s: Slab, s': Slab, got: Got, zi: nat) {
    && got.Chunk? && !LiveIn(s.zones, got.z, got.k)
    && got.z in s'.zones && s'.zones[got.z].index == zi && got.k < s'.zones[got.z].nmax
    && forall y: nat, k: nat :: LiveIn(s'.zones, y, k) <==> LiveIn(s.zones, y, k) || (y == got.z && k == got.k)
  }

  /** A zone that nobody knows goes into service, and its first chunk is handed out. */
  lemma OpenZoneKeeps(s: Slab, z: nat, zi: nat)
    requires ZonesInv(s) && zi < NZONES && ChunkSize(s.zp, ChunkOf(zi)) && z !in s.zones && z !in s.spare
    ensures var s' := OpenZone(s, z, zi).0;
      ZonesInv(s') && AllZones(s') == AllZones(s) + {z} && HandsOut(s, s', OpenZone(s, z, zi).1, zi)
  {
    var s' := OpenZone(s, z, zi).0;
    ZonesInvParts(s);
    ZonesInvParts(s');
    NewZoneOk(s.zp, zi);
    assert ListOk(s.zones, s.lists[zi], zi);
    ListsAfter(s.zones, s.lists, z, NewZone(s.zp, zi), [z] + s.lists[zi]);
  }

  lemma MallocSpare(s: Slab, heap: set<nat>, zi: nat)
    requires Inv(s, heap) && zi < NZONES && ChunkSize(s.zp, ChunkOf(zi)) && List(s, zi) == [] && s.spare != []
    ensures Inv(MallocSmall(s, zi).0, heap) && HandsOut(s, MallocSmall(s, zi).0, MallocSmall(s, zi).1, zi)
  {
    var z, s1 := s.spare[0], s.(spare := s.spare[1..]);
    UnlinkHead(s.spare);
    assert s.spare == [z] + s.spare[1..];
    OpenZoneKeeps(s1, z, zi);
    assert AllZones(s1) + {z} == AllZones(s);
  }

  lemma MallocNewZone(s: Slab, heap: set<nat>, zi: nat)
    requires Inv(s, heap) && zi < NZONES && ChunkSize(s.zp, ChunkOf(zi)) && List(s, zi) == [] && s.spare == []
    requires TakeZone(s.store, s.zp).1.Some?
    ensures Inv(MallocSmall(s, zi).0, heap) && HandsOut(s, MallocSmall(s, zi).0, MallocSmall(s, zi).1, zi)
  {
    var (store, some) := TakeZone(s.store, s.zp);
    TakeZoneKeeps(s.store, s.zp, AllZones(s), heap);
    OpenZoneKeeps(s.(store := store), some.page, zi);
    assert AllZones(s.(store := store)) == AllZones(s);
  }

  // ---- free

  lemma PutLists(s: Slab, z: nat, k: nat)
    requires ZonesInv(s) && Live(s, z, k)
    ensures ListsOk(PutBack(s, z, k).zones, PutBack(s, z, k).lists)
  {
    var zone := s.zones[z];
    ZonesInvParts(s);
    assert ZoneOk(s.zp, zone);
    var list := s.lists[zone.index];
    assert ListOk(s.zones, list, zone.index);
    if zone.nfree == 0 {
      ListsAfter(s.zones, s.lists, z, PutChunk(zone, k), [z] + list);
    } else {
      ListsSame(s.zones, s.lists, z, PutChunk(zone, k));
    }
  }

  lemma PutZones(s: Slab, z: nat, k: nat)
    requires ZonesInv(s) && Live(s, z, k)
    ensures ZonesInv(PutBack(s, z, k)) && AllZones(PutBack(s, z, k)) == AllZones(s)
  {
    PutLists(s, z, k);
    ZonesInvParts(s);
    ZonesInvParts(PutBack(s, z, k));
    assert ZoneOk(s.zp, s.zones[z]);
    PutChunkKeeps(s.zp, s.zones[z], k);
    assert AllZones(PutBack(s, z, k)) == AllZones(s);
  }

  lemma PutListed(s: Slab, heap: set<nat>, z: nat, k: nat)
    requires Inv(s, heap) && Live(s, z, k)
    ensures Inv(PutBack(s, z, k), heap)
    ensures forall y: nat, j: nat :: LiveIn(PutBack(s, z, k).zones, y, j) <==> LiveIn(s.zones, y, j) && !(y == z && j == k)
  {
    PutZones(s, z, k);
    assert ZoneOk(s.zp, s.zones[z]);
    PutChunkKeeps(s.zp, s.zones[z], k);
  }

  lemma RetireKeeps(s: Slab, heap: set<nat>, z: nat)
    requires Inv(s, heap) && z in s.zones && s.zones[z].nfree == s.zones[z].nmax
    ensures Inv(Retire(s, z), heap)
    ensures forall y: nat, j: nat :: LiveIn(Retire(s, z).zones, y, j) <==> LiveIn(s.zones, y, j)
  {
    var s' := Retire(s, z);
    ZonesInvParts(s);
    ZonesInvParts(s');
    assert ZoneOk(s.zp, s.zones[z]);
    ListsWithout(s.zones, s.lists, z);
    forall j: nat
      ensures !LiveIn(s.zones, z, j)
    {
      if j <= s.zones[z].uindex { FullMeansUnused(s.zp, s.zones[z], j); }
    }
    if |s.spare| + 1 > THRESHOLD {
      GiveZoneKeeps(s.store, s.zp, AllZones(s), heap, z);
      assert AllZones(s') == AllZones(s) - {z};
    } else {
      assert AllZones(s') == AllZones(s);
    }
  }

  /** Freeing a chunk takes exactly that chunk out of the callers' hands. */
  lemma FreeSmallKeeps(s: Slab, heap: set<nat>, z: nat, k: nat)
    requires Inv(s, heap) && Live(s, z, k)
    ensures Inv(FreeSmall(s, z, k), heap)
    ensures forall y: nat, j: nat :: LiveIn(FreeSmall(s, z, k).zones, y, j) <==> LiveIn(s.zones, y, j) && !(y == z && j == k)
  {
    var zone, s1 := s.zones[z], PutBack(s, z, k);
    PutListed(s, heap, z, k);
    if zone.nfree + 1 == zone.nmax && |List(s1, zone.index)| >= 2 { RetireKeeps(s1, heap, z); }
  }

  // ---------------------------------------------------------------- the two operations

  /** A large allocation of `n` pages from page `a` on. */
  ghost predicate LiveLarge(s: Slab, a: nat, n: nat) {
    n > 0 && Whole(s.store.owner, a, n, InLarge(a, n))
  }

  /** The chunk has room for the request and lies in its zone, behind the header. */
  ghost predicate Holds(s: Slab, got: Got, size: nat)
    requires got.Chunk? && got.z in s.zones
  {
    var c := SizeOf(s.zones[got.z]);
    && size <= c && got.z * PAGE + HEADER <= Addr(got.z, c, got.k)
    && Addr(got.z, c, got.k) + c <= got.z * PAGE + s.zp * PAGE
  }

  /** rt_malloc keeps the invariant; a chunk it hands out was in nobody's hands, holds the request, and
      lies inside its zone behind the zone header. */
  lemma MallocSmallRight(s: Slab, heap: set<nat>, size: nat)
    requires Inv(s, heap) && 0 < size < Limit(s.zp)
    ensures var (s', got) := MallocStep(s, size);
      && Inv(s', heap)
      && (got == Null ==> s' == s)
      && (got != Null ==> HandsOut(s, s', got, Index(size)) && Holds(s', got, size))
  {
    var zi := Index(size);
    SmallFits(s.zp, size);
    if List(s, zi) != [] { MallocListed(s, heap, zi); }
    else if s.spare != [] { MallocSpare(s, heap, zi); }
    else if TakeZone(s.store, s.zp).1.Some? { MallocNewZone(s, heap, zi); }
    var (s', got) := MallocStep(s, size);
    if got != Null {
      assert ZoneOk(s'.zp, s'.zones[got.z]);
      ChunkInside(s.zp, got.z, SizeOf(s'.zones[got.z]), got.k);
    }
  }

  /** A chunk request fails exactly when no zone of its number has a free chunk, no spare zone is kept,
      and no `zp` free pages lie in a row. */
  lemma MallocFailsExactly(s: Slab, heap: set<nat>, size: nat)
    requires Inv(s, heap) && 0 < size < Limit(s.zp)
    ensures MallocStep(s, size).1 == Null <==>
      && (forall z :: z in s.zones && s.zones[z].index == Index(size) ==> s.zones[z].nfree == 0)
      && s.spare == [] && (forall a: nat :: !P.Row(s.store.pages, a, s.zp))
  {
    SmallFits(s.zp, size);
    var zi := Index(size);
    assert ListOk(s.zones, s.lists[zi], zi);
    P.AllocFailsExactly(s.store.pages, s.zp);
    assert s.lists[zi] != [] ==> s.lists[zi][0] in s.lists[zi];
    forall z | z in s.zones && s.zones[z].index == zi
      ensures s.zones[z].nfree == 0 <==> z !in s.lists[zi]
    {
      assert ZoneOk(s.zp, s.zones[z]);
    }
  }

  /** A wrapped page count is zero, and no allocation of zero pages succeeds. */
  lemma PagesCover(size: nat)
    requires size < U32
    ensures PageCount(size) == 0 || size <= PageCount(size) * PAGE
  {
    if size + (PAGE - 1) < U32 { RoundedUp(size, PAGE); }
  }

  /** A large request for `n` pages gets the lowest `n` free pages in a row, so it is aligned to its size
      exactly when the first of them is a multiple of `n`. */
  lemma LargeAlignedExactly(s: Slab, heap: set<nat>, n: nat, a: nat)
    requires Inv(s, heap) && 0 < n && Limit(s.zp) <= n * PAGE && n * PAGE < U32
    requires P.Row(s.store.pages, a, n) && forall b: nat :: b < a ==> !P.Row(s.store.pages, b, n)
    ensures MallocStep(s, n * PAGE).1 == Pages(a)
    ensures a * PAGE % (n * PAGE) == 0 <==> a % n == 0
  {
    assert PageCount(n * PAGE) == n by { QuotientUnique(n * PAGE + (PAGE - 1), PAGE, n); }
    P.AllocLowestRow(s.store.pages, n, a);
    var b := P.Alloc(s.store.pages, n).1.page;
    forall p | P.Within(b, n, p)
      ensures P.Free(s.store.pages, p)
    {
      P.AllocTakes(s.store.pages, n, p);
    }
    assert P.Row(s.store.pages, b, n);
    ScaledRest(a, n);
  }

  lemma ScaledRest(a: nat, n: nat)
    requires n > 0
    ensures a * PAGE % (n * PAGE) == 0 <==> a % n == 0
  {
    var q := a / n;
    Quotient(a, n);
    assert a == q * n + a % n;
    assert a * PAGE == q * (n * PAGE) + a % n * PAGE;
    assert a % n * PAGE < n * PAGE by { Times(a % n + 1, n, PAGE); }
    SameRest(a % n * PAGE, q, n * PAGE);
    QuotientUnique(a % n * PAGE, n * PAGE, 0);
    assert a % n * PAGE == a % n * PAGE / (n * PAGE) * (n * PAGE) + a % n * PAGE % (n * PAGE);
  }

  /** In a heap of 16385 pages, at 0x60000000, the zones are 64 KiB and the memusage table takes the first
      17 pages.  The first 8 KiB chunk is not aligned to its size. */
  lemma LargeChunksMayBeUnaligned()
    ensures HeapOk(0x6_0000, 16385) && Boot(0x6_0000, 16385).zp == 16
    ensures MallocStep(Boot(0x6_0000, 16385), 8192).1 == Chunk(0x6_0011, 0)
    ensures Addr(0x6_0011, ChunkOf(Index(8192)), 0) % 8192 != 0
  {
    var s := Boot(0x6_0000, 16385);
    assert s.store.pages == [P.Run(0x6_0011, 16368)] && s.lists[Index(8192)] == [];
    assert P.Alloc(s.store.pages, 16).1 == P.Some(0x6_0011);
  }

  /** In a heap of 101 pages at the same place the table takes one page, and the first 32 KiB allocation is
      not aligned to its size. */
  lemma LargePagesMayBeUnaligned()
    ensures HeapOk(0x6_0000, 101)
    ensures MallocStep(Boot(0x6_0000, 101), 32768).1 == Pages(0x6_0001) && 0x6_0001 * PAGE % 32768 != 0
  {
    var s := Boot(0x6_0000, 101);
    assert s.zp == 8 && s.store.pages == [P.Run(0x6_0001, 100)];
    assert P.Alloc(s.store.pages, 8).1 == P.Some(0x6_0001);
  }

  /** A large request gets pages that were free; zones and chunks are not touched. */
  lemma MallocLargeRight(s: Slab, heap: set<nat>, size: nat)
    requires Inv(s, heap) && size >= Limit(s.zp)
    ensures var (s', got) := MallocStep(s, size); var n := PageCount(size);
      && Inv(s', heap) && s'.zones == s.zones && (got == Null ==> s' == s)
      && (got != Null ==> got.Pages? && LiveLarge(s', got.a, n) && forall p :: P.Within(got.a, n, p) ==> P.Free(s.store.pages, p))
      && (got != Null && size < U32 ==> size <= n * PAGE)
  {
    var n := PageCount(size);
    if size < U32 { PagesCover(size); }
    if TakeLarge(s.store, n).1.Some? {
      TakeLargeKeeps(s.store, s.zp, AllZones(s), heap, n);
      forall p | P.Within(TakeLarge(s.store, n).1.page, n, p)
        ensures P.Free(s.store.pages, p)
      {
        P.AllocTakes(s.store.pages, n, p);
      }
      var s' := MallocStep(s, size).0;
      assert AllZones(s') == AllZones(s);
      ZonesInvParts(s);
      ZonesInvParts(s');
    }
  }

  /** The address of a chunk in a caller's hands leads rt_free to its zone and its number. */
  lemma FreeFindsChunk(s: Slab, heap: set<nat>, z: nat, k: nat)
    requires Inv(s, heap) && Live(s, z, k)
    ensures FreeAt(s, Addr(z, SizeOf(s.zones[z]), k)) == FreeSmall(s, z, k)
  {
    var c := SizeOf(s.zones[z]);
    var ptr := Addr(z, c, k);
    assert ZoneOk(s.zp, s.zones[z]);
    AddrFinds(s.zp, z, c, k);
    ChunkInside(s.zp, z, c, k);
    BaseBound(c);
    var page := ptr / PAGE;
    assert Whole(s.store.owner, z, s.zp, InZone(z));
    assert page in s.store.owner && OwnerOk(s.store, s.zp, AllZones(s), page);
    Product(k, c);
  }

  /** The page of an address that a caller holds leads rt_free to what it must release. */
  lemma FreeFinds(s: Slab, heap: set<nat>, e: Event)
    requires Inv(s, heap) && Enabled(s, e)
    ensures match e
      case Allocate(_) => true
      case FreeChunk(z, k) =>
        var ptr := Addr(z, SizeOf(s.zones[z]), k);
        && ptr / PAGE in s.store.usage && s.store.usage[ptr / PAGE].SmallPage?
        && ptr / PAGE - s.store.usage[ptr / PAGE].offset == z && ChunkNumber(z, SizeOf(s.zones[z]), ptr) == k
      case FreePages(a, n) =>
        a * PAGE / PAGE == a && a in s.store.usage && s.store.usage[a] == LargePage(n)
  {
    match e
    case Allocate(_) =>
    case FreePages(a, n) =>
      Multiple(a, PAGE);
      assert P.Within(a, n, a) && OwnerOk(s.store, s.zp, AllZones(s), a);
    case FreeChunk(z, k) =>
      var c := SizeOf(s.zones[z]);
      var ptr := Addr(z, c, k);
      assert ZoneOk(s.zp, s.zones[z]);
      AddrFinds(s.zp, z, c, k);
      ChunkInside(s.zp, z, c, k);
      Product(k, c);
      assert Whole(s.store.owner, z, s.zp, InZone(z));
      assert ptr / PAGE in s.store.owner && OwnerOk(s.store, s.zp, AllZones(s), ptr / PAGE);
  }

  /** Releasing a chunk takes exactly that chunk out of the callers' hands. */
  lemma FreeChunkRight(s: Slab, heap: set<nat>, z: nat, k: nat)
    requires Inv(s, heap) && Live(s, z, k)
    ensures var s' := FreeAt(s, Addr(z, SizeOf(s.zones[z]), k));
      Inv(s', heap) && forall y: nat, j: nat :: LiveIn(s'.zones, y, j) <==> LiveIn(s.zones, y, j) && !(y == z && j == k)
  {
    FreeFindsChunk(s, heap, z, k);
    FreeSmallKeeps(s, heap, z, k);
  }

  /** Releasing a large allocation gives its pages back and touches no chunk. */
  lemma FreeLargeRight(s: Slab, heap: set<nat>, a: nat, n: nat)
    requires Inv(s, heap) && LiveLarge(s, a, n)
    ensures var s' := FreeAt(s, a * PAGE);
      && Inv(s', heap) && s'.zones == s.zones
      && forall p: nat :: P.Free(s'.store.pages, p) <==> P.Free(s.store.pages, p) || P.Within(a, n, p)
  {
    Multiple(a, PAGE);
    assert P.Within(a, n, a) && OwnerOk(s.store, s.zp, AllZones(s), a);
    GiveLargeKeeps(s.store, s.zp, AllZones(s), heap, a, n);
    var s' := FreeAt(s, a * PAGE);
    forall p: nat
      ensures P.Free(s'.store.pages, p) <==> P.Free(s.store.pages, p) || P.Within(a, n, p)
    {
      P.ReleaseAdds(s.store.pages, a, n, p);
    }
    assert AllZones(s') == AllZones(s);
    ZonesInvParts(s);
    ZonesInvParts(s');
  }

  /** No two chunks in callers' hands overlap, whatever their zones and sizes. */
  lemma LiveChunksApart(s: Slab, heap: set<nat>, y: nat, j: nat, z: nat, k: nat)
    requires Inv(s, heap) && Live(s, y, j) && Live(s, z, k) && !(y == z && j == k)
    ensures var (a, c, b, d) := (Addr(y, SizeOf(s.zones[y]), j), SizeOf(s.zones[y]), Addr(z, SizeOf(s.zones[z]), k), SizeOf(s.zones[z]));
      a + c <= b || b + d <= a
  {
    if y == z {
      if j < k { ChunksApart(y, SizeOf(s.zones[y]), j, k); } else { ChunksApart(y, SizeOf(s.zones[y]), k, j); }
    } else {
      ZonesApart(s, heap, y, z);
      assert ZoneOk(s.zp, s.zones[y]) && ZoneOk(s.zp, s.zones[z]);
      ChunkInside(s.zp, y, SizeOf(s.zones[y]), j);
      ChunkInside(s.zp, z, SizeOf(s.zones[z]), k);
    }
  }

  lemma ZonesApart(s: Slab, heap: set<nat>, y: nat, z: nat)
    requires Inv(s, heap) && y in s.zones && z in s.zones && y != z
    ensures y + s.zp <= z || z + s.zp <= y
  {
    assert Whole(s.store.owner, y, s.zp, InZone(y)) && Whole(s.store.owner, z, s.zp, InZone(z));
    var p := if y < z then z else y;
    assert P.Within(y, s.zp, p) && P.Within(z, s.zp, p) ==> InZone(y) == InZone(z);
    assert P.Within(y, s.zp, p) <==> y <= p < y + s.zp;
    assert P.Within(z, s.zp, p) <==> z <= p < z + s.zp;
  }

  /** A chunk never lies in the pages of a large allocation. */
  lemma ChunkNotInLarge(s: Slab, heap: set<nat>, z: nat, k: nat, a: nat, n: nat)
    requires Inv(s, heap) && Live(s, z, k) && LiveLarge(s, a, n)
    ensures !P.Within(a, n, Addr(z, SizeOf(s.zones[z]), k) / PAGE)
  {
    var page := Addr(z, SizeOf(s.zones[z]), k) / PAGE;
    assert ZoneOk(s.zp, s.zones[z]);
    AddrFinds(s.zp, z, SizeOf(s.zones[z]), k);
    assert Whole(s.store.owner, z, s.zp, InZone(z));
  }

  // ---------------------------------------------------------------- whole runs

  datatype Event = Allocate(size: nat) | FreeChunk(z: nat, k: nat) | FreePages(a: nat, n: nat)

  /** Callers release what they hold. */
  ghost predicate Enabled(s: Slab, e: Event) {
    match e
    case Allocate(_) => true
    case FreeChunk(z, k) => Live(s, z, k)
    case FreePages(a, n) => LiveLarge(s, a, n)
  }

  function Do(s: Slab, e: Event): Slab {
    match e
    case Allocate(size) => MallocStep(s, size).0
    case FreeChunk(z, k) => FreeAt(s, Addr(z, SizeOf(ZoneAt(s, z)), k))
    case FreePages(a, _) => FreeAt(s, a * PAGE)
  }

  lemma StepKeepsInv(s: Slab, heap: set<nat>, e: Event)
    requires Inv(s, heap) && Enabled(s, e)
    ensures Inv(Do(s, e), heap)
  {
    match e
    case Allocate(size) =>
      if 0 < size < Limit(s.zp) { MallocSmallRight(s, heap, size); }
      else if size > 0 { MallocLargeRight(s, heap, size); }
    case FreeChunk(z, k) => FreeChunkRight(s, heap, z, k);
    case FreePages(a, n) => FreeLargeRight(s, heap, a, n);
  }

  // ---------------------------------------------------------------- exactly what each operation does

  /** A request is served from zones exactly below a quarter of the zone size and below 16 KiB. */
  lemma LimitExactly(zp: nat, size: nat)
    requires ZonePages(zp)
    ensures size < Limit(zp) <==> size < 16384 && 4 * size < zp * PAGE
  {
  }

  /** A large request takes as many pages as hold it and no more, unless rounding up wraps: then none. */
  lemma PageCountExactly(size: nat)
    requires 0 < size < U32
    ensures var n := PageCount(size);
      if size + (PAGE - 1) < U32 then n > 0 && (n - 1) * PAGE < size <= n * PAGE else n == 0
  {
    RoundedUp(size, PAGE);
  }

  /** `a` is the lowest place for `n` pages in a row, and those are the pages that are taken. */
  ghost predicate LowestTaken(before: seq<P.Run>, after: seq<P.Run>, a: nat, n: nat) {
    && P.Row(before, a, n) && (forall b: nat :: P.Row(before, b, n) ==> a <= b)
    && forall p: nat :: P.Free(after, p) <==> P.Free(before, p) && !P.Within(a, n, p)
  }

  lemma AllocIsLowest(runs: seq<P.Run>, n: nat)
    requires P.Ordered(runs) && P.Alloc(runs, n).1.Some?
    ensures n > 0 && LowestTaken(runs, P.Alloc(runs, n).0, P.Alloc(runs, n).1.page, n)
  {
    var (after, some) := P.Alloc(runs, n);
    forall p: nat
      ensures P.Within(some.page, n, p) ==> P.Free(runs, p)
      ensures P.Free(after, p) <==> P.Free(runs, p) && !P.Within(some.page, n, p)
    {
      P.AllocTakes(runs, n, p);
    }
    forall b: nat | P.Row(runs, b, n)
      ensures some.page <= b
    {
      P.AllocLowestRow(runs, n, b);
    }
  }

  /** A large request gets the lowest row of free pages that is long enough; it fails exactly when there is none,
      or the page count wrapped to zero. */
  lemma MallocLargeExactly(s: Slab, heap: set<nat>, size: nat)
    requires Inv(s, heap) && size >= Limit(s.zp)
    ensures var (s', got) := MallocStep(s, size); var n := PageCount(size);
      && (got == Null <==> n == 0 || forall a: nat :: !P.Row(s.store.pages, a, n))
      && (got != Null ==> got.Pages? && LowestTaken(s.store.pages, s'.store.pages, got.a, n))
      && s' == s.(store := s'.store)
  {
    var n := PageCount(size);
    if P.Alloc(s.store.pages, n).1.Some? { AllocIsLowest(s.store.pages, n); }
    if n > 0 { P.AllocFailsExactly(s.store.pages, n); }
  }

  /** With a zone of the right number in the list, the first one serves the request, from its never-used chunks
      while there are any and then with the chunk that was freed last; nothing else changes but the list that the
      zone leaves with its last chunk. */
  lemma MallocListedExactly(s: Slab, heap: set<nat>, size: nat, i: nat)
    requires Inv(s, heap) && 0 < size < Limit(s.zp) && List(s, Index(size)) != []
    ensures var (s', got) := MallocStep(s, size); var z := List(s, Index(size))[0];
      got.Chunk? && got.z == z && z in s.zones && s' == s.(zones := s.zones[z := ZoneAt(s', z)], lists := s'.lists)
    ensures var (s', got) := MallocStep(s, size); var z := List(s, Index(size))[0]; var zone, zone' := s.zones[z], ZoneAt(s', z);
      && zone' == zone.(nfree := zone.nfree - 1, uindex := zone'.uindex, free := zone'.free)
      && (if zone.uindex + 1 < zone.nmax then got.k == zone'.uindex == zone.uindex + 1 && zone'.free == zone.free
          else zone'.uindex == zone.uindex && [got.k] + zone'.free == zone.free)
      && List(s', i) == if i == Index(size) && zone.nfree == 1 then List(s, i)[1..] else List(s, i)
  {
    SmallFits(s.zp, size);
    ListedZone(s, Index(size));
  }

  /** `n` chunks of size `c` fit behind the header, and one more does not. */
  predicate Filled(zp: nat, c: nat, n: nat) { Base(c) + n * c <= zp * PAGE < Base(c) + n * c + c }

  /** With no such zone the request opens one: the spare zone that was kept last, or else the lowest row of free
      pages; the zone serves its first chunk and is alone in its list. */
  lemma MallocOpensExactly(s: Slab, heap: set<nat>, size: nat, i: nat)
    requires Inv(s, heap) && 0 < size < Limit(s.zp) && List(s, Index(size)) == [] && MallocStep(s, size).1 != Null
    ensures var (s', got) := MallocStep(s, size);
      && got.Chunk? && got.k == 0 && got.z !in s.zones
      && s' == s.(zones := s.zones[got.z := ZoneAt(s', got.z)], lists := s'.lists, spare := s'.spare, store := s'.store)
      && (if s.spare != [] then [got.z] + s'.spare == s.spare && s'.store == s.store
          else s'.spare == [] && LowestTaken(s.store.pages, s'.store.pages, got.z, s.zp))
    ensures var (s', got) := MallocStep(s, size); var zone := ZoneAt(s', got.z);
      && zone.index == Index(size) && zone.uindex == 0 && zone.free == [] && zone.nfree == zone.nmax - 1
      && Filled(s.zp, ChunkOf(zone.index), zone.nmax)
      && List(s', i) == if i == Index(size) then [got.z] else List(s, i)
  {
    SmallFits(s.zp, size);
    ZoneHolds(s.zp, ChunkOf(Index(size)));
    ZoneIsFilled(s.zp, ChunkOf(Index(size)));
    MallocSmallRight(s, heap, size);
    if s.spare == [] {
      AllocIsLowest(s.store.pages, s.zp);
      TakeZoneKeeps(s.store, s.zp, AllZones(s), heap);
    } else {
      assert s.spare[0] in s.spare;
    }
  }

  /** No other chunk of the zone is in a caller's hands. */
  ghost predicate LastOut(s: Slab, z: nat, k: nat) { forall j: nat :: Live(s, z, j) ==> j == k }

  /** Another zone of the same number has free chunks. */
  ghost predicate OtherServes(s: Slab, z: nat) {
    exists y :: y in s.zones && y != z && s.zones[y].index == ZoneAt(s, z).index && s.zones[y].nfree > 0
  }

  /** A zone that lacks one chunk of being full has only that chunk out. */
  lemma LackingOne(zp: nat, zone: Zone, k: nat, j: nat)
    requires ZoneOk(zp, zone) && k <= zone.uindex && k !in zone.free && zone.nfree + 1 == zone.nmax
    requires j <= zone.uindex && j !in zone.free
    ensures j == k
  {
    PutChunkKeeps(zp, zone, k);
    FullMeansUnused(zp, PutChunk(zone, k), j);
  }

  /** Counting back the last chunk that is out makes the zone full. */
  lemma LastBack(zp: nat, zone: Zone, k: nat)
    requires ZoneOk(zp, zone) && k <= zone.uindex && k !in zone.free
    requires forall j: nat :: j <= zone.uindex && j !in zone.free ==> j == k
    ensures zone.nfree + 1 == zone.nmax
  {
    NoDupCount(zone.free);
    var all, freed := UpTo(zone.uindex + 1), Elems(zone.free);
    forall j: nat
      ensures j in all <==> j in freed + {k}
    {
      assert j in all <==> j < zone.uindex + 1;
    }
    assert all == freed + {k} && k !in freed;
  }

  lemma LastOutExactly(s: Slab, z: nat, k: nat)
    requires ZonesInv(s) && Live(s, z, k)
    ensures s.zones[z].nfree + 1 == s.zones[z].nmax <==> LastOut(s, z, k)
  {
    var zone := s.zones[z];
    assert ZoneOk(s.zp, zone);
    if zone.nfree + 1 == zone.nmax {
      forall j: nat | Live(s, z, j)
        ensures j == k
      {
        LackingOne(s.zp, zone, k, j);
      }
    }
    if LastOut(s, z, k) {
      forall j: nat | j <= zone.uindex && j !in zone.free
        ensures j == k
      {
        assert Live(s, z, j);
      }
      LastBack(s.zp, zone, k);
    }
  }

  /** Whether the list, with the zone back in it, has a second zone. */
  lemma OtherServesExactly(s: Slab, z: nat, k: nat)
    requires ZonesInv(s) && Live(s, z, k)
    ensures |List(PutBack(s, z, k), s.zones[z].index)| >= 2 <==> OtherServes(s, z)
  {
    var zi := s.zones[z].index;
    assert ZoneOk(s.zp, s.zones[z]);
    var list := s.lists[zi];
    assert ListOk(s.zones, list, zi);
    PutLists(s, z, k);
    var list' := List(PutBack(s, z, k), zi);
    assert ListOk(PutBack(s, z, k).zones, list', zi) && z in list';
    if |list'| >= 2 {
      var y := if list'[0] == z then list'[1] else list'[0];
      assert y in list' && y != z && y in list;
    }
    if y :| y in s.zones && y != z && s.zones[y].index == zi && s.zones[y].nfree > 0 {
      assert y in list && y in list' && z in list';
    }
  }

  /** The zone is full and not alone in its list. */
  predicate Leaves(s: Slab, z: nat, k: nat) {
    ZoneAt(s, z).nfree + 1 == ZoneAt(s, z).nmax && |List(PutBack(s, z, k), ZoneAt(s, z).index)| >= 2
  }

  lemma FreeSmallParts(s: Slab, z: nat, k: nat, i: nat)
    requires z in s.zones && s.zones[z].index < |s.lists|
    ensures var s', zone := FreeSmall(s, z, k), s.zones[z];
      && (z in s'.zones <==> !Leaves(s, z, k))
      && s'.zones == (if Leaves(s, z, k) then s.zones - {z} else s.zones[z := PutChunk(zone, k)])
      && s'.zp == s.zp && (!Leaves(s, z, k) ==> s'.spare == s.spare && s'.store == s.store)
      && List(s', i) ==
          (var list := if i == zone.index && zone.nfree == 0 then [z] + List(s, i) else List(s, i);
          if i == zone.index && Leaves(s, z, k) then Unlink(list, z) else list)
  {
  }

  /** A zone leaves service exactly when the chunk that comes back was the last one out and another zone of its
      number has free chunks; otherwise the chunk is the next to be reused. */
  lemma FreeChunkExactly(s: Slab, heap: set<nat>, z: nat, k: nat)
    requires Inv(s, heap) && Live(s, z, k)
    ensures var s', zone := Do(s, FreeChunk(z, k)), s.zones[z];
      && (z !in s'.zones <==> LastOut(s, z, k) && OtherServes(s, z))
      && s'.zones == (if z in s'.zones then s.zones[z := zone.(nfree := zone.nfree + 1, free := [k] + zone.free)] else s.zones - {z})
      && s'.zp == s.zp && (z in s'.zones ==> s'.spare == s.spare && s'.store == s.store)
  {
    FreeFindsChunk(s, heap, z, k);
    LastOutExactly(s, z, k);
    OtherServesExactly(s, z, k);
    assert ZoneOk(s.zp, s.zones[z]);
    FreeSmallParts(s, z, k, 0);
  }

  /** The lists after a chunk came back: its zone is first if it had left, gone if it leaves service, and every
      other zone keeps its place. */
  lemma FreeChunkLists(s: Slab, heap: set<nat>, z: nat, k: nat, i: nat)
    requires Inv(s, heap) && Live(s, z, k)
    ensures var s', zone := Do(s, FreeChunk(z, k)), s.zones[z];
      List(s', i) ==
        if i != zone.index then List(s, i)
        else if z !in s'.zones then Unlink(List(s, i), z)
        else if zone.nfree == 0 then [z] + List(s, i)
        else List(s, i)
  {
    FreeFindsChunk(s, heap, z, k);
    assert ZoneOk(s.zp, s.zones[z]);
    FreeSmallParts(s, z, k, i);
  }

  /** A zone that leaves service is kept as a spare, in front, as long as fewer than THRESHOLD are kept; after that
      exactly its pages go back. */
  lemma RetiredExactly(s: Slab, heap: set<nat>, z: nat, k: nat, p: nat)
    requires Inv(s, heap) && Live(s, z, k) && z !in Do(s, FreeChunk(z, k)).zones
    ensures var s' := Do(s, FreeChunk(z, k));
      if |s.spare| < 2 then s'.spare == [z] + s.spare && s'.store == s.store
      else s'.spare == s.spare && (P.Free(s'.store.pages, p) <==> P.Free(s.store.pages, p) || P.Within(z, s.zp, p))
  {
    FreeFindsChunk(s, heap, z, k);
    if |s.spare| >= 2 {
      GiveZoneKeeps(s.store, s.zp, AllZones(s), heap, z);
      P.ReleaseAdds(s.store.pages, z, s.zp, p);
    }
  }

  // ---------------------------------------------------------------- runs from the start

  ghost predicate EnabledRun(s: Slab, es: seq<Event>)
    decreases |es|
  {
    es == [] || (Enabled(s, es[0]) && EnabledRun(Do(s, es[0]), es[1..]))
  }

  function RunAll(s: Slab, es: seq<Event>): Slab
    decreases |es|
  {
    if es == [] then s else RunAll(Do(s, es[0]), es[1..])
  }

  /** The pages from `start` on, `npages` of them, that rt_system_heap_init makes of a region: at least one,
      not at address 0, all below 2^32. */
  predicate HeapOk(start: nat, npages: nat) { 0 < start && 0 < npages && (start + npages) * PAGE < U32 }

  /** zone_page_cnt of a heap of `limsize` bytes. */
  function ZonePageCount(limsize: nat): nat {
    if limsize / 1024 > 131072 then 32 else if limsize / 1024 > 65536 then 16 else 8
  }

  /** The pages of the memusage table: four bytes for every page of the heap. */
  function TablePages(npages: nat): nat { (npages * 4 + (PAGE - 1)) / PAGE }

  /** rt_system_heap_init: all pages are free but those of the memusage table, the first of the heap. */
  function Boot(start: nat, npages: nat): Slab {
    Slab(ZonePageCount(npages * PAGE), Store(P.Alloc([P.Run(start, npages)], TablePages(npages)).0, map[], map[]),
         map[], seq(NZONES, _ => []), [])
  }

  /** The pages that are left to allocate from. */
  function HeapPages(start: nat, npages: nat): set<nat>
    requires HeapOk(start, npages)
  {
    TableFits(npages);
    P.Span(start + TablePages(npages), npages - TablePages(npages))
  }

  lemma TableFits(npages: nat)
    requires npages > 0
    ensures 0 < TablePages(npages) <= npages
  {
  }

  /** What is left of the one run of free pages. */
  lemma TableTaken(start: nat, npages: nat)
    requires npages > 0
    ensures TablePages(npages) <= npages
    ensures var t := TablePages(npages);
      Boot(start, npages).store.pages == if t < npages then [P.Run(start + t, npages - t)] else []
  {
    TableFits(npages);
    assert [P.Run(start, npages)][1..] == [];
  }

  lemma BootInv(start: nat, npages: nat)
    requires HeapOk(start, npages)
    ensures Inv(Boot(start, npages), HeapPages(start, npages))
  {
    var s, t := Boot(start, npages), TablePages(npages);
    TableTaken(start, npages);
    var runs := s.store.pages;
    assert runs != [] ==> runs[1..] == [];
    forall p: nat
      ensures P.Free(runs, p) <==> p in HeapPages(start, npages)
    {
      assert p in HeapPages(start, npages) <==> P.Within(start + t, npages - t, p);
    }
  }

  lemma {:induction false} RunKeepsInv(s: Slab, heap: set<nat>, es: seq<Event>)
    requires Inv(s, heap) && EnabledRun(s, es)
    ensures Inv(RunAll(s, es), heap)
    decreases |es|
  {
    if es != [] {
      StepKeepsInv(s, heap, es[0]);
      RunKeepsInv(Do(s, es[0]), heap, es[1..]);
    }
  }

  /** After any run: z_nfree counts the chunks that were never used and those that were freed, and a zone
      is in the list of its number exactly when that count is not zero. */
  lemma CountsEver(start: nat, npages: nat, es: seq<Event>, z: nat)
    requires HeapOk(start, npages) && EnabledRun(Boot(start, npages), es)
    requires z in RunAll(Boot(start, npages), es).zones
    ensures var s := RunAll(Boot(start, npages), es); var zone := s.zones[z];
      && zone.nfree == zone.nmax - 1 - zone.uindex + |zone.free|
      && (forall i: nat :: z in List(s, i) <==> i == zone.index && zone.nfree > 0)
      && z !in s.spare
  {
    BootInv(start, npages);
    RunKeepsInv(Boot(start, npages), HeapPages(start, npages), es);
    var s := RunAll(Boot(start, npages), es);
    assert ZoneOk(s.zp, s.zones[z]);
    forall i: nat
      ensures z in List(s, i) <==> i == s.zones[z].index && s.zones[z].nfree > 0
    {
      if i < NZONES { assert ListOk(s.zones, s.lists[i], i); }
    }
  }

  // ---------------------------------------------------------------- the allocator object

  const NIL: int := -1

  function Ptr(s: Slab, got: Got): int {
    match got
    case Null => NIL
    case Chunk(z, k) => Addr(z, SizeOf(ZoneAt(s, z)), k)
    case Pages(a) => a * PAGE
  }

  /** The zone size of rt_system_heap_init, in bytes. */
  method ZoneSize(limsize: nat) returns (zoneSize: nat)
    ensures zoneSize == ZonePageCount(limsize) * PAGE
    ensures zoneSize > 32768 ==> zoneSize < limsize / 1024
    ensures zoneSize < 131072 ==> zoneSize * 2 >= limsize / 1024
  {
    zoneSize := 32768;
    while zoneSize < 131072 && zoneSize * 2 < limsize / 1024
      invariant zoneSize in {32768, 65536, 131072}
      invariant zoneSize > 32768 ==> zoneSize < limsize / 1024
      decreases 131072 - zoneSize
    {
      zoneSize := zoneSize * 2;
    }
  }

  class SlabHeap {
    const zp: nat                          // zone_page_cnt
    const pages: P.PageHeap                // rt_page_list
    var usage: map<nat, Usage>             // memusage
    var zones: map<nat, Zone>              // the zone headers
    var lists: seq<seq<nat>>               // zone_array, linked by z_next
    var spare: seq<nat>                    // zone_free
    ghost var owner: map<nat, Owner>
    ghost const heap: set<nat>

    ghost predicate Valid()
      reads this, pages
    {
      pages.Valid() && Inv(Abs(), heap)
    }

    ghost function Abs(): Slab
      reads this, pages
    {
      Slab(zp, Store(pages.runs, usage, owner), zones, lists, spare)
    }

    /** rt_system_heap_init, for the pages that its region holds. */
    constructor (start: nat, npages: nat)
      requires HeapOk(start, npages)
      ensures Valid() && Abs() == Boot(start, npages) && fresh(pages)
    {
      var free := new P.PageHeap(start, npages);
      var zoneSize := ZoneSize(npages * PAGE);
      this.zp := zoneSize / PAGE;
      var table := free.AllocPages((npages * 4 + (PAGE - 1)) / PAGE);
      this.pages := free;
      usage, zones, spare, owner := map[], map[], [], map[];
      lists := seq(NZONES, _ => []);
      heap := HeapPages(start, npages);
      new;
      BootInv(start, npages);
      assert Abs() == Boot(start, npages);
    }

    /** A never-used chunk, or the last one freed, of a zone whose z_nfree was already decremented. */
    method PickChunk(z: nat) returns (k: nat)
      requires z in zones && (zones[z].uindex + 1 == zones[z].nmax ==> zones[z].free != [])
      modifies this`zones
      ensures var zone := old(zones)[z]; var taken := TakeChunk(zone.(nfree := zone.nfree + 1));
        zones == old(zones)[z := taken.0] && k == taken.1
    {
      if zones[z].uindex + 1 != zones[z].nmax {
        zones := zones[z := zones[z].(uindex := zones[z].uindex + 1)];
        k := zones[z].uindex;
      } else {
        k := zones[z].free[0];
        zones := zones[z := zones[z].(free := zones[z].free[1..])];
      }
    }

    /** One chunk less in the first zone `z` of a list; a zone without free chunks leaves the list. */
    method TakeFromZone(z: nat, zi: nat) returns (k: nat)
      requires zi < |lists| && lists[zi] != [] && z in zones
      requires zones[z].uindex + 1 == zones[z].nmax ==> zones[z].free != []
      modifies this`zones, this`lists
      ensures var taken := TakeChunk(old(zones)[z]);
        && zones == old(zones)[z := taken.0] && k == taken.1
        && lists == if taken.0.nfree == 0 then SetList(old(lists), zi, old(lists)[zi][1..]) else old(lists)
    {
      ghost var zones0 := zones;
      var nfree := zones[z].nfree - 1;
      zones := zones[z := zones[z].(nfree := nfree)];
      if nfree == 0 { lists := lists[zi := lists[zi][1..]]; }
      k := PickChunk(z);
      assert zones == zones0[z := TakeChunk(zones0[z]).0];
    }

    /** The chunk is taken from the first zone in the list. */
    method TakeFromList(zi: nat) returns (ptr: int)
      requires Valid() && zi < NZONES && zi < |lists| && lists[zi] != []
      modifies this`zones, this`lists
      ensures Valid() && Abs() == MallocSmall(old(Abs()), zi).0 && ptr == Ptr(Abs(), MallocSmall(old(Abs()), zi).1)
    {
      MallocListed(Abs(), heap, zi);
      ListedZone(Abs(), zi);
      var z := lists[zi][0];
      var k := TakeFromZone(z, zi);
      ptr := Addr(z, ChunkOf(zones[z].index), k);
    }

    /** A zone goes into service. */
    method Open(z: nat, zi: nat) returns (ptr: int)
      requires zi < |lists| && ChunkSize(zp, ChunkOf(zi)) && ZonePages(zp)
      modifies this`zones, this`lists
      ensures Abs() == OpenZone(old(Abs()), z, zi).0 && ptr == Ptr(Abs(), Chunk(z, 0))
    {
      ZoneHolds(zp, ChunkOf(zi));
      var nmax := Nmax(zp, ChunkOf(zi));
      zones := zones[z := Zone(zi, nmax, nmax - 1, 0, [])];
      lists := lists[zi := [z] + lists[zi]];
      ptr := Addr(z, ChunkOf(zi), 0);
    }

    /** The chunk is taken from a spare zone, or from a zone made of fresh pages. */
    method TakeFromNewZone(zi: nat) returns (ptr: int)
      requires Valid() && zi < NZONES && zi < |lists| && lists[zi] == [] && ChunkSize(zp, ChunkOf(zi))
      modifies this`zones, this`lists, this`spare, this`usage, this`owner, pages
      ensures Valid() && Abs() == MallocSmall(old(Abs()), zi).0 && ptr == Ptr(Abs(), MallocSmall(old(Abs()), zi).1)
    {
      ghost var s := Abs();
      if spare != [] {
        MallocSpare(s, heap, zi);
        var z := spare[0];
        spare := spare[1..];
        ptr := Open(z, zi);
      } else {
        ptr := TakeFromPages(zi);
      }
    }

    method TakeFromPages(zi: nat) returns (ptr: int)
      requires Valid() && zi < NZONES && zi < |lists| && lists[zi] == [] && spare == [] && ChunkSize(zp, ChunkOf(zi))
      modifies this`zones, this`lists, this`usage, this`owner, pages
      ensures Valid() && Abs() == MallocSmall(old(Abs()), zi).0 && ptr == Ptr(Abs(), MallocSmall(old(Abs()), zi).1)
    {
      ghost var s := Abs();
      ZonesInvParts(s);
      AllocNone(s.store.pages, zp);
      var z := pages.AllocPages(zp);
      if z == P.NIL { return NIL; }
      MallocNewZone(s, heap, zi);
      usage := Marked(usage, z, zp);
      owner := Claimed(owner, z, zp, InZone(z));
      ptr := Open(z, zi);
    }

    lemma AllocNone(runs: seq<P.Run>, n: nat)
      ensures P.Alloc(runs, n).1 == P.None ==> P.Alloc(runs, n).0 == runs
    {
      if P.Alloc(runs, n).1 == P.None { P.AllocNone(runs, n); }
    }

    /** A large request. */
    method TakePages(size: nat) returns (ptr: int)
      requires Valid() && size >= Limit(zp)
      modifies this`usage, this`owner, pages
      ensures Valid() && Abs() == MallocLarge(old(Abs()), size).0 && ptr == Ptr(Abs(), MallocLarge(old(Abs()), size).1)
    {
      ghost var s := Abs();
      LimitPositive();
      MallocLargeRight(s, heap, size);
      AllocNone(s.store.pages, PageCount(size));
      var n := PageCount(size);
      var a := pages.AllocPages(n);
      if a == P.NIL { return NIL; }
      usage := usage[a := LargePage(n)];
      owner := Claimed(owner, a, n, InLarge(a, n));
      ptr := a * PAGE;
    }

    lemma LimitPositive()
      requires Valid()
      ensures Limit(zp) > 0
    {
    }

    /** rt_malloc. */
    method Malloc(size: nat) returns (ptr: int)
      requires Valid()
      modifies this`zones, this`lists, this`spare, this`usage, this`owner, pages
      ensures Valid() && Abs() == MallocStep(old(Abs()), size).0 && ptr == Ptr(Abs(), MallocStep(old(Abs()), size).1)
    {
      if size == 0 { return NIL; }
      if size >= Limit(zp) {
        ptr := TakePages(size);
        return;
      }
      ZonesInvParts(Abs());
      SmallFits(zp, size);
      var chunk, zi := Zoneindex(size);
      if lists[zi] != [] {
        ptr := TakeFromList(zi);
      } else {
        ptr := TakeFromNewZone(zi);
      }
    }

    /** The head of rt_free for a chunk: back to the zone, and the zone back to its list. */
    method PutChunkBack(z: nat, k: nat)
      requires z in zones && zones[z].index < |lists|
      modifies this`zones, this`lists
      ensures Abs() == PutBack(old(Abs()), z, k)
    {
      var zone := zones[z];
      zones := zones[z := zone.(free := [k] + zone.free, nfree := zone.nfree + 1)];
      if zone.nfree == 0 {
        lists := lists[zone.index := [z] + lists[zone.index]];
      }
    }

    /** The tail of rt_free: an unused zone becomes a spare, or its pages go back. */
    method RetireZone(z: nat)
      requires Valid() && z in zones && zones[z].nfree == zones[z].nmax
      modifies this`zones, this`lists, this`spare, this`usage, this`owner, pages
      ensures Valid() && Abs() == Retire(old(Abs()), z)
    {
      ghost var s := Abs();
      RetireKeeps(s, heap, z);
      ZonesInvParts(s);
      assert ZoneOk(zp, zones[z]);
      var zi := zones[z].index;
      lists := lists[zi := Unlink(lists[zi], z)];
      zones := zones - {z};
      spare := [z] + spare;
      if |spare| > THRESHOLD {
        spare := spare[1..];
        GiveZoneKeeps(s.store, zp, AllZones(s), heap, z);
        usage := Unmarked(usage, z, zp);
        owner := owner - P.Span(z, zp);
        pages.ReleasePages(z, zp);
      }
    }

    /** rt_free of a chunk. */
    method FreeInZone(z: nat, k: nat)
      requires Valid() && Live(Abs(), z, k)
      modifies this`zones, this`lists, this`spare, this`usage, this`owner, pages
      ensures Valid() && Abs() == FreeSmall(old(Abs()), z, k)
    {
      ghost var s := Abs();
      PutListed(s, heap, z, k);
      ZonesInvParts(s);
      assert ZoneOk(zp, zones[z]);
      PutChunkBack(z, k);
      if zones[z].nfree == zones[z].nmax && |lists[zones[z].index]| >= 2 { RetireZone(z); }
    }

    /** rt_free of a large allocation. */
    method FreeLarge(a: nat, n: nat)
      requires Valid() && LiveLarge(Abs(), a, n)
      modifies this`usage, this`owner, pages
      ensures Valid() && Abs() == old(Abs()).(store := GiveLarge(old(Abs()).store, a, n))
    {
      ghost var s := Abs();
      GiveLargeKeeps(s.store, zp, AllZones(s), heap, a, n);
      usage := usage[a := LargePage(0)];
      owner := owner - P.Span(a, n);
      pages.ReleasePages(a, n);
      ZonesInvParts(s);
      ZonesInvParts(Abs());
      assert AllZones(Abs()) == AllZones(s);
    }

    /** The address of what `e` releases. */
    ghost predicate Releases(ptr: int, e: Event)
      reads this, pages
      requires Valid()
    {
      Enabled(Abs(), e) &&
      match e
      case FreeChunk(z, k) => ptr == Addr(z, SizeOf(zones[z]), k)
      case FreePages(a, _) => ptr == a * PAGE
      case Allocate(_) => false
    }

    /** rt_free of null, or of an address that `e` says a caller holds. */
    method Free(ptr: int, ghost e: Event)
      requires Valid() && (ptr == NIL || Releases(ptr, e))
      modifies this`zones, this`lists, this`spare, this`usage, this`owner, pages
      ensures Valid() && Abs() == if ptr == NIL then old(Abs()) else Do(old(Abs()), e)
    {
      if ptr == NIL { return; }
      ghost var s := Abs();
      var page := ptr / PAGE;
      FreeFinds(s, heap, e);
      match usage[page]
      case LargePage(n) => FreeLarge(page, n);
      case SmallPage(off) =>
        var z := page - off;
        FreeInZone(z, ChunkNumber(z, SizeOf(zones[z]), ptr));
    }
  }
}
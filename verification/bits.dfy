/**
  The bit operations behind the ready group: __rt_ffs with its byte table (kservice.c), and the mask
  of one priority (thread.c).
*/
module Bits {
  import opened Hiding

  /** current_priority is an 8-bit number below RT_THREAD_PRIORITY_MAX. */
  type Priority = p: bv8 | p < 32 witness 0

  /** number_mask. */
  function Mask(p: Priority): bv32 { (1 as bv32) << (p as bv32) }

  predicate Has(group: bv32, p: Priority) { group & Mask(p) != 0 }

  /** __lowest_bit_bitmap: every row is the same but for its first entry. */
  function Column(x: bv8): bv8 {
    if x == 2 || x == 6 || x == 10 || x == 14 then 1
    else if x == 4 || x == 12 then 2
    else if x == 8 then 3
    else 0
  }

  function Row(x: bv8): bv8 {
    if x == 1 || x == 3 || x == 5 || x == 7 || x == 9 || x == 11 || x == 13 || x == 15 then 4
    else if x == 2 || x == 6 || x == 10 || x == 14 then 5
    else if x == 4 || x == 12 then 6
    else if x == 8 then 7
    else 0
  }

  function LowestBit(b: bv8): bv8 { if b & 0xf == 0 then Row(b >> 4) else Column(b & 0xf) }

  function Byte(value: bv32, shift: bv32): bv8
    requires shift <= 24
  {
    ((value >> shift) & 0xff) as bv8
  }

  /** __rt_ffs: 0 for 0, otherwise one more than the lowest set bit. */
  function Ffs(value: bv32): bv8 {
    if value == 0 then 0
    else if value & 0xff != 0 then LowestBit(Byte(value, 0)) + 1
    else if value & 0xff00 != 0 then LowestBit(Byte(value, 8)) + 9
    else if value & 0xff0000 != 0 then LowestBit(Byte(value, 16)) + 17
    else LowestBit(Byte(value, 24)) + 25
  }

  /** The table is right for every byte. */
  lemma LowestBitIsLowest(b: bv8)
    requires b != 0
    ensures LowestBit(b) < 8
    ensures b & (1 << LowestBit(b)) != 0
    ensures b & ((1 << LowestBit(b)) - 1) == 0
  {
  }

  /** __rt_ffs finds a bit that is set and below which none is. */
  lemma FfsIsLowest(value: bv32)
    requires value != 0
    ensures 1 <= Ffs(value) <= 32
    ensures value & Mask(Ffs(value) - 1) != 0
    ensures value & (Mask(Ffs(value) - 1) - 1) == 0
  {
  }

  lemma BelowMask(value: bv32, p: Priority, q: Priority)
    requires value & (Mask(p) - 1) == 0 && q < p
    ensures !Has(value, q)
  {
  }

  /** The lowest set bit is the smallest number, the most urgent priority, in the group. */
  lemma FfsIsMostUrgent(value: bv32)
    requires value != 0
    ensures 1 <= Ffs(value) <= 32 && Has(value, Ffs(value) - 1)
    ensures forall q: Priority :: Has(value, q) ==> Ffs(value) - 1 <= q
  {
    FfsIsLowest(value);
    forall q: Priority | q < Ffs(value) - 1
      ensures !Has(value, q)
    {
      BelowMask(value, Ffs(value) - 1, q);
    }
  }

  lemma SetOwnBit(group: bv32, p: Priority)
    ensures Has(group | Mask(p), p)
  {
  }

  lemma SetOtherBit(group: bv32, p: Priority, q: Priority)
    requires p != q
    ensures Has(group | Mask(p), q) <==> Has(group, q)
  {
  }

  lemma SetBit(group: bv32, p: Priority, q: Priority)
    ensures Has(group | Mask(p), q) <==> q == p || Has(group, q)
  {
    if p == q { SetOwnBit(group, p); } else { SetOtherBit(group, p, q); }
  }

  lemma ClearBit(group: bv32, p: Priority, q: Priority)
    ensures Has(group & !Mask(p), q) <==> q != p && Has(group, q)
  {
  }

  /** The priorities whose bits are set. */
  ghost function BitsOf(group: bv32): iset<Priority> { iset p: Priority | Has(group, p) }

  lemma SetBitIn(group: bv32, p: Priority, q: Priority)
    ensures q in BitsOf(group | Mask(p)) <==> q in BitsOf(group) + iset{p}
  {
    SetBit(group, p, q);
  }

  lemma ClearBitIn(group: bv32, p: Priority, q: Priority)
    ensures q in BitsOf(group & !Mask(p)) <==> q in BitsOf(group) - iset{p}
  {
    ClearBit(group, p, q);
  }

  lemma SameMembers(a: iset<Priority>, b: iset<Priority>)
    requires forall q: Priority :: q in a <==> q in b
    ensures a == b
  {
  }

  lemma SetBits(group: bv32, p: Priority)
    ensures BitsOf(group | Mask(p)) == BitsOf(group) + iset{p}
  {
    var a, b := BitsOf(group | Mask(p)), BitsOf(group) + iset{p};
    forall q: Priority
      ensures q in a <==> q in b
    {
      SetBitIn(group, p, q);
    }
    SameMembers(a, b);
  }

  lemma ClearBits(group: bv32, p: Priority)
    ensures BitsOf(group & !Mask(p)) == BitsOf(group) - iset{p}
  {
    var a, b := BitsOf(group & !Mask(p)), BitsOf(group) - iset{p};
    forall q: Priority
      ensures q in a <==> q in b
    {
      ClearBitIn(group, p, q);
    }
    SameMembers(a, b);
  }

  /** `mask` is the number_mask of priority `p`; only StandsFor looks at the bits. */
  ghost predicate Stands(mask: bv32, p: Priority) {
    forall m: bv32 {:trigger Seen(m)} :: m == mask && Seen(m) ==> m == Mask(p)
  }

  lemma StandsFor(mask: bv32, p: Priority)
    ensures Stands(mask, p) <==> mask == Mask(p)
  {
    assert Seen(mask);
  }

  /** `bits` are the priorities in `group`; only ShowsAre looks at the bits. */
  ghost predicate Shows(group: bv32, bits: iset<Priority>) {
    forall g: bv32 {:trigger Seen(g)} :: g == group && Seen(g) ==> bits == BitsOf(g)
  }

  lemma ShowsAre(group: bv32, bits: iset<Priority>)
    ensures Shows(group, bits) <==> bits == BitsOf(group)
  {
    assert Seen(group);
  }

  lemma GroupSet(group: bv32, bits: iset<Priority>, mask: bv32, p: Priority)
    requires Shows(group, bits) && Stands(mask, p)
    ensures Shows(group | mask, bits + iset{p})
  {
    StandsFor(mask, p);
    ShowsAre(group, bits);
    SetBits(group, p);
    ShowsAre(group | mask, bits + iset{p});
  }

  lemma GroupCleared(group: bv32, bits: iset<Priority>, mask: bv32, p: Priority)
    requires Shows(group, bits) && Stands(mask, p)
    ensures Shows(group & !mask, bits - iset{p})
  {
    StandsFor(mask, p);
    ShowsAre(group, bits);
    ClearBits(group, p);
    ShowsAre(group & !mask, bits - iset{p});
  }

  lemma ZeroHasNone(p: Priority)
    ensures p !in BitsOf(0)
  {
  }

  lemma ZeroIsEmpty()
    ensures Shows(0, iset{})
  {
    ShowsAre(0, iset{});
    forall p: Priority
      ensures p in BitsOf(0) <==> p in iset{}
    {
      ZeroHasNone(p);
    }
    SameMembers(BitsOf(0), iset{});
  }

  /** __rt_ffs returns one more than the most urgent priority in the group. */
  lemma FfsOfBits(group: bv32, p: Priority)
    requires p in BitsOf(group)
    ensures group != 0 && 1 <= Ffs(group) <= p + 1 && Ffs(group) - 1 in BitsOf(group)
  {
    FfsIsMostUrgent(group);
    assert Has(group, p);
  }

  /** The most urgent priority from `p` on. */
  ghost function Least(bits: iset<Priority>, p: Priority): Priority
    decreases 31 - p
  {
    if p in bits || p == 31 then p else Least(bits, p + 1)
  }

  lemma {:induction false} LeastIsLeast(bits: iset<Priority>, p: Priority, q: Priority)
    requires q in bits && p <= q
    ensures Least(bits, p) in bits && p <= Least(bits, p) <= q
    decreases 31 - p
  {
    if p !in bits && p != 31 { LeastIsLeast(bits, p + 1, q); }
  }

  /** __rt_ffs returns one more than the most urgent priority in the group. */
  lemma FfsIsLeast(group: bv32, q: Priority)
    requires q in BitsOf(group)
    ensures group != 0 && 1 <= Ffs(group) <= 32 && Ffs(group) - 1 == Least(BitsOf(group), 0)
  {
    FfsOfBits(group, q);
    LeastIsLeast(BitsOf(group), 0, Ffs(group) - 1);
    FfsOfBits(group, Least(BitsOf(group), 0));
  }
}

/**
  The memory routines of kservice.c: rt_memset and rt_memcpy work a word at a time where they can,
  rt_memmove chooses a direction.  The memory is one array of bytes; its indices are the addresses.
*/
module MemoryRoutines {
  type Byte = bv8
  type Mem = seq<Byte>

  // ---------------------------------------------------------------- byte by byte

  /** `n` bytes from `s` on set to `d`, one after the other. */
  function Filled(m: Mem, s: nat, d: Byte, n: nat): (r: Mem)
    requires s + n <= |m|
    ensures |r| == |m|
    decreases n
  {
    if n == 0 then m else Filled(m, s, d, n - 1)[s + n - 1 := d]
  }

  /** `n` bytes copied from `src` to `dst`, one after the other, lowest address first. */
  function Forward(m: Mem, dst: nat, src: nat, n: nat): (r: Mem)
    requires dst + n <= |m| && src + n <= |m|
    ensures |r| == |m|
    decreases n
  {
    if n == 0 then m
    else
      var p := Forward(m, dst, src, n - 1);
      p[dst + n - 1 := p[src + n - 1]]
  }

  /** The last `n` of `count` bytes copied, one after the other, highest address first. */
  function Backward(m: Mem, dst: nat, src: nat, count: nat, n: nat): (r: Mem)
    requires n <= count && dst + count <= |m| && src + count <= |m|
    ensures |r| == |m|
    decreases n
  {
    if n == 0 then m
    else
      var p := Backward(m, dst, src, count, n - 1);
      p[dst + count - n := p[src + count - n]]
  }

  // ---------------------------------------------------------------- what callers want

  function Repeat(d: Byte, n: nat): Mem { seq(n, _ => d) }

  /** The range set to `d`, everything else as it was. */
  function SetRange(m: Mem, s: nat, d: Byte, n: nat): Mem
    requires s + n <= |m|
  {
    m[..s] + Repeat(d, n) + m[s + n..]
  }

  /** The range overwritten with the bytes the source had before, everything else as it was. */
  function CopyRange(m: Mem, dst: nat, src: nat, n: nat): Mem
    requires dst + n <= |m| && src + n <= |m|
  {
    m[..dst] + m[src..src + n] + m[dst + n..]
  }

  lemma {:induction false} FilledAt(m: Mem, s: nat, d: Byte, n: nat, k: nat)
    requires s + n <= |m| && k < |m|
    ensures Filled(m, s, d, n)[k] == if s <= k < s + n then d else m[k]
    decreases n
  {
    if n > 0 { FilledAt(m, s, d, n - 1, k); }
  }

  lemma FilledIsSet(m: Mem, s: nat, d: Byte, n: nat)
    requires s + n <= |m|
    ensures Filled(m, s, d, n) == SetRange(m, s, d, n)
  {
    forall k | 0 <= k < |m|
      ensures Filled(m, s, d, n)[k] == SetRange(m, s, d, n)[k]
    {
      FilledAt(m, s, d, n, k);
    }
  }

  /** `i` modulo `p`. */
  function Phase(i: nat, p: nat): (r: nat)
    requires p > 0
    ensures r <= i && r < p
  {
    if i < p then i else Phase(i - p, p)
  }

  /** Copying upwards repeats the first dst - src bytes when the target starts inside the source. */
  lemma {:induction false} ForwardAt(m: Mem, dst: nat, src: nat, n: nat, k: nat)
    requires dst + n <= |m| && src + n <= |m| && k < |m|
    ensures Forward(m, dst, src, n)[k] ==
      if dst <= k < dst + n then (if src < dst then m[src + Phase(k - dst, dst - src)] else m[src + (k - dst)]) else m[k]
    decreases n
  {
    if n > 0 {
      ForwardAt(m, dst, src, n - 1, k);
      ForwardAt(m, dst, src, n - 1, src + n - 1);
    }
  }

  /** A forward copy is right exactly when the target does not start inside the source. */
  lemma ForwardIsCopy(m: Mem, dst: nat, src: nat, n: nat)
    requires dst + n <= |m| && src + n <= |m| && !(src < dst < src + n)
    ensures Forward(m, dst, src, n) == CopyRange(m, dst, src, n)
  {
    forall k | 0 <= k < |m|
      ensures Forward(m, dst, src, n)[k] == CopyRange(m, dst, src, n)[k]
    {
      ForwardAt(m, dst, src, n, k);
    }
  }

  lemma {:induction false} BackwardAt(m: Mem, dst: nat, src: nat, count: nat, n: nat, k: nat)
    requires n <= count && dst + count <= |m| && src + count <= |m| && k < |m| && src < dst
    ensures Backward(m, dst, src, count, n)[k] == if dst + count - n <= k < dst + count then m[src + (k - dst)] else m[k]
    decreases n
  {
    if n > 0 {
      BackwardAt(m, dst, src, count, n - 1, k);
      BackwardAt(m, dst, src, count, n - 1, src + count - n);
    }
  }

  lemma BackwardIsCopy(m: Mem, dst: nat, src: nat, n: nat)
    requires dst + n <= |m| && src + n <= |m| && src < dst
    ensures Backward(m, dst, src, n, n) == CopyRange(m, dst, src, n)
  {
    forall k | 0 <= k < |m|
      ensures Backward(m, dst, src, n, n)[k] == CopyRange(m, dst, src, n)[k]
    {
      BackwardAt(m, dst, src, n, n, k);
    }
  }

  lemma CopyAt(m: Mem, dst: nat, src: nat, n: nat, k: nat)
    requires dst + n <= |m| && src + n <= |m| && k < |m|
    ensures |CopyRange(m, dst, src, n)| == |m|
    ensures CopyRange(m, dst, src, n)[k] == if dst <= k < dst + n then m[src + (k - dst)] else m[k]
  {
  }

  ghost predicate Fits(m: Mem, dst: nat, src: nat, n: nat) { dst + n <= |m| && src + n <= |m| }

  ghost predicate CopiesAlways(dst: nat, src: nat, n: nat) {
    forall m: Mem :: Fits(m, dst, src, n) ==> Forward(m, dst, src, n) == CopyRange(m, dst, src, n)
  }

  /** A target inside the source, and a memory with one byte that goes wrong. */
  lemma OverlapGoesWrong(dst: nat, src: nat, n: nat) returns (m: Mem)
    requires src < dst < src + n
    ensures Fits(m, dst, src, n) && Forward(m, dst, src, n) != CopyRange(m, dst, src, n)
  {
    m := seq(dst + n, i => if i == src then 1 as bv8 else 0);
    var k := dst + (dst - src);
    ForwardAt(m, dst, src, n, k);
    assert Phase(dst - src, dst - src) == Phase(0, dst - src);
    CopyAt(m, dst, src, n, k);
  }

  /** rt_memcpy copies right whatever the memory holds, exactly when the target does not start inside the
      source; rt_memcpy and the byte-wise forward copy are the same function, see Memcpy. */
  lemma MemcpyRightExactly(dst: nat, src: nat, n: nat)
    ensures CopiesAlways(dst, src, n) <==> !(src < dst < src + n)
  {
    if src < dst < src + n {
      var m := OverlapGoesWrong(dst, src, n);
    } else {
      forall m: Mem | Fits(m, dst, src, n)
        ensures Forward(m, dst, src, n) == CopyRange(m, dst, src, n)
      {
        ForwardIsCopy(m, dst, src, n);
      }
    }
  }

  // ---------------------------------------------------------------- a word at a time

  /** A 32-bit word, lowest byte first. */
  function Word(b0: Byte, b1: Byte, b2: Byte, b3: Byte): bv32 {
    (b0 as bv32) | ((b1 as bv32) << 8) | ((b2 as bv32) << 16) | ((b3 as bv32) << 24)
  }

  function ByteOf(w: bv32, k: nat): Byte
    requires k < 4
  {
    var shifted := if k == 0 then w else if k == 1 then w >> 8 else if k == 2 then w >> 16 else w >> 24;
    (shifted & 0xff) as Byte
  }

  /** Writing a word writes its four bytes. */
  function Stored(m: Mem, a: nat, w: bv32): (r: Mem)
    requires a + 4 <= |m|
    ensures |r| == |m|
  {
    m[a := ByteOf(w, 0)][a + 1 := ByteOf(w, 1)][a + 2 := ByteOf(w, 2)][a + 3 := ByteOf(w, 3)]
  }

  lemma WordBytes(b0: Byte, b1: Byte, b2: Byte, b3: Byte)
    ensures ByteOf(Word(b0, b1, b2, b3), 0) == b0
    ensures ByteOf(Word(b0, b1, b2, b3), 1) == b1
    ensures ByteOf(Word(b0, b1, b2, b3), 2) == b2
    ensures ByteOf(Word(b0, b1, b2, b3), 3) == b3
  {
  }

  /** The word rt_memset builds from one byte. */
  function Spread(d: Byte): bv32 {
    var half := ((d as bv32) << 8) | (d as bv32);
    half | (half << 16)
  }

  lemma SpreadBytes(d: Byte)
    ensures ByteOf(Spread(d), 0) == d && ByteOf(Spread(d), 1) == d && ByteOf(Spread(d), 2) == d && ByteOf(Spread(d), 3) == d
  {
  }

  /** Storing a word of equal bytes is four steps of the byte-wise fill. */
  lemma FillWord(m: Mem, s: nat, d: Byte, n: nat)
    requires s + n + 4 <= |m|
    ensures Stored(Filled(m, s, d, n), s + n, Spread(d)) == Filled(m, s, d, n + 4)
  {
    SpreadBytes(d);
    FillFour(m, s, d, n);
  }

  lemma FillFour(m: Mem, s: nat, d: Byte, n: nat)
    requires s + n + 4 <= |m|
    ensures Filled(m, s, d, n + 4) == Filled(m, s, d, n)[s + n := d][s + n + 1 := d][s + n + 2 := d][s + n + 3 := d]
  {
    assert Filled(m, s, d, n + 1) == Filled(m, s, d, n)[s + n := d];
    assert Filled(m, s, d, n + 2) == Filled(m, s, d, n + 1)[s + n + 1 := d];
    assert Filled(m, s, d, n + 3) == Filled(m, s, d, n + 2)[s + n + 2 := d];
  }

  /** A word loaded from `src` and stored at `dst`. */
  function WordMoved(m: Mem, dst: nat, src: nat): (r: Mem)
    requires dst + 4 <= |m| && src + 4 <= |m|
    ensures |r| == |m|
  {
    Stored(m, dst, Word(m[src], m[src + 1], m[src + 2], m[src + 3]))
  }

  lemma WordMovedBytes(m: Mem, dst: nat, src: nat)
    requires dst + 4 <= |m| && src + 4 <= |m|
    ensures WordMoved(m, dst, src) == m[dst := m[src]][dst + 1 := m[src + 1]][dst + 2 := m[src + 2]][dst + 3 := m[src + 3]]
  {
    WordBytes(m[src], m[src + 1], m[src + 2], m[src + 3]);
  }

  /** Loading and storing a word is four steps of the byte-wise forward copy: between two word-aligned
      addresses a word never overlaps the word it is copied to, unless they are the same. */
  lemma CopyWord(m: Mem, dst: nat, src: nat, n: nat)
    requires dst + n + 4 <= |m| && src + n + 4 <= |m| && dst % 4 == 0 && src % 4 == 0
    ensures WordMoved(Forward(m, dst, src, n), dst + n, src + n) == Forward(m, dst, src, n + 4)
  {
    WordMovedBytes(Forward(m, dst, src, n), dst + n, src + n);
    Apart(dst, src);
    CopyFour(m, dst, src, n);
  }

  lemma Apart(dst: nat, src: nat)
    requires dst % 4 == 0 && src % 4 == 0
    ensures dst == src || dst >= src + 4 || src >= dst + 4
  {
  }

  lemma CopyFour(m: Mem, dst: nat, src: nat, n: nat)
    requires dst + n + 4 <= |m| && src + n + 4 <= |m| && (dst == src || dst >= src + 4 || src >= dst + 4)
    ensures var p := Forward(m, dst, src, n);
      Forward(m, dst, src, n + 4) ==
        p[dst + n := p[src + n]][dst + n + 1 := p[src + n + 1]][dst + n + 2 := p[src + n + 2]][dst + n + 3 := p[src + n + 3]]
  {
    var p := Forward(m, dst, src, n);
    var p1, p2, p3 := Forward(m, dst, src, n + 1), Forward(m, dst, src, n + 2), Forward(m, dst, src, n + 3);
    assert p1 == p[dst + n := p[src + n]];
    assert p1[src + n + 1] == p[src + n + 1];
    assert p2 == p1[dst + n + 1 := p[src + n + 1]];
    assert p2[src + n + 2] == p[src + n + 2];
    assert p3 == p2[dst + n + 2 := p[src + n + 2]];
    assert p3[src + n + 3] == p[src + n + 3];
  }

  // ---------------------------------------------------------------- the routines

  method StoreWord(mem: array<Byte>, a: nat, w: bv32)
    requires a + 4 <= mem.Length
    modifies mem
    ensures mem[..] == Stored(old(mem[..]), a, w)
  {
    ghost var m := mem[..];
    mem[a] := ByteOf(w, 0);
    mem[a + 1] := ByteOf(w, 1);
    mem[a + 2] := ByteOf(w, 2);
    mem[a + 3] := ByteOf(w, 3);
    assert mem[..] == Stored(m, a, w);
  }

  method CopyOneWord(mem: array<Byte>, dst: nat, src: nat)
    requires dst + 4 <= mem.Length && src + 4 <= mem.Length
    modifies mem
    ensures mem[..] == WordMoved(old(mem[..]), dst, src)
  {
    var w := Word(mem[src], mem[src + 1], mem[src + 2], mem[src + 3]);
    StoreWord(mem, dst, w);
  }

  /** rt_memset. */
  method Memset(mem: array<Byte>, s: nat, c: bv32, count: nat) returns (r: nat)
    requires s + count <= mem.Length
    modifies mem
    ensures r == s && mem[..] == SetRange(old(mem[..]), s, (c & 0xff) as Byte, count)
  {
    var d := (c & 0xff) as Byte;
    ghost var m0 := mem[..];
    var left := count;
    if left >= 4 && s % 4 == 0 {
      left := SetWords(mem, s, d, count);
    }
    while left > 0
      invariant 0 <= left <= count && mem[..] == Filled(m0, s, d, count - left)
    {
      ghost var m := mem[..];
      mem[s + (count - left)] := d;
      assert mem[..] == m[s + (count - left) := d];
      left := left - 1;
    }
    FilledIsSet(m0, s, d, count);
    r := s;
  }

  /** The word loops of rt_memset: four words at a time, then one; what is left is less than a word. */
  method SetWords(mem: array<Byte>, s: nat, d: Byte, count: nat) returns (left: nat)
    requires s + count <= mem.Length
    modifies mem
    ensures left <= count && left < 4 && mem[..] == Filled(old(mem[..]), s, d, count - left)
  {
    ghost var m0 := mem[..];
    var buffer := Spread(d);
    left := count;
    while left >= 16
      invariant 0 <= left <= count && mem[..] == Filled(m0, s, d, count - left)
    {
      SetOneWord(mem, s, d, count - left, buffer, m0);
      SetOneWord(mem, s, d, count - left + 4, buffer, m0);
      SetOneWord(mem, s, d, count - left + 8, buffer, m0);
      SetOneWord(mem, s, d, count - left + 12, buffer, m0);
      left := left - 16;
    }
    while left >= 4
      invariant 0 <= left <= count && mem[..] == Filled(m0, s, d, count - left)
    {
      SetOneWord(mem, s, d, count - left, buffer, m0);
      left := left - 4;
    }
  }

  method SetOneWord(mem: array<Byte>, s: nat, d: Byte, n: nat, buffer: bv32, ghost m0: Mem)
    requires s + n + 4 <= mem.Length == |m0| && buffer == Spread(d) && mem[..] == Filled(m0, s, d, n)
    modifies mem
    ensures mem[..] == Filled(m0, s, d, n + 4)
  {
    FillWord(m0, s, d, n);
    StoreWord(mem, s + n, buffer);
  }

  /** The byte loop at the end of rt_memcpy, and of rt_memmove upwards. */
  method CopyBytes(mem: array<Byte>, dst: nat, src: nat, count: nat, len0: nat, ghost m0: Mem)
    requires len0 <= count && dst + count <= mem.Length == |m0| && src + count <= mem.Length
    requires mem[..] == Forward(m0, dst, src, count - len0)
    modifies mem
    ensures mem[..] == Forward(m0, dst, src, count)
  {
    var len := len0;
    while len > 0
      invariant 0 <= len <= count && mem[..] == Forward(m0, dst, src, count - len)
    {
      ghost var m := mem[..];
      mem[dst + (count - len)] := mem[src + (count - len)];
      assert mem[..] == m[dst + (count - len) := m[src + (count - len)]];
      len := len - 1;
    }
  }

  /** rt_memcpy is the byte-wise forward copy, for every length, alignment and overlap. */
  method Memcpy(mem: array<Byte>, dst: nat, src: nat, count: nat) returns (r: nat)
    requires dst + count <= mem.Length && src + count <= mem.Length
    modifies mem
    ensures r == dst && mem[..] == Forward(old(mem[..]), dst, src, count)
    ensures !(src < dst < src + count) ==> mem[..] == CopyRange(old(mem[..]), dst, src, count)
  {
    ghost var m0 := mem[..];
    var len := count;
    if len >= 16 && dst % 4 == 0 && src % 4 == 0 {
      len := CopyWords(mem, dst, src, count);
    }
    CopyBytes(mem, dst, src, count, len, m0);
    if !(src < dst < src + count) { ForwardIsCopy(m0, dst, src, count); }
    r := dst;
  }

  /** The word loops of rt_memcpy. */
  method CopyWords(mem: array<Byte>, dst: nat, src: nat, count: nat) returns (len: nat)
    requires dst + count <= mem.Length && src + count <= mem.Length && dst % 4 == 0 && src % 4 == 0
    modifies mem
    ensures len <= count && len < 4 && mem[..] == Forward(old(mem[..]), dst, src, count - len)
  {
    ghost var m0 := mem[..];
    len := count;
    while len >= 16
      invariant 0 <= len <= count && mem[..] == Forward(m0, dst, src, count - len)
    {
      CopyFourWords(mem, dst, src, count - len, m0);
      len := len - 16;
    }
    while len >= 4
      invariant 0 <= len <= count && mem[..] == Forward(m0, dst, src, count - len)
    {
      CopyNextWord(mem, dst, src, count - len, m0);
      len := len - 4;
    }
  }

  /** Four words at a time. */
  method CopyFourWords(mem: array<Byte>, dst: nat, src: nat, n: nat, ghost m0: Mem)
    requires dst + n + 16 <= mem.Length == |m0| && src + n + 16 <= |m0| && dst % 4 == 0 && src % 4 == 0
    requires mem[..] == Forward(m0, dst, src, n)
    modifies mem
    ensures mem[..] == Forward(m0, dst, src, n + 16)
  {
    CopyNextWord(mem, dst, src, n, m0);
    CopyNextWord(mem, dst, src, n + 4, m0);
    CopyNextWord(mem, dst, src, n + 8, m0);
    CopyNextWord(mem, dst, src, n + 12, m0);
  }

  method CopyNextWord(mem: array<Byte>, dst: nat, src: nat, n: nat, ghost m0: Mem)
    requires dst + n + 4 <= mem.Length == |m0| && src + n + 4 <= |m0| && dst % 4 == 0 && src % 4 == 0
    requires mem[..] == Forward(m0, dst, src, n)
    modifies mem
    ensures mem[..] == Forward(m0, dst, src, n + 4)
  {
    CopyWord(m0, dst, src, n);
    CopyOneWord(mem, dst + n, src + n);
  }

  /** rt_memmove moves the old source bytes, whatever the overlap. */
  method Memmove(mem: array<Byte>, dest: nat, src: nat, n: nat) returns (r: nat)
    requires dest + n <= mem.Length && src + n <= mem.Length
    modifies mem
    ensures r == dest && mem[..] == CopyRange(old(mem[..]), dest, src, n)
  {
    ghost var m0 := mem[..];
    if src < dest && dest < src + n {
      var left := n;
      while left > 0
        invariant 0 <= left <= n && mem[..] == Backward(m0, dest, src, n, n - left)
      {
        ghost var m := mem[..];
        mem[dest + left - 1] := mem[src + left - 1];
        assert mem[..] == m[dest + left - 1 := m[src + left - 1]];
        left := left - 1;
      }
      BackwardIsCopy(m0, dest, src, n);
    } else {
      CopyBytes(mem, dest, src, n, n, m0);
      ForwardIsCopy(m0, dest, src, n);
    }
    r := dest;
  }
}

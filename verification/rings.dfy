/**
  Intrusive doubly linked rings (rtservice.h).  One link memory, `next` and `prev`, holds any number
  of rings; an operation gets nodes, never a ring, and must keep every ring it does not touch.
*/
module Rings {

  function Succ(i: nat, n: nat): nat { if i + 1 == n then 0 else i + 1 }

  function Pred(i: nat, n: nat): int { if i == 0 then n - 1 else i - 1 }

  ghost predicate Distinct<T(!new)>(c: seq<T>) {
    forall i, j :: 0 <= i < j < |c| ==> c[i] != c[j]
  }

  ghost predicate RingAt<T(!new)>(next: map<T, T>, prev: map<T, T>, c: seq<T>, i: nat)
    requires i < |c|
  {
    && c[i] in next && next[c[i]] == c[Succ(i, |c|)]
    && c[i] in prev && prev[c[i]] == c[Pred(i, |c|)]
  }

  /** Following `next` from c[0] visits `c` in order and comes back; `prev` is its inverse. */
  ghost predicate IsRing<T(!new)>(next: map<T, T>, prev: map<T, T>, c: seq<T>) {
    && |c| > 0
    && Distinct(c)
    && forall i :: 0 <= i < |c| ==> RingAt(next, prev, c, i)
  }

  /** The ring `c` with `n` behind its `i`-th node. */
  function Inserted<T>(c: seq<T>, i: nat, n: T): seq<T>
    requires i < |c|
  {
    c[..i + 1] + [n] + c[i + 1..]
  }

  function Dropped<T>(c: seq<T>, i: nat): seq<T>
    requires i < |c|
  {
    c[..i] + c[i + 1..]
  }

  // ---- the links after n is linked in behind l, and after n is unlinked

  function LinkNext<T>(next: map<T, T>, l: T, n: T): map<T, T>
    requires l in next
  {
    next[n := next[l]][l := n]
  }

  function LinkPrev<T>(next: map<T, T>, prev: map<T, T>, l: T, n: T): map<T, T>
    requires l in next
  {
    prev[next[l] := n][n := l]
  }

  function UnlinkNext<T>(next: map<T, T>, prev: map<T, T>, n: T): map<T, T>
    requires n in next && n in prev
  {
    next[prev[n] := next[n]]
  }

  function UnlinkPrev<T>(next: map<T, T>, prev: map<T, T>, n: T): map<T, T>
    requires n in next && n in prev
  {
    prev[next[n] := prev[n]]
  }

  lemma LinkRing<T(!new)>(next: map<T, T>, prev: map<T, T>, c: seq<T>, i: nat, n: T)
    requires IsRing(next, prev, c) && i < |c| && n !in c
    ensures c[i] in next
    ensures IsRing(LinkNext(next, c[i], n), LinkPrev(next, prev, c[i], n), Inserted(c, i, n))
  {
    assert RingAt(next, prev, c, i);
    var next', prev', c' := LinkNext(next, c[i], n), LinkPrev(next, prev, c[i], n), Inserted(c, i, n);
    assert |c'| == |c| + 1 && c'[i + 1] == n;
    assert forall k :: 0 <= k <= i ==> c'[k] == c[k];
    assert forall k :: i + 1 < k < |c'| ==> c'[k] == c[k - 1];
    assert RingAt(next, prev, c, Succ(i, |c|));
    forall k | 0 <= k < |c'|
      ensures RingAt(next', prev', c', k)
    {
      if k <= i {
        assert RingAt(next, prev, c, k);
      } else if k > i + 1 {
        assert RingAt(next, prev, c, k - 1);
      }
    }
  }

  lemma UnlinkRing<T(!new)>(next: map<T, T>, prev: map<T, T>, c: seq<T>, i: nat)
    requires IsRing(next, prev, c) && 0 < i < |c|
    ensures c[i] in next && c[i] in prev
    ensures IsRing(UnlinkNext(next, prev, c[i]), UnlinkPrev(next, prev, c[i]), Dropped(c, i))
  {
    assert RingAt(next, prev, c, i);
    var next', prev', c' := UnlinkNext(next, prev, c[i]), UnlinkPrev(next, prev, c[i]), Dropped(c, i);
    forall k | 0 <= k < |c'|
      ensures RingAt(next', prev', c', k)
    {
      assert RingAt(next, prev, c, if k < i then k else k + 1);
    }
  }

  /** A ring only depends on the links of its own nodes. */
  lemma RingFrame<T(!new)>(next: map<T, T>, prev: map<T, T>, next': map<T, T>, prev': map<T, T>, c: seq<T>)
    requires IsRing(next, prev, c)
    requires forall x :: x in c && x in next ==> x in next' && next'[x] == next[x]
    requires forall x :: x in c && x in prev ==> x in prev' && prev'[x] == prev[x]
    ensures IsRing(next', prev', c)
  {
    forall i | 0 <= i < |c|
      ensures RingAt(next', prev', c, i)
    {
      assert RingAt(next, prev, c, i);
    }
  }

  // ---------------------------------------------------------------- many rings in one memory

  /** Every member of the family is a ring, and no node is in two of them. */
  ghost predicate Family<K(!new), T(!new)>(next: map<T, T>, prev: map<T, T>, fam: map<K, seq<T>>) {
    && (forall k :: k in fam ==> IsRing(next, prev, fam[k]))
    && (forall k, k', x :: k in fam && k' in fam && x in fam[k] && x in fam[k'] ==> k == k')
  }

  ghost predicate Fresh<K(!new), T(!new)>(fam: map<K, seq<T>>, n: T) {
    forall k :: k in fam ==> n !in fam[k]
  }

  /** Linking a fresh node into one ring keeps the whole family. */
  lemma LinkFamily<K(!new), T(!new)>(next: map<T, T>, prev: map<T, T>, fam: map<K, seq<T>>, k: K, i: nat, n: T)
    requires Family(next, prev, fam) && k in fam && i < |fam[k]| && Fresh(fam, n)
    ensures fam[k][i] in next
    ensures Family(LinkNext(next, fam[k][i], n), LinkPrev(next, prev, fam[k][i], n), fam[k := Inserted(fam[k], i, n)])
  {
    var c := fam[k];
    LinkRing(next, prev, c, i, n);
    assert RingAt(next, prev, c, i);
    var next', prev' := LinkNext(next, c[i], n), LinkPrev(next, prev, c[i], n);
    var fam' := fam[k := Inserted(c, i, n)];
    forall o | o in fam'
      ensures IsRing(next', prev', fam'[o])
    {
      if o != k {
        assert c[i] in c && c[Succ(i, |c|)] in c;
        RingFrame(next, prev, next', prev', fam[o]);
      }
    }
    assert forall x :: x in fam'[k] ==> x == n || x in c;
  }

  /** Unlinking a node keeps the whole family; the node itself may then be given any links. */
  lemma UnlinkFamily<K(!new), T(!new)>(next: map<T, T>, prev: map<T, T>, fam: map<K, seq<T>>, k: K, i: nat, l: T, r: T)
    requires Family(next, prev, fam) && k in fam && 0 < i < |fam[k]|
    ensures fam[k][i] in next && fam[k][i] in prev
    ensures var n, fam' := fam[k][i], fam[k := Dropped(fam[k], i)];
      Fresh(fam', n) && Family(UnlinkNext(next, prev, n)[n := r], UnlinkPrev(next, prev, n)[n := l], fam')
  {
    var c, n := fam[k], fam[k][i];
    UnlinkRing(next, prev, c, i);
    assert RingAt(next, prev, c, i);
    var next1, prev1 := UnlinkNext(next, prev, n), UnlinkPrev(next, prev, n);
    var next', prev' := next1[n := r], prev1[n := l];
    var fam' := fam[k := Dropped(c, i)];
    assert forall x :: x in fam'[k] ==> x in c && x != n by {
      forall x | x in fam'[k] ensures x in c && x != n {
        var j :| 0 <= j < |fam'[k]| && fam'[k][j] == x;
        assert x == c[if j < i then j else j + 1];
      }
    }
    assert n in c;
    forall o | o in fam'
      ensures IsRing(next', prev', fam'[o])
    {
      if o == k {
        RingFrame(next1, prev1, next', prev', fam'[k]);
      } else {
        assert c[Succ(i, |c|)] in c && c[Pred(i, |c|)] in c;
        RingFrame(next, prev, next', prev', fam[o]);
      }
    }
  }

  // ---------------------------------------------------------------- the link memory

  /** rt_list_t: the links of all nodes, and the operations that rewire them. */
  class Links<T(!new, ==)> {
    var next: map<T, T>
    var prev: map<T, T>

    constructor ()
      ensures next == map[] && prev == map[]
    {
      next, prev := map[], map[];
    }

    /** rt_list_init: the node becomes a ring of its own. */
    method Init(l: T)
      modifies this
      ensures next == old(next)[l := l] && prev == old(prev)[l := l]
      ensures IsRing(next, prev, [l])
    {
      next := next[l := l];
      prev := prev[l := l];
      assert RingAt(next, prev, [l], 0);
    }

    /** rt_list_insert_after. */
    method InsertAfter(l: T, n: T)
      requires l in next && l != n && next[l] != n
      modifies this
      ensures next == LinkNext(old(next), l, n) && prev == LinkPrev(old(next), old(prev), l, n)
    {
      prev := prev[next[l] := n];
      next := next[n := next[l]];
      next := next[l := n];
      prev := prev[n := l];
    }

    /** rt_list_insert_before: the same as inserting behind the predecessor. */
    method InsertBefore(l: T, n: T)
      requires l in prev && prev[l] in next && next[prev[l]] == l && l != n && prev[l] != n
      modifies this
      ensures next == LinkNext(old(next), old(prev)[l], n) && prev == LinkPrev(old(next), old(prev), old(prev)[l], n)
    {
      next := next[prev[l] := n];
      prev := prev[n := prev[l]];
      prev := prev[l := n];
      next := next[n := l];
    }

    /** rt_list_remove: unlink the node and leave it a ring of its own. */
    method Remove(n: T)
      requires n in next && n in prev
      modifies this
      ensures next == UnlinkNext(old(next), old(prev), n)[n := n]
      ensures prev == UnlinkPrev(old(next), old(prev), n)[n := n]
    {
      prev := prev[next[n] := prev[n]];
      next := next[prev[n] := next[n]];
      next := next[n := n];
      prev := prev[n := n];
    }

    /** rt_list_isempty. */
    method IsEmpty(l: T, ghost c: seq<T>) returns (e: bool)
      requires IsRing(next, prev, c) && c[0] == l
      ensures e <==> |c| == 1
    {
      assert RingAt(next, prev, c, 0);
      e := next[l] == l;
    }

    /** rt_list_len: the number of nodes behind the head. */
    method Len(l: T, ghost c: seq<T>) returns (len: nat)
      requires IsRing(next, prev, c) && c[0] == l
      ensures len == |c| - 1
    {
      len := 0;
      var p := l;
      assert RingAt(next, prev, c, 0);
      while next[p] != l
        invariant len < |c| && p == c[len] && p in next
        decreases |c| - len
      {
        assert RingAt(next, prev, c, len);
        p := next[p];
        len := len + 1;
        assert RingAt(next, prev, c, len);
      }
      assert RingAt(next, prev, c, len);
    }
  }

  /** Removing a node that is in no list (a ring of its own) changes no link at all. */
  lemma RemoveAloneIsNoop<T(!new)>(next: map<T, T>, prev: map<T, T>, n: T)
    requires IsRing(next, prev, [n])
    ensures n in next && n in prev
    ensures UnlinkNext(next, prev, n)[n := n] == next && UnlinkPrev(next, prev, n)[n := n] == prev
  {
    assert RingAt(next, prev, [n], 0);
  }

  /** Taking a node out again right after inserting it restores every link of every other node. */
  lemma RemoveUndoesInsert<T(!new)>(next: map<T, T>, prev: map<T, T>, c: seq<T>, i: nat, n: T)
    requires IsRing(next, prev, c) && i < |c| && IsRing(next, prev, [n]) && n !in c
    ensures c[i] in next
    ensures var next1, prev1 := LinkNext(next, c[i], n), LinkPrev(next, prev, c[i], n);
      n in next1 && n in prev1
      && UnlinkNext(next1, prev1, n)[n := n] == next && UnlinkPrev(next1, prev1, n)[n := n] == prev
  {
    assert RingAt(next, prev, c, i) && RingAt(next, prev, [n], 0);
    assert RingAt(next, prev, c, Succ(i, |c|));
  }
}

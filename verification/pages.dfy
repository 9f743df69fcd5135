/**
  The page allocator below the slab (slab.c): free runs of pages in address order, first fit, and
  merging with both neighbours on release.
*/
module Pages {

  /** `len` free pages from page number `start` on. */
  datatype Run = Run(start: nat, len: nat)

  datatype Option = None | Some(page: nat)

  predicate InRun(r: Run, p: nat) { r.start <= p < r.start + r.len }

  /** Page `p` is free. */
  predicate Free(runs: seq<Run>, p: nat)
    decreases |runs|
  {
    runs != [] && (InRun(runs[0], p) || Free(runs[1..], p))
  }

  /** Runs are not empty, in address order, and never adjacent. */
  predicate Ordered(runs: seq<Run>)
    decreases |runs|
  {
    runs == [] || (runs[0].len > 0 && (|runs| == 1 || runs[0].start + runs[0].len < runs[1].start) && Ordered(runs[1..]))
  }

  // ---------------------------------------------------------------- the two operations

  /** rt_page_alloc: the first run that is long enough gives its first pages. */
  function Alloc(runs: seq<Run>, n: nat): (seq<Run>, Option)
    decreases |runs|
  {
    if n == 0 || runs == [] then (runs, None)
    else
      var b := runs[0];
      if b.len > n then ([Run(b.start + n, b.len - n)] + runs[1..], Some(b.start))
      else if b.len == n then (runs[1..], Some(b.start))
      else
        var (rest, a) := Alloc(runs[1..], n);
        ([b] + rest, a)
  }

  /** rt_page_free. */
  function Release(runs: seq<Run>, a: nat, n: nat): seq<Run>
    decreases |runs|
  {
    if runs == [] then [Run(a, n)]
    else
      var b := runs[0];
      if b.start + b.len == a then
        if |runs| > 1 && a + n == runs[1].start
        then [Run(b.start, b.len + n + runs[1].len)] + runs[2..]
        else [Run(b.start, b.len + n)] + runs[1..]
      else if b.start == a + n then [Run(a, b.len + n)] + runs[1..]
      else if b.start > a + n then [Run(a, n)] + runs
      else [b] + Release(runs[1..], a, n)
  }

  // ---------------------------------------------------------------- facts about ordered lists

  /** Everything in the list lies at or behind the first run. */
  lemma {:induction false} BehindFirst(runs: seq<Run>, p: nat)
    requires Ordered(runs) && Free(runs, p)
    ensures runs != [] && runs[0].start <= p
    ensures !InRun(runs[0], p) ==> |runs| > 1 && runs[1].start <= p
    decreases |runs|
  {
    if !InRun(runs[0], p) { BehindFirst(runs[1..], p); }
  }

  lemma FirstFree(a: seq<Run>)
    requires Ordered(a)
    ensures a != [] ==> Free(a, a[0].start)
  {
  }

  /** There is only one ordered list for a set of pages. */
  lemma {:induction false} Canonical(a: seq<Run>, b: seq<Run>)
    requires Ordered(a) && Ordered(b) && forall p: nat :: Free(a, p) <==> Free(b, p)
    ensures a == b
    decreases |a|
  {
    if a == [] {
      FirstFree(b);
    } else {
      assert Free(a, a[0].start);
      assert Free(b, a[0].start);
      BehindFirst(b, a[0].start);
      assert Free(b, b[0].start) && Free(a, b[0].start);
      BehindFirst(a, b[0].start);
      SameFirst(a, b);
      forall p: nat
        ensures Free(a[1..], p) <==> Free(b[1..], p)
      {
        RestIsBehind(a, p);
        RestIsBehind(b, p);
        assert Free(a, p) <==> Free(b, p);
      }
      Canonical(a[1..], b[1..]);
      assert a == [a[0]] + a[1..] && b == [b[0]] + b[1..];
    }
  }

  /** The page behind the first run is not free. */
  lemma EndNotFree(a: seq<Run>)
    requires Ordered(a) && a != []
    ensures !Free(a, a[0].start + a[0].len)
  {
    if Free(a, a[0].start + a[0].len) { BehindFirst(a, a[0].start + a[0].len); }
  }

  lemma SameFirst(a: seq<Run>, b: seq<Run>)
    requires Ordered(a) && Ordered(b) && a != [] && b != [] && a[0].start == b[0].start
    requires forall p: nat :: Free(a, p) <==> Free(b, p)
    ensures a[0] == b[0]
  {
    EndNotFree(a);
    EndNotFree(b);
    var ea, eb := a[0].start + a[0].len, b[0].start + b[0].len;
    assert Free(b, ea) <==> Free(a, ea);
    assert Free(a, eb) <==> Free(b, eb);
  }

  lemma RestIsBehind(a: seq<Run>, p: nat)
    requires Ordered(a) && a != []
    ensures Free(a[1..], p) <==> Free(a, p) && !InRun(a[0], p)
  {
    if Free(a[1..], p) { BehindFirst(a[1..], p); }
  }

  // ---------------------------------------------------------------- what the operations do

  /** Pages a .. a+n-1. */
  predicate Within(a: nat, n: nat, p: nat) { a <= p < a + n }

  lemma {:induction false} AllocKeeps(runs: seq<Run>, n: nat)
    requires Ordered(runs)
    ensures Ordered(Alloc(runs, n).0)
    ensures Alloc(runs, n).0 != [] ==> runs != [] && runs[0].start <= Alloc(runs, n).0[0].start
    decreases |runs|
  {
    if n > 0 && runs != [] {
      var b := runs[0];
      if b.len > n {
        assert ([Run(b.start + n, b.len - n)] + runs[1..])[1..] == runs[1..];
      } else if b.len < n {
        AllocKeeps(runs[1..], n);
        var rest := Alloc(runs[1..], n).0;
        assert ([b] + rest)[1..] == rest;
      }
    }
  }

  /** An allocation takes exactly its pages out of the free ones, and they were free. */
  lemma {:induction false} AllocTakes(runs: seq<Run>, n: nat, p: nat)
    requires Ordered(runs) && Alloc(runs, n).1.Some?
    ensures var (runs', a) := Alloc(runs, n);
      && (Within(a.page, n, p) ==> Free(runs, p))
      && (Free(runs', p) <==> Free(runs, p) && !Within(a.page, n, p))
    decreases |runs|
  {
    var b := runs[0];
    RestIsBehind(runs, p);
    if b.len > n {
      assert ([Run(b.start + n, b.len - n)] + runs[1..])[1..] == runs[1..];
    } else if b.len < n {
      AllocTakes(runs[1..], n, p);
      var rest := Alloc(runs[1..], n).0;
      assert ([b] + rest)[1..] == rest;
    }
  }

  lemma {:induction false} AllocFails(runs: seq<Run>, n: nat)
    requires n > 0
    ensures Alloc(runs, n).1 == None <==> forall i :: 0 <= i < |runs| ==> runs[i].len < n
    decreases |runs|
  {
    if runs != [] && runs[0].len < n {
      AllocFails(runs[1..], n);
      assert runs == [runs[0]] + runs[1..];
    }
  }

  /** `n` free pages in a row. */
  ghost predicate Row(runs: seq<Run>, a: nat, n: nat) { forall p :: Within(a, n, p) ==> Free(runs, p) }

  /** They lie in one run. */
  lemma {:induction false} RowInOneRun(runs: seq<Run>, a: nat, n: nat) returns (i: nat)
    requires Ordered(runs) && n > 0 && Row(runs, a, n)
    ensures i < |runs| && runs[i].start <= a && a + n <= runs[i].start + runs[i].len
    decreases |runs|
  {
    assert Within(a, n, a);
    BehindFirst(runs, a);
    if InRun(runs[0], a) {
      i := 0;
      var e := runs[0].start + runs[0].len;
      EndNotFree(runs);
      assert Within(a, n, e) <==> a <= e < a + n;
    } else {
      forall p | Within(a, n, p)
        ensures Free(runs[1..], p)
      {
        BehindFirst(runs, a);
        RestIsBehind(runs, p);
      }
      var j := RowInOneRun(runs[1..], a, n);
      i := j + 1;
    }
  }

  lemma {:induction false} RunIsFree(runs: seq<Run>, i: nat, p: nat)
    requires i < |runs| && InRun(runs[i], p)
    ensures Free(runs, p)
    decreases |runs|
  {
    if i > 0 { RunIsFree(runs[1..], i - 1, p); }
  }

  /** rt_page_alloc fails exactly when there are no `n` free pages in a row. */
  lemma AllocFailsExactly(runs: seq<Run>, n: nat)
    requires Ordered(runs) && n > 0
    ensures Alloc(runs, n).1 == None <==> forall a: nat :: !Row(runs, a, n)
  {
    AllocFails(runs, n);
    if Alloc(runs, n).1 == None {
      forall a: nat
        ensures !Row(runs, a, n)
      {
        if Row(runs, a, n) { var i := RowInOneRun(runs, a, n); }
      }
    } else {
      var a := Alloc(runs, n).1.page;
      forall p | Within(a, n, p)
        ensures Free(runs, p)
      {
        AllocTakes(runs, n, p);
      }
      assert Row(runs, a, n);
    }
  }

  /** rt_page_alloc takes the lowest `n` free pages in a row. */
  lemma AllocLowestRow(runs: seq<Run>, n: nat, a: nat)
    requires Ordered(runs) && n > 0 && Row(runs, a, n)
    ensures Alloc(runs, n).1.Some? && Alloc(runs, n).1.page <= a
  {
    var i := RowInOneRun(runs, a, n);
    AllocLowest(runs, n, i);
  }

  /** Every other place for `n` pages in a row lies behind the one that was chosen. */
  lemma {:induction false} AllocLowest(runs: seq<Run>, n: nat, i: nat)
    requires Ordered(runs) && n > 0 && i < |runs| && runs[i].len >= n
    ensures Alloc(runs, n).1.Some? && Alloc(runs, n).1.page <= runs[i].start
    decreases |runs|
  {
    if i > 0 {
      StartsBehind(runs, i);
      if runs[0].len < n { AllocLowest(runs[1..], n, i - 1); }
    }
  }

  lemma {:induction false} StartsBehind(runs: seq<Run>, i: nat)
    requires Ordered(runs) && i < |runs|
    ensures runs[0].start <= runs[i].start
    decreases |runs|
  {
    if i > 0 { StartsBehind(runs[1..], i - 1); }
  }

  // ---- release

  /** None of the pages is free. */
  ghost predicate AllTaken(runs: seq<Run>, a: nat, n: nat) { forall p :: Within(a, n, p) ==> !Free(runs, p) }

  lemma RestTaken(runs: seq<Run>, a: nat, n: nat)
    requires Ordered(runs) && runs != [] && AllTaken(runs, a, n) && n > 0
    ensures AllTaken(runs[1..], a, n)
    ensures a + n <= runs[0].start || runs[0].start + runs[0].len <= a
  {
    assert Within(a, n, a);
    var s := runs[0].start;
    assert Within(a, n, s) <==> a <= s < a + n;
    forall p | Within(a, n, p)
      ensures !Free(runs[1..], p)
    {
      RestIsBehind(runs, p);
    }
  }

  lemma {:induction false} ReleaseKeeps(runs: seq<Run>, a: nat, n: nat)
    requires Ordered(runs) && n > 0 && AllTaken(runs, a, n)
    ensures Ordered(Release(runs, a, n)) && Release(runs, a, n) != []
    ensures Release(runs, a, n)[0].start == if runs == [] || a < runs[0].start then a else runs[0].start
    decreases |runs|
  {
    if runs != [] {
      var b := runs[0];
      RestTaken(runs, a, n);
      if b.start + b.len == a {
        if |runs| > 1 {
          RestTaken(runs[1..], a, n);
          assert runs[1..][1..] == runs[2..];
          assert ([Run(b.start, b.len + n + runs[1].len)] + runs[2..])[1..] == runs[2..];
        }
        assert ([Run(b.start, b.len + n)] + runs[1..])[1..] == runs[1..];
      } else if b.start == a + n {
        assert ([Run(a, b.len + n)] + runs[1..])[1..] == runs[1..];
      } else if b.start > a + n {
        assert ([Run(a, n)] + runs)[1..] == runs;
      } else {
        ReleaseKeeps(runs[1..], a, n);
        var rest := Release(runs[1..], a, n);
        assert ([b] + rest)[1..] == rest;
      }
    }
  }

  /** A release adds exactly its pages. */
  lemma {:induction false} ReleaseAdds(runs: seq<Run>, a: nat, n: nat, p: nat)
    requires Ordered(runs) && n > 0 && AllTaken(runs, a, n)
    ensures Free(Release(runs, a, n), p) <==> Free(runs, p) || Within(a, n, p)
    decreases |runs|
  {
    if runs != [] {
      var b := runs[0];
      RestTaken(runs, a, n);
      if b.start + b.len == a {
        if |runs| > 1 {
          assert runs[1..][1..] == runs[2..];
          assert ([Run(b.start, b.len + n + runs[1].len)] + runs[2..])[1..] == runs[2..];
        }
        assert ([Run(b.start, b.len + n)] + runs[1..])[1..] == runs[1..];
      } else if b.start == a + n {
        assert ([Run(a, b.len + n)] + runs[1..])[1..] == runs[1..];
      } else if b.start > a + n {
        assert ([Run(a, n)] + runs)[1..] == runs;
      } else {
        ReleaseAdds(runs[1..], a, n, p);
        var rest := Release(runs[1..], a, n);
        assert ([b] + rest)[1..] == rest;
      }
    } else {
      assert [Run(a, n)][1..] == [];
    }
  }

  /** Releasing a run that was just allocated restores the identical list. */
  lemma ReleaseUndoesAlloc(runs: seq<Run>, n: nat)
    requires Ordered(runs) && Alloc(runs, n).1.Some?
    ensures n > 0 && AllTaken(Alloc(runs, n).0, Alloc(runs, n).1.page, n)
    ensures Release(Alloc(runs, n).0, Alloc(runs, n).1.page, n) == runs
  {
    var (runs', some) := Alloc(runs, n);
    var a := some.page;
    AllocKeeps(runs, n);
    forall p | Within(a, n, p)
      ensures !Free(runs', p)
    {
      AllocTakes(runs, n, p);
    }
    ReleaseKeeps(runs', a, n);
    forall p: nat
      ensures Free(Release(runs', a, n), p) <==> Free(runs, p)
    {
      AllocTakes(runs, n, p);
      ReleaseAdds(runs', a, n, p);
    }
    Canonical(Release(runs', a, n), runs);
  }

  // ---------------------------------------------------------------- whole runs

  function Span(a: nat, n: nat): set<nat> { set p | a <= p < a + n && Within(a, n, p) }

  /** The free list, and the pages that callers hold. */
  datatype State = State(free: seq<Run>, taken: set<nat>)

  datatype Event = AllocPages(n: nat) | FreePages(a: nat, n: nat)

  /** Callers free pages that they hold; any run of them, whole allocations or not. */
  predicate Enabled(s: State, e: Event) { e.FreePages? ==> e.n > 0 && Span(e.a, e.n) <= s.taken }

  function Do(s: State, e: Event): State {
    match e
    case AllocPages(n) =>
      var (free, a) := Alloc(s.free, n);
      State(free, if a.Some? then s.taken + Span(a.page, n) else s.taken)
    case FreePages(a, n) => State(Release(s.free, a, n), s.taken - Span(a, n))
  }

  /** Every page of the heap is either free or taken. */
  ghost predicate Inv(s: State, heap: set<nat>) {
    Ordered(s.free) && forall p: nat :: (Free(s.free, p) <==> p in heap && p !in s.taken) && (p in s.taken ==> p in heap)
  }

  lemma AllocNone(runs: seq<Run>, n: nat)
    requires Alloc(runs, n).1 == None
    ensures Alloc(runs, n).0 == runs
    decreases |runs|
  {
    if n > 0 && runs != [] { AllocNone(runs[1..], n); }
  }

  lemma StepKeepsInv(s: State, e: Event, heap: set<nat>)
    requires Inv(s, heap) && Enabled(s, e)
    ensures Inv(Do(s, e), heap)
  {
    match e
    case AllocPages(n) =>
      AllocKeeps(s.free, n);
      if Alloc(s.free, n).1 == None {
        AllocNone(s.free, n);
      } else {
        forall p: nat
          ensures (Free(Do(s, e).free, p) <==> p in heap && p !in Do(s, e).taken) && (p in Do(s, e).taken ==> p in heap)
        {
          AllocTakes(s.free, n, p);
        }
      }
    case FreePages(a, n) =>
      assert AllTaken(s.free, a, n) by {
        forall p | Within(a, n, p) ensures !Free(s.free, p) { assert p in Span(a, n); }
      }
      ReleaseKeeps(s.free, a, n);
      forall p: nat
        ensures (Free(Do(s, e).free, p) <==> p in heap && p !in Do(s, e).taken) && (p in Do(s, e).taken ==> p in heap)
      {
        ReleaseAdds(s.free, a, n, p);
        assert p in Span(a, n) <==> Within(a, n, p);
      }
  }

  predicate EnabledRun(s: State, es: seq<Event>)
    decreases |es|
  {
    es == [] || (Enabled(s, es[0]) && EnabledRun(Do(s, es[0]), es[1..]))
  }

  function RunAll(s: State, es: seq<Event>): State
    requires EnabledRun(s, es)
    decreases |es|
  {
    if es == [] then s else RunAll(Do(s, es[0]), es[1..])
  }

  lemma {:induction false} RunKeepsInv(s: State, es: seq<Event>, heap: set<nat>)
    requires Inv(s, heap) && EnabledRun(s, es)
    ensures Inv(RunAll(s, es), heap)
    decreases |es|
  {
    if es != [] {
      StepKeepsInv(s, es[0], heap);
      RunKeepsInv(Do(s, es[0]), es[1..], heap);
    }
  }

  /** From rt_page_init on: the free pages are exactly the heap pages that nobody holds, and when all
      pages are given back the list is the one run it started as. */
  lemma FreeIsUntaken(a: nat, n: nat, es: seq<Event>)
    requires n > 0 && EnabledRun(State([Run(a, n)], {}), es)
    ensures var s := RunAll(State([Run(a, n)], {}), es);
      && Ordered(s.free)
      && (forall p: nat :: Free(s.free, p) <==> Within(a, n, p) && p !in s.taken)
      && (s.taken == {} ==> s.free == [Run(a, n)])
  {
    var s0 := State([Run(a, n)], {});
    assert [Run(a, n)][1..] == [];
    RunKeepsInv(s0, es, Span(a, n));
    var s := RunAll(s0, es);
    forall p: nat
      ensures Free(s.free, p) <==> Within(a, n, p) && p !in s.taken
    {
      assert p in Span(a, n) <==> Within(a, n, p);
    }
    if s.taken == {} { Canonical(s.free, [Run(a, n)]); }
  }

  // ---------------------------------------------------------------- the list in the pages

  const NIL: int := -1

  /** Following `next` from `h` visits the runs and arrives at `t`; every head holds its length. */
  ghost predicate Seg(next: map<nat, int>, page: map<nat, nat>, h: int, runs: seq<Run>, t: int)
    decreases |runs|
  {
    if runs == [] then h == t
    else
      var b := runs[0].start;
      h == b && b in next && b in page && page[b] == runs[0].len && Seg(next, page, next[b], runs[1..], t)
  }

  ghost predicate NoStart(runs: seq<Run>, x: nat) { forall i :: 0 <= i < |runs| ==> runs[i].start != x }

  lemma {:induction false} SegFrame(next: map<nat, int>, page: map<nat, nat>, next': map<nat, int>, page': map<nat, nat>,
                                    h: int, runs: seq<Run>, t: int, x: nat)
    requires Seg(next, page, h, runs, t) && NoStart(runs, x)
    requires forall y :: y in next && y != x ==> y in next' && next'[y] == next[y]
    requires forall y :: y in page && y != x ==> y in page' && page'[y] == page[y]
    ensures Seg(next', page', h, runs, t)
    decreases |runs|
  {
    if runs != [] {
      assert runs[0].start != x;
      assert NoStart(runs[1..], x) by { assert forall i :: 0 <= i < |runs| - 1 ==> runs[1..][i] == runs[i + 1]; }
      SegFrame(next, page, next', page', next[runs[0].start], runs[1..], t, x);
    }
  }

  lemma {:induction false} SegConcat(next: map<nat, int>, page: map<nat, nat>, h: int, a: seq<Run>, m: int, b: seq<Run>, t: int)
    requires Seg(next, page, h, a, m) && Seg(next, page, m, b, t)
    ensures Seg(next, page, h, a + b, t)
    decreases |a|
  {
    if a == [] {
      assert a + b == b;
    } else {
      SegConcat(next, page, next[a[0].start], a[1..], m, b, t);
      assert (a + b)[1..] == a[1..] + b;
    }
  }

  /** The last run of a segment gets another successor. */
  lemma {:induction false} SegRetarget(next: map<nat, int>, page: map<nat, nat>, h: int, a: seq<Run>, m: int, v: int)
    requires Seg(next, page, h, a, m) && a != [] && Ordered(a)
    ensures Seg(next[a[|a| - 1].start := v], page, h, a, v)
    decreases |a|
  {
    var x := a[|a| - 1].start;
    if |a| > 1 {
      SegRetarget(next, page, next[a[0].start], a[1..], m, v);
      assert a[1..][|a[1..]| - 1] == a[|a| - 1];
      StrictlyBehind(a, |a| - 1);
    }
  }

  lemma {:induction false} StrictlyBehind(a: seq<Run>, i: nat)
    requires Ordered(a) && 0 < i < |a|
    ensures a[0].start + a[0].len < a[i].start
    decreases |a|
  {
    if i > 1 {
      StrictlyBehind(a[1..], i - 1);
    }
  }

  /** The two parts of an ordered list. */
  lemma {:induction false} OrderedParts(a: seq<Run>, b: seq<Run>)
    requires Ordered(a + b)
    ensures Ordered(a) && Ordered(b)
    ensures forall i, j :: 0 <= i < |a| && 0 <= j < |b| ==> a[i].start + a[i].len < b[j].start
    decreases |a|
  {
    if a == [] {
      assert a + b == b;
    } else {
      assert (a + b)[1..] == a[1..] + b;
      OrderedParts(a[1..], b);
      forall j | 0 <= j < |b|
        ensures a[0].start + a[0].len < b[j].start
      {
        StrictlyBehind(a + b, |a| + j);
        assert (a + b)[|a| + j] == b[j];
      }
      if |a| > 1 { assert (a + b)[1] == a[1]; }
    }
  }

  /** The link that leads to the rest of the list, and the head, after it was set to `v`. */
  function PrevNext(next: map<nat, int>, done: seq<Run>, v: int): map<nat, int> {
    if done == [] then next else next[done[|done| - 1].start := v]
  }

  /** A new rest, linked in behind the runs that were passed. */
  lemma Splice(next: map<nat, int>, page: map<nat, nat>, list: int, done: seq<Run>, b: int,
               next1: map<nat, int>, page1: map<nat, nat>, x: nat, v: int, rest: seq<Run>)
    requires Seg(next, page, list, done, b) && Ordered(done) && NoStart(done, x)
    requires forall y :: y in next && y != x ==> y in next1 && next1[y] == next[y]
    requires forall y :: y in page && y != x ==> y in page1 && page1[y] == page[y]
    requires Seg(next1, page1, v, rest, NIL)
    requires done != [] ==> NoStart(rest, done[|done| - 1].start)
    ensures Seg(PrevNext(next1, done, v), page1, if done == [] then v else list, done + rest, NIL)
  {
    SegFrame(next, page, next1, page1, list, done, b, x);
    if done == [] {
      assert done + rest == rest;
    } else {
      var last := done[|done| - 1].start;
      SegRetarget(next1, page1, list, done, b, v);
      SegFrame(next1, page1, PrevNext(next1, done, v), page1, v, rest, NIL, last);
      SegConcat(PrevNext(next1, done, v), page1, list, done, v, rest, NIL);
    }
  }

  /** Passing a run that does not fit. */
  lemma {:induction false} AllocPasses(done: seq<Run>, ahead: seq<Run>, n: nat)
    requires n > 0 && forall i :: 0 <= i < |done| ==> done[i].len < n
    ensures Alloc(done + ahead, n).0 == done + Alloc(ahead, n).0
    ensures Alloc(done + ahead, n).1 == Alloc(ahead, n).1
    decreases |done|
  {
    if done == [] {
      assert done + ahead == ahead && done + Alloc(ahead, n).0 == Alloc(ahead, n).0;
    } else {
      var rest := done[1..];
      assert (done + ahead)[1..] == rest + ahead;
      AllocPasses(rest, ahead, n);
      assert Alloc(done + ahead, n).0 == [done[0]] + Alloc(rest + ahead, n).0;
      assert [done[0]] + (rest + Alloc(ahead, n).0) == done + Alloc(ahead, n).0;
    }
  }

  /** Passing a run that ends before the released pages begin. */
  lemma {:induction false} ReleasePasses(done: seq<Run>, ahead: seq<Run>, a: nat, n: nat)
    requires forall i :: 0 <= i < |done| ==> done[i].start + done[i].len < a
    ensures Release(done + ahead, a, n) == done + Release(ahead, a, n)
    decreases |done|
  {
    if done == [] {
      assert done + ahead == ahead && done + Release(ahead, a, n) == Release(ahead, a, n);
    } else {
      var rest := done[1..];
      assert (done + ahead)[1..] == rest + ahead;
      ReleasePasses(rest, ahead, a, n);
      assert Release(done + ahead, a, n) == [done[0]] + Release(rest + ahead, a, n);
      assert [done[0]] + (rest + Release(ahead, a, n)) == done + Release(ahead, a, n);
    }
  }

  /** The walk along the list: `b` is the next run, `prev` the one before it. */
  ghost predicate Walk(next: map<nat, int>, page: map<nat, nat>, list: int, prev: int, b: int, done: seq<Run>, ahead: seq<Run>) {
    && Seg(next, page, list, done, b) && Seg(next, page, b, ahead, NIL)
    && prev == if done == [] then NIL else done[|done| - 1].start
  }

  lemma WalkStep(next: map<nat, int>, page: map<nat, nat>, list: int, prev: int, b: nat, done: seq<Run>, ahead: seq<Run>)
    requires Walk(next, page, list, prev, b, done, ahead) && ahead != []
    ensures b in next && Walk(next, page, list, b, next[b], done + [ahead[0]], ahead[1..])
    ensures done + ahead == (done + [ahead[0]]) + ahead[1..]
  {
    SegStep(next, page, list, done, b, ahead);
  }

  /** Where the walk stands: at the end of the list, or at a run whose length is known. */
  lemma WalkAt(next: map<nat, int>, page: map<nat, nat>, list: int, prev: int, b: int, done: seq<Run>, ahead: seq<Run>)
    requires Walk(next, page, list, prev, b, done, ahead)
    ensures b == NIL <==> ahead == []
    ensures ahead != [] ==> b == ahead[0].start && ahead[0].start in page && page[ahead[0].start] == ahead[0].len
  {
  }

  lemma SegStep(next: map<nat, int>, page: map<nat, nat>, list: int, done: seq<Run>, b: int, ahead: seq<Run>)
    requires Seg(next, page, list, done, b) && Seg(next, page, b, ahead, NIL) && ahead != []
    ensures b == ahead[0].start && ahead[0].start in next
    ensures Seg(next, page, list, done + [ahead[0]], next[ahead[0].start])
    ensures Seg(next, page, next[ahead[0].start], ahead[1..], NIL)
  {
    assert [ahead[0]][1..] == [];
    SegConcat(next, page, list, done, b, [ahead[0]], next[ahead[0].start]);
  }

  class PageHeap {
    var next: map<nat, int>        // the link in the first page of every run
    var page: map<nat, nat>        // and its length
    var list: int                  // rt_page_list
    ghost var runs: seq<Run>

    ghost predicate Linked()
      reads this
    {
      Seg(next, page, list, runs, NIL)
    }

    ghost predicate Valid()
      reads this
    {
      Linked() && Ordered(runs)
    }

    /** rt_page_init. */
    constructor (addr: nat, npages: nat)
      requires npages > 0
      ensures Valid() && runs == [Run(addr, npages)]
    {
      next, page, list, runs := map[], map[], NIL, [];
      new;
      ReleasePages(addr, npages);
    }

    /** *prev = v. */
    method SetPrev(prev: int, v: int)
      requires prev == NIL || prev >= 0
      modifies this`next, this`list
      ensures if prev == NIL then list == v && next == old(next) else list == old(list) && next == old(next)[prev := v]
    {
      if prev == NIL { list := v; } else { next := next[prev := v]; }
    }

    /** rt_page_alloc. */
    method AllocPages(npages: nat) returns (r: int)
      requires Valid()
      modifies this
      ensures Valid() && runs == Alloc(old(runs), npages).0
      ensures r == if Alloc(old(runs), npages).1.Some? then Alloc(old(runs), npages).1.page else NIL
    {
      if npages == 0 { return NIL; }
      AllocKeeps(runs, npages);
      var prev, b := NIL, list;
      ghost var done: seq<Run>, ahead := [], runs;
      while b != NIL
        invariant runs == old(runs) && next == old(next) && page == old(page) && list == old(list)
        invariant runs == done + ahead && Walk(next, page, list, prev, b, done, ahead)
        invariant forall i :: 0 <= i < |done| ==> done[i].len < npages
        decreases |ahead|
      {
        WalkAt(next, page, list, prev, b, done, ahead);
        AllocPasses(done, ahead, npages);
        if page[b] > npages {
          r := b;
          TakeFront(prev, b, npages, done, ahead);
          return;
        }
        if page[b] == npages {
          r := b;
          TakeWhole(prev, b, done, ahead);
          return;
        }
        WalkStep(next, page, list, prev, b, done, ahead);
        prev := b;
        b := next[b];
        done, ahead := done + [ahead[0]], ahead[1..];
      }
      WalkAt(next, page, list, prev, b, done, ahead);
      AllocPasses(done, ahead, npages);
      assert done + ahead == done;
      r := NIL;
    }

    /** The run is longer than the request: its rest stays in the list. */
    method TakeFront(prev: int, b: nat, npages: nat, ghost done: seq<Run>, ghost ahead: seq<Run>)
      requires Valid() && runs == done + ahead && Walk(next, page, list, prev, b, done, ahead)
      requires ahead != [] && 0 < npages < ahead[0].len
      modifies this
      ensures Linked() && runs == done + ([Run(b + npages, ahead[0].len - npages)] + ahead[1..])
    {
      OrderedParts(done, ahead);
      ghost var next0, page0, rest := next, page, [Run(b + npages, ahead[0].len - npages)] + ahead[1..];
      var n := b + npages;
      next := next[n := next[b]];
      page := page[n := page[b] - npages];
      assert NoStart(ahead[1..], n) by {
        forall i | 0 <= i < |ahead[1..]| ensures ahead[1..][i].start != n { StrictlyBehind(ahead, i + 1); }
      }
      SegFrame(next0, page0, next, page, next0[b], ahead[1..], NIL, n);
      assert rest[1..] == ahead[1..];
      assert forall i :: 0 < i < |rest| ==> rest[i] == ahead[i];
      Splice(next0, page0, list, done, b, next, page, n, n, rest);
      SetPrev(prev, n);
      runs := done + rest;
    }

    /** The run is exactly as long as the request. */
    method TakeWhole(prev: int, b: nat, ghost done: seq<Run>, ghost ahead: seq<Run>)
      requires Valid() && runs == done + ahead && Walk(next, page, list, prev, b, done, ahead)
      requires ahead != []
      modifies this
      ensures Linked() && runs == done + ahead[1..]
    {
      OrderedParts(done, ahead);
      Splice(next, page, list, done, b, next, page, b, next[b], ahead[1..]);
      SetPrev(prev, next[b]);
      runs := done + ahead[1..];
    }

    /** The released pages follow the run at `b`, and may close the gap to the next one. */
    method GrowRun(prev: int, b: nat, npages: nat, ghost done: seq<Run>, ghost ahead: seq<Run>)
      requires Valid() && runs == done + ahead && Walk(next, page, list, prev, b, done, ahead)
      requires ahead != [] && npages > 0
      modifies this`next, this`page, this`runs
      ensures Linked()
      ensures runs == done + (if |ahead| > 1 && b + ahead[0].len + npages == ahead[1].start
        then [Run(b, ahead[0].len + npages + ahead[1].len)] + ahead[2..]
        else [Run(b, ahead[0].len + npages)] + ahead[1..])
    {
      OrderedParts(done, ahead);
      ghost var next0, page0 := next, page;
      ghost var rest := [Run(b, ahead[0].len + npages)] + ahead[1..];
      WalkStep(next, page, list, prev, b, done, ahead);
      WalkAt(next, page, list, b, next[b], done + [ahead[0]], ahead[1..]);
      if |ahead| > 1 { WalkStep(next, page, list, b, ahead[1].start, done + [ahead[0]], ahead[1..]); }
      forall i | 0 <= i < |ahead[1..]| ensures ahead[1..][i].start != b { StrictlyBehind(ahead, i + 1); }
      page := page[b := page[b] + npages];
      if b + page[b] == next[b] {
        ghost var tail := ahead[2..];
        assert ahead[1..][1..] == tail && NoStart(tail, b) by { assert forall i :: 0 <= i < |tail| ==> tail[i] == ahead[1..][i + 1]; }
        rest := [Run(b, ahead[0].len + npages + ahead[1].len)] + tail;
        var m: nat := next[b];
        page := page[b := page[b] + page[m]];
        next := next[b := next[m]];
        assert rest[1..] == tail;
        SegFrame(next0, page0, next, page, next0[ahead[1].start], tail, NIL, b);
      } else {
        assert rest[1..] == ahead[1..];
        SegFrame(next0, page0, next, page, next0[b], ahead[1..], NIL, b);
      }
      SegFrame(next0, page0, next, page, list, done, b, b);
      SegConcat(next, page, list, done, b, rest, NIL);
      runs := done + rest;
    }

    /** The released pages end where the run at `b` begins. */
    method PutInFront(prev: int, b: nat, addr: nat, npages: nat, ghost done: seq<Run>, ghost ahead: seq<Run>)
      requires Valid() && runs == done + ahead && Walk(next, page, list, prev, b, done, ahead)
      requires ahead != [] && npages > 0 && b == addr + npages
      requires forall i :: 0 <= i < |done| ==> done[i].start < addr
      modifies this
      ensures Linked() && runs == done + ([Run(addr, ahead[0].len + npages)] + ahead[1..])
    {
      OrderedParts(done, ahead);
      ghost var next0, page0, rest := next, page, [Run(addr, ahead[0].len + npages)] + ahead[1..];
      page := page[addr := page[b] + npages];
      next := next[addr := next[b]];
      assert NoStart(ahead[1..], addr) by {
        forall i | 0 <= i < |ahead[1..]| ensures ahead[1..][i].start != addr { StrictlyBehind(ahead, i + 1); }
      }
      SegFrame(next0, page0, next, page, next0[b], ahead[1..], NIL, addr);
      assert rest[1..] == ahead[1..];
      assert forall i :: 0 < i < |rest| ==> rest[i] == ahead[i];
      Splice(next0, page0, list, done, b, next, page, addr, addr, rest);
      SetPrev(prev, addr);
      runs := done + rest;
    }

    /** The released pages touch no run. */
    method PutAlone(prev: int, b: int, addr: nat, npages: nat, ghost done: seq<Run>, ghost ahead: seq<Run>)
      requires Valid() && runs == done + ahead && Walk(next, page, list, prev, b, done, ahead)
      requires npages > 0 && (ahead != [] ==> ahead[0].start > addr + npages)
      requires forall i :: 0 <= i < |done| ==> done[i].start < addr
      modifies this
      ensures Linked() && runs == done + ([Run(addr, npages)] + ahead)
    {
      OrderedParts(done, ahead);
      ghost var next0, page0, rest := next, page, [Run(addr, npages)] + ahead;
      page := page[addr := npages];
      next := next[addr := b];
      assert NoStart(ahead, addr) by {
        forall i | 0 <= i < |ahead| ensures ahead[i].start != addr { StartsBehind(ahead, i); }
      }
      SegFrame(next0, page0, next, page, b, ahead, NIL, addr);
      assert rest[1..] == ahead;
      assert forall i :: 0 < i < |rest| ==> rest[i] == ahead[i - 1];
      Splice(next0, page0, list, done, b, next, page, addr, addr, rest);
      SetPrev(prev, addr);
      runs := done + rest;
    }

    /** The loop of rt_page_free: stop at the run to merge with, or at the first one behind the pages. */
    method FindPlace(addr: nat, npages: nat) returns (prev: int, b: int, ghost done: seq<Run>, ghost ahead: seq<Run>)
      requires Valid() && npages > 0 && AllTaken(runs, addr, npages)
      ensures runs == done + ahead && Walk(next, page, list, prev, b, done, ahead)
      ensures forall i :: 0 <= i < |done| ==> done[i].start + done[i].len < addr
      ensures b != NIL ==> b >= 0 && b in page && (b + page[b] == addr || b >= addr + npages)
    {
      prev, b, done, ahead := NIL, list, [], runs;
      while b != NIL
        invariant runs == done + ahead && Walk(next, page, list, prev, b, done, ahead)
        invariant Ordered(ahead) && AllTaken(ahead, addr, npages)
        invariant forall i :: 0 <= i < |done| ==> done[i].start + done[i].len < addr
        decreases |ahead|
      {
        WalkAt(next, page, list, prev, b, done, ahead);
        RestTaken(ahead, addr, npages);
        if b + page[b] == addr || b >= addr + npages { return; }
        WalkStep(next, page, list, prev, b, done, ahead);
        prev := b;
        b := next[b];
        done, ahead := done + [ahead[0]], ahead[1..];
      }
    }

    /** rt_page_free. */
    method ReleasePages(addr: nat, npages: nat)
      requires Valid() && npages > 0 && AllTaken(runs, addr, npages)
      modifies this
      ensures Valid() && runs == Release(old(runs), addr, npages)
    {
      ReleaseKeeps(runs, addr, npages);
      var prev, b, done, ahead := FindPlace(addr, npages);
      WalkAt(next, page, list, prev, b, done, ahead);
      ReleasePasses(done, ahead, addr, npages);
      if b != NIL && b + page[b] == addr {
        GrowRun(prev, b, npages, done, ahead);
      } else if b == addr + npages {
        PutInFront(prev, b, addr, npages, done, ahead);
      } else {
        assert ahead == [] ==> [Run(addr, npages)] + ahead == [Run(addr, npages)];
        PutAlone(prev, b, addr, npages, done, ahead);
      }
    }
  }
}

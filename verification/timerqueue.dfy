/**
  The hard timers as a queue on an unbounded clock.  This is what timer.c promises: timers ordered by
  deadline, equal deadlines in start order, each due timer called once.  Module Timers proves that the
  wrapping 32-bit ticks and the skip list of timer.c refine it.
*/
module TimerQueue {
  type Timer = nat

  const HALF: int := 0x7fff_ffff      // RT_TICK_MAX / 2

  function Due(due: map<Timer, nat>, t: Timer): nat { if t in due then due[t] else 0 }

  ghost predicate Distinct(q: seq<Timer>) { forall i, j :: 0 <= i < j < |q| ==> q[i] != q[j] }

  ghost predicate InOrder(q: seq<Timer>, due: map<Timer, nat>, i: nat, j: nat)
    requires i < j < |q|
  {
    Due(due, q[i]) <= Due(due, q[j]) && q[i] != q[j]
  }

  /** The queue is in deadline order and holds no timer twice. */
  ghost predicate Ordered(q: seq<Timer>, due: map<Timer, nat>) {
    forall i, j {:trigger InOrder(q, due, i, j)} :: 0 <= i < j < |q| ==> InOrder(q, due, i, j)
  }

  /** How many leading timers of a sorted queue are due by `d`. */
  function Place(q: seq<Timer>, due: map<Timer, nat>, d: nat): (p: nat)
    ensures p <= |q|
    ensures forall i :: 0 <= i < p ==> Due(due, q[i]) <= d
    ensures p < |q| ==> Due(due, q[p]) > d
  {
    if q == [] || Due(due, q[0]) > d then 0 else 1 + Place(q[1..], due, d)
  }

  /** Stable insertion: behind every timer that is due no later. */
  function Insert(q: seq<Timer>, due: map<Timer, nat>, t: Timer): seq<Timer> {
    var p := Place(q, due, Due(due, t));
    q[..p] + [t] + q[p..]
  }

  function Minus(q: seq<Timer>, t: Timer): (r: seq<Timer>)
    ensures forall x :: x in r <==> x in q && x != t
  {
    if q == [] then [] else if q[0] == t then Minus(q[1..], t) else [q[0]] + Minus(q[1..], t)
  }

  /** The timers of `q` that are in `s`, in the order of `q`. */
  function Keep(q: seq<Timer>, s: set<Timer>): (r: seq<Timer>)
    ensures forall x :: x in r <==> x in q && x in s
  {
    if q == [] then [] else if q[0] in s then [q[0]] + Keep(q[1..], s) else Keep(q[1..], s)
  }

  // ---------------------------------------------------------------- laws of the queue functions

  lemma {:induction false} PlaceUnique(q: seq<Timer>, due: map<Timer, nat>, d: nat, p: nat)
    requires p <= |q|
    requires forall i :: 0 <= i < p ==> Due(due, q[i]) <= d
    requires p < |q| ==> Due(due, q[p]) > d
    ensures Place(q, due, d) == p
  {
    if p > 0 {
      PlaceUnique(q[1..], due, d, p - 1);
    }
  }

  /** Inserting into a + b, where a is due by then and b is not, inserts between them. */
  lemma InsertBetween(a: seq<Timer>, b: seq<Timer>, due: map<Timer, nat>, t: Timer)
    requires forall i :: 0 <= i < |a| ==> Due(due, a[i]) <= Due(due, t)
    requires b != [] ==> Due(due, b[0]) > Due(due, t)
    ensures Insert(a + b, due, t) == a + [t] + b
  {
    PlaceUnique(a + b, due, Due(due, t), |a|);
    assert (a + b)[..|a|] == a && (a + b)[|a|..] == b;
  }

  /** Inserting into a + b where all of a is due no later than t only concerns b. */
  lemma InsertAfterPrefix(a: seq<Timer>, b: seq<Timer>, due: map<Timer, nat>, t: Timer)
    requires forall i :: 0 <= i < |a| ==> Due(due, a[i]) <= Due(due, t)
    ensures Insert(a + b, due, t) == a + Insert(b, due, t)
  {
    var p := Place(b, due, Due(due, t));
    PlaceBehind(a, b, due, Due(due, t));
    SplitBehind(a, b, p);
    assert a + b[..p] + [t] + b[p..] == a + (b[..p] + [t] + b[p..]);
  }

  lemma PlaceBehind(a: seq<Timer>, b: seq<Timer>, due: map<Timer, nat>, d: nat)
    requires forall i :: 0 <= i < |a| ==> Due(due, a[i]) <= d
    ensures Place(a + b, due, d) == |a| + Place(b, due, d)
  {
    var q, n := a + b, |a| + Place(b, due, d);
    forall i | 0 <= i < n
      ensures Due(due, q[i]) <= d
    {
      if i < |a| { assert q[i] == a[i]; } else { assert q[i] == b[i - |a|]; }
    }
    PlaceUnique(q, due, d, n);
  }

  lemma SplitBehind(a: seq<Timer>, b: seq<Timer>, p: nat)
    requires p <= |b|
    ensures (a + b)[..|a| + p] == a + b[..p] && (a + b)[|a| + p..] == b[p..]
  {
  }

  lemma InsertFrame(q: seq<Timer>, due: map<Timer, nat>, due': map<Timer, nat>, t: Timer)
    requires forall x :: x in q || x == t ==> Due(due, x) == Due(due', x)
    ensures Insert(q, due, t) == Insert(q, due', t)
  {
    PlaceUnique(q, due', Due(due', t), Place(q, due, Due(due, t)));
  }

  lemma InsertElems(q: seq<Timer>, due: map<Timer, nat>, t: Timer)
    ensures forall x :: x in Insert(q, due, t) <==> x in q || x == t
  {
    var p := Place(q, due, Due(due, t));
    assert q == q[..p] + q[p..];
  }

  /** Insertion keeps a queue sorted and free of duplicates. */
  lemma InsertSorted(q: seq<Timer>, due: map<Timer, nat>, t: Timer)
    requires Ordered(q, due) && t !in q
    ensures Ordered(Insert(q, due, t), due)
  {
    var p, r := Place(q, due, Due(due, t)), Insert(q, due, t);
    forall i, j | 0 <= i < j < |r|
      ensures InOrder(r, due, i, j)
    {
      var i', j' := if i < p then i else i - 1, if j < p then j else j - 1;
      if i != p && j != p {
        assert InOrder(q, due, i', j');
      } else if i == p && j - 1 > p {
        assert InOrder(q, due, p, j - 1);
      }
    }
  }

  lemma ConsSorted(x: Timer, r: seq<Timer>, due: map<Timer, nat>)
    requires Ordered(r, due)
    requires forall i :: 0 <= i < |r| ==> Due(due, x) <= Due(due, r[i]) && x != r[i]
    ensures Ordered([x] + r, due)
  {
    forall i, j | 0 <= i < j < |[x] + r|
      ensures InOrder([x] + r, due, i, j)
    {
      if i > 0 { assert InOrder(r, due, i - 1, j - 1); }
    }
  }

  lemma {:induction false} MinusSorted(q: seq<Timer>, due: map<Timer, nat>, t: Timer)
    requires Ordered(q, due)
    ensures Ordered(Minus(q, t), due)
  {
    if q != [] {
      TailOrdered(q, due);
      MinusSorted(q[1..], due, t);
      var r := Minus(q[1..], t);
      assert forall i :: 0 <= i < |r| ==> r[i] in r;
      if q[0] != t { ConsSorted(q[0], r, due); }
    }
  }

  lemma TailOrdered(q: seq<Timer>, due: map<Timer, nat>)
    requires q != [] && Ordered(q, due)
    ensures Ordered(q[1..], due)
    ensures forall x :: x in q[1..] ==> Due(due, q[0]) <= Due(due, x) && q[0] != x
  {
    forall i, j | 0 <= i < j < |q[1..]|
      ensures InOrder(q[1..], due, i, j)
    {
      assert InOrder(q, due, i + 1, j + 1);
    }
    forall x | x in q[1..]
      ensures Due(due, q[0]) <= Due(due, x) && q[0] != x
    {
      var j :| 0 <= j < |q[1..]| && q[1..][j] == x;
      assert InOrder(q, due, 0, j + 1);
    }
  }

  lemma {:induction false} KeepSorted(q: seq<Timer>, due: map<Timer, nat>, s: set<Timer>)
    requires Ordered(q, due)
    ensures Ordered(Keep(q, s), due)
  {
    if q != [] {
      TailOrdered(q, due);
      KeepSorted(q[1..], due, s);
      var r := Keep(q[1..], s);
      assert forall i :: 0 <= i < |r| ==> r[i] in r;
      if q[0] in s { ConsSorted(q[0], r, due); }
    }
  }

  lemma {:induction false} KeepConcat(a: seq<Timer>, b: seq<Timer>, s: set<Timer>)
    ensures Keep(a + b, s) == Keep(a, s) + Keep(b, s)
  {
    if a == [] {
      assert a + b == b;
    } else {
      assert (a + b)[1..] == a[1..] + b;
      KeepConcat(a[1..], b, s);
    }
  }

  lemma {:induction false} KeepAll(q: seq<Timer>, s: set<Timer>)
    requires forall x :: x in q ==> x in s
    ensures Keep(q, s) == q
  {
    if q != [] {
      KeepAll(q[1..], s);
    }
  }

  lemma {:induction false} KeepOnly(q: seq<Timer>, s: set<Timer>, t: Timer)
    requires t !in q
    ensures Keep(q, s + {t}) == Keep(q, s) == Keep(q, s - {t})
  {
    if q != [] {
      assert q[0] in q;
      KeepOnly(q[1..], s, t);
    }
  }

  /** Removing commutes with restricting. */
  lemma {:induction false} MinusKeep(q: seq<Timer>, s: set<Timer>, t: Timer)
    ensures Minus(Keep(q, s), t) == Keep(Minus(q, t), s - {t})
  {
    if q != [] {
      MinusKeep(q[1..], s, t);
    }
  }

  lemma {:induction false} MinusAbsent(q: seq<Timer>, t: Timer)
    requires t !in q
    ensures Minus(q, t) == q
  {
    if q != [] {
      assert q[0] in q;
      MinusAbsent(q[1..], t);
    }
  }

  lemma SortedParts(q: seq<Timer>, due: map<Timer, nat>, d: nat)
    requires Ordered(q, due)
    ensures var p := Place(q, due, d);
      (forall x :: x in q[..p] ==> Due(due, x) <= d) && (forall x :: x in q[p..] ==> Due(due, x) > d)
  {
    var p := Place(q, due, d);
    forall x | x in q[p..]
      ensures Due(due, x) > d
    {
      var j :| p <= j < |q| && q[j] == x;
      if p < j { assert InOrder(q, due, p, j); }
    }
  }

  /** Restricting an insertion: the row either gets the new timer at its own place, or does not change. */
  lemma KeepInsert(q: seq<Timer>, due: map<Timer, nat>, s: set<Timer>, t: Timer)
    requires Ordered(q, due) && t !in q
    ensures Keep(Insert(q, due, t), s + {t}) == Insert(Keep(q, s), due, t)
    ensures t !in s ==> Keep(Insert(q, due, t), s) == Keep(q, s)
  {
    var p := Place(q, due, Due(due, t));
    SortedParts(q, due, Due(due, t));
    KeepInsertAt(q, q[..p], q[p..], due, s, t);
    InsertParts(q, due, t);
  }

  lemma InsertParts(q: seq<Timer>, due: map<Timer, nat>, t: Timer)
    ensures var p := Place(q, due, Due(due, t)); Insert(q, due, t) == q[..p] + ([t] + q[p..])
  {
  }

  lemma KeepInsertAt(q: seq<Timer>, a: seq<Timer>, b: seq<Timer>, due: map<Timer, nat>, s: set<Timer>, t: Timer)
    requires q == a + b && t !in a && t !in b
    requires forall x :: x in a ==> Due(due, x) <= Due(due, t)
    requires forall x :: x in b ==> Due(due, x) > Due(due, t)
    ensures Keep(a + ([t] + b), s + {t}) == Insert(Keep(q, s), due, t)
    ensures t !in s ==> Keep(a + ([t] + b), s) == Keep(q, s)
  {
    KeepInsertParts(a, b, due, s, t);
    KeepConcat(a, b, s);
  }

  lemma KeepInsertParts(a: seq<Timer>, b: seq<Timer>, due: map<Timer, nat>, s: set<Timer>, t: Timer)
    requires t !in a && t !in b
    requires forall x :: x in a ==> Due(due, x) <= Due(due, t)
    requires forall x :: x in b ==> Due(due, x) > Due(due, t)
    ensures Keep(a + ([t] + b), s + {t}) == Insert(Keep(a, s) + Keep(b, s), due, t)
    ensures t !in s ==> Keep(a + ([t] + b), s) == Keep(a, s) + Keep(b, s)
  {
    KeepCons(a, t, b, s);
    var ka, kb := Keep(a, s), Keep(b, s);
    assert forall i :: 0 <= i < |ka| ==> ka[i] in ka;
    assert kb != [] ==> kb[0] in kb;
    InsertBetween(ka, kb, due, t);
  }

  lemma KeepCons(a: seq<Timer>, t: Timer, b: seq<Timer>, s: set<Timer>)
    requires t !in a && t !in b
    ensures Keep(a + ([t] + b), s + {t}) == Keep(a, s) + [t] + Keep(b, s)
    ensures t !in s ==> Keep(a + ([t] + b), s) == Keep(a, s) + Keep(b, s)
  {
    KeepConcat(a, [t] + b, s);
    KeepConcat(a, [t] + b, s + {t});
    KeepOnly(a, s, t);
    KeepOnly(b, s, t);
    assert ([t] + b)[1..] == b;
  }

  // ---------------------------------------------------------------- the timer system as a state machine

  /** `now` counts ticks since start-up without wrapping; `due` is the absolute deadline of a queued timer. */
  datatype Sys = Sys(now: nat, queue: seq<Timer>, due: map<Timer, nat>, init: map<Timer, nat>, periodic: set<Timer>)

  datatype Event =
    | Start(t: Timer)
    | Stop(t: Timer)
    | Tick
    | SetTime(t: Timer, ticks: nat)
    | SetPeriodic(t: Timer)
    | SetOneShot(t: Timer)

  ghost predicate Valid(s: Sys) {
    && Ordered(s.queue, s.due)
    && forall t :: t in s.queue ==> t in s.due && s.now <= s.due[t] < s.now + HALF && (t in s.periodic ==> 1 <= Due(s.init, t) < HALF)
  }

  /** What the code asks of its callers: the assertion on init_tick, and a period of at least one tick. */
  predicate Allowed(s: Sys, e: Event) {
    match e
    case Start(t) => Due(s.init, t) < HALF && (t in s.periodic ==> 1 <= Due(s.init, t))
    case SetTime(t, ticks) => t in s.queue && t in s.periodic ==> 1 <= ticks < HALF
    case SetPeriodic(t) => t in s.queue ==> 1 <= Due(s.init, t) < HALF
    case _ => true
  }

  /** The timers whose callbacks one check at time `now` calls, in call order. */
  function DueBy(q: seq<Timer>, due: map<Timer, nat>, now: nat): seq<Timer> {
    q[..Place(q, due, now)]
  }

  /** The queue `r` after the periodic ones among `ts` were started again, one by one. */
  function Restart(r: seq<Timer>, due: map<Timer, nat>, periodic: set<Timer>, ts: seq<Timer>): seq<Timer> {
    if ts == [] then r
    else
      var q := Restart(r, due, periodic, ts[..|ts| - 1]);
      var t := ts[|ts| - 1];
      if t in periodic then Insert(q, due, t) else q
  }

  /** The deadlines after the periodic ones among `ts` were started again at `now`. */
  function DueAgain(s: Sys, ts: seq<Timer>, now: nat): map<Timer, nat> {
    map t | t in s.due :: if t in ts && t in s.periodic then now + Due(s.init, t) else s.due[t]
  }

  function FiredBy(s: Sys, e: Event): seq<Timer> {
    if e.Tick? then DueBy(s.queue, s.due, s.now + 1) else []
  }

  function TickStep(s: Sys): Sys {
    var now := s.now + 1;
    var p := Place(s.queue, s.due, now);
    var due := DueAgain(s, s.queue[..p], now);
    s.(now := now, queue := Restart(s.queue[p..], due, s.periodic, s.queue[..p]), due := due)
  }

  function Step(s: Sys, e: Event): Sys {
    match e
    case Start(t) =>
      var due := s.due[t := s.now + Due(s.init, t)];
      s.(queue := Insert(Minus(s.queue, t), due, t), due := due)
    case Stop(t) => s.(queue := Minus(s.queue, t))
    case Tick => TickStep(s)
    case SetTime(t, ticks) => s.(init := s.init[t := ticks])
    case SetPeriodic(t) => s.(periodic := s.periodic + {t})
    case SetOneShot(t) => s.(periodic := s.periodic - {t})
  }

  lemma {:induction false} RestartElems(r: seq<Timer>, due: map<Timer, nat>, periodic: set<Timer>, ts: seq<Timer>)
    ensures forall x :: x in Restart(r, due, periodic, ts) <==> x in r || (x in ts && x in periodic)
  {
    if ts != [] {
      var pre, t := ts[..|ts| - 1], ts[|ts| - 1];
      RestartElems(r, due, periodic, pre);
      InsertElems(Restart(r, due, periodic, pre), due, t);
      assert ts == pre + [t];
    }
  }

  lemma {:induction false} RestartSorted(r: seq<Timer>, due: map<Timer, nat>, periodic: set<Timer>, ts: seq<Timer>)
    requires Ordered(r, due) && Distinct(ts)
    requires forall x :: x in ts ==> x !in r
    ensures Ordered(Restart(r, due, periodic, ts), due)
  {
    if ts != [] {
      var pre, t := ts[..|ts| - 1], ts[|ts| - 1];
      assert t !in pre && t in ts;
      RestartSorted(r, due, periodic, pre);
      RestartElems(r, due, periodic, pre);
      InsertSorted(Restart(r, due, periodic, pre), due, t);
    }
  }

  lemma OrderedFrame(q: seq<Timer>, due: map<Timer, nat>, due': map<Timer, nat>)
    requires Ordered(q, due) && forall x :: x in q ==> Due(due, x) == Due(due', x)
    ensures Ordered(q, due')
  {
    forall i, j | 0 <= i < j < |q|
      ensures InOrder(q, due', i, j)
    {
      assert InOrder(q, due, i, j);
      assert q[i] in q && q[j] in q;
    }
  }

  /** One check calls exactly the due timers, each once, in deadline order. */
  lemma FiredExactly(s: Sys)
    requires Valid(s)
    ensures forall t :: t in FiredBy(s, Tick) <==> t in s.queue && s.due[t] <= s.now + 1
    ensures Ordered(FiredBy(s, Tick), s.due)
    ensures forall t :: t in s.queue[Place(s.queue, s.due, s.now + 1)..] <==> t in s.queue && t !in FiredBy(s, Tick)
  {
    FiredPart(s, FiredBy(s, Tick));
  }

  lemma FiredPart(s: Sys, ts: seq<Timer>)
    requires Valid(s) && ts == DueBy(s.queue, s.due, s.now + 1)
    ensures forall t :: t in ts <==> t in s.queue && s.due[t] <= s.now + 1
    ensures Ordered(ts, s.due)
    ensures forall t :: t in s.queue[Place(s.queue, s.due, s.now + 1)..] <==> t in s.queue && t !in ts
  {
    DuePart(s.queue, s.due, s.now + 1);
    forall t
      ensures t in ts <==> t in s.queue && s.due[t] <= s.now + 1
    {
      if t in s.queue { assert Due(s.due, t) == s.due[t]; }
    }
  }

  /** The timers due by `d` are a prefix of the queue. */
  lemma DuePart(q: seq<Timer>, due: map<Timer, nat>, d: nat)
    requires Ordered(q, due)
    ensures var p := Place(q, due, d);
      && Ordered(q[..p], due)
      && (forall x :: x in q[..p] <==> x in q && Due(due, x) <= d)
      && (forall x :: x in q[p..] <==> x in q && x !in q[..p])
  {
    SortedParts(q, due, d);
    PrefixFacts(q, due, Place(q, due, d));
  }

  lemma PrefixFacts(q: seq<Timer>, due: map<Timer, nat>, p: nat)
    requires p <= |q| && Ordered(q, due)
    ensures Ordered(q[..p], due) && Ordered(q[p..], due)
    ensures forall x :: x in q <==> x in q[..p] || x in q[p..]
    ensures forall x :: x in q[..p] ==> x !in q[p..]
    ensures Distinct(q[..p])
  {
    assert q == q[..p] + q[p..];
    forall i, j | 0 <= i < j < |q|
      ensures j < p ==> InOrder(q[..p], due, i, j)
      ensures p <= i ==> InOrder(q[p..], due, i - p, j - p)
      ensures q[i] != q[j]
    {
      assert InOrder(q, due, i, j);
    }
    forall i, j | 0 <= i < j < |q[p..]|
      ensures InOrder(q[p..], due, i, j)
    {
      assert InOrder(q, due, i + p, j + p);
    }
  }

  /** After a check no due timer is left in the queue. */
  lemma TickKeepsValid(s: Sys)
    requires Valid(s)
    ensures Valid(TickStep(s))
    ensures forall t :: t in TickStep(s).queue ==> TickStep(s).due[t] > TickStep(s).now
    ensures forall t :: t in TickStep(s).queue <==> t in s.queue && (s.due[t] > s.now + 1 || t in s.periodic)
  {
    FiredExactly(s);
    TickElems(s);
    TickOrdered(s);
  }

  lemma TickElems(s: Sys)
    requires Valid(s)
    ensures forall t :: t in TickStep(s).queue <==> t in s.queue && (t !in FiredBy(s, Tick) || t in s.periodic)
  {
    var p := Place(s.queue, s.due, s.now + 1);
    PrefixFacts(s.queue, s.due, p);
    RestartElems(s.queue[p..], TickStep(s).due, s.periodic, s.queue[..p]);
  }

  lemma TickOrdered(s: Sys)
    requires Ordered(s.queue, s.due) && forall x :: x in s.queue ==> x in s.due
    ensures Ordered(TickStep(s).queue, TickStep(s).due)
  {
    SplitOrdered(s, Place(s.queue, s.due, s.now + 1));
  }

  /** The same wherever the queue is split. */
  lemma SplitOrdered(s: Sys, p: nat)
    requires p <= |s.queue| && Ordered(s.queue, s.due) && forall x :: x in s.queue ==> x in s.due
    ensures var due' := DueAgain(s, s.queue[..p], s.now + 1);
      Ordered(Restart(s.queue[p..], due', s.periodic, s.queue[..p]), due')
  {
    var ts, r := s.queue[..p], s.queue[p..];
    PrefixFacts(s.queue, s.due, p);
    RestartOrdered(s, r, DueAgain(s, ts, s.now + 1), ts);
  }

  lemma RestartOrdered(s: Sys, r: seq<Timer>, due': map<Timer, nat>, ts: seq<Timer>)
    requires Ordered(r, s.due) && Distinct(ts) && due' == DueAgain(s, ts, s.now + 1)
    requires forall x :: x in ts ==> x !in r
    requires forall x :: x in r ==> x in s.due
    ensures Ordered(Restart(r, due', s.periodic, ts), due')
  {
    OrderedFrame(r, s.due, due');
    RestartSorted(r, due', s.periodic, ts);
  }

  lemma StepKeepsValid(s: Sys, e: Event)
    requires Valid(s) && Allowed(s, e)
    ensures Valid(Step(s, e))
  {
    match e
    case Start(t) =>
      var s' := Step(s, e);
      var m := Minus(s.queue, t);
      MinusSorted(s.queue, s.due, t);
      OrderedFrame(m, s.due, s'.due);
      InsertSorted(m, s'.due, t);
      InsertElems(m, s'.due, t);
    case Stop(t) => MinusSorted(s.queue, s.due, t);
    case Tick => TickKeepsValid(s);
    case _ =>
  }

  // ---------------------------------------------------------------- timing over whole runs

  function Run(s: Sys, es: seq<Event>): Sys
    decreases |es|
  {
    if es == [] then s else Run(Step(s, es[0]), es[1..])
  }

  predicate AllowedRun(s: Sys, es: seq<Event>)
    decreases |es|
  {
    es == [] || (Allowed(s, es[0]) && AllowedRun(Step(s, es[0]), es[1..]))
  }

  /** The times at which the callback of `t` is called. */
  function FireTimes(s: Sys, es: seq<Event>, t: Timer): seq<nat>
    decreases |es|
  {
    if es == [] then []
    else (if t in FiredBy(s, es[0]) then [Step(s, es[0]).now] else []) + FireTimes(Step(s, es[0]), es[1..], t)
  }

  /** Nobody starts, stops or reconfigures `t` during `es`. */
  predicate Untouched(es: seq<Event>, t: Timer) {
    forall i :: 0 <= i < |es| ==> es[i].Tick? || es[i].t != t
  }

  /** When a queued timer is called: at its deadline, or at the next tick if that is now. */
  function CallTime(s: Sys, t: Timer): nat { if Due(s.due, t) > s.now then Due(s.due, t) else s.now + 1 }

  /** What one event of someone else does to a queued timer. */
  lemma OneStep(s: Sys, e: Event, t: Timer)
    requires Valid(s) && Allowed(s, e) && (e.Tick? || e.t != t)
    ensures var s' := Step(s, e);
      && (t in s.periodic <==> t in s'.periodic) && Due(s.init, t) == Due(s'.init, t)
      && (t !in s.queue ==> t !in FiredBy(s, e) && t !in s'.queue)
      && (t in s.queue ==>
            if e.Tick? && s.due[t] <= s.now + 1 then
              && t in FiredBy(s, e) && s'.now == CallTime(s, t)
              && (t in s'.queue <==> t in s.periodic)
              && (t in s.periodic ==> t in s'.due && s'.due[t] == s'.now + Due(s.init, t))
            else
              && t !in FiredBy(s, e) && t in s'.queue && t in s'.due && s'.due[t] == s.due[t] && CallTime(s', t) == CallTime(s, t)
              && (s'.now < s'.due[t] || s'.now == s.now))
  {
    StepKeepsValid(s, e);
    match e
    case Start(o) => InsertElems(Minus(s.queue, o), Step(s, e).due, o);
    case Tick =>
      FiredExactly(s);
      TickKeepsValid(s);
    case _ =>
  }

  lemma {:induction false} NotQueuedNeverFires(s: Sys, es: seq<Event>, t: Timer)
    requires Valid(s) && AllowedRun(s, es) && Untouched(es, t) && t !in s.queue
    ensures FireTimes(s, es, t) == []
    decreases |es|
  {
    if es != [] {
      OneStep(s, es[0], t);
      StepKeepsValid(s, es[0]);
      assert Untouched(es[1..], t);
      NotQueuedNeverFires(Step(s, es[0]), es[1..], t);
    }
  }

  lemma {:induction false} TimeOnlyAdvances(s: Sys, es: seq<Event>)
    ensures Run(s, es).now >= s.now
    decreases |es|
  {
    if es != [] { TimeOnlyAdvances(Step(s, es[0]), es[1..]); }
  }

  /** A one-shot timer is called exactly at its deadline, once, and never earlier; one that is due now is
      called at the next tick. */
  lemma {:induction false} OneShotFiresOnTime(s: Sys, es: seq<Event>, t: Timer)
    requires Valid(s) && AllowedRun(s, es) && Untouched(es, t)
    requires t in s.queue && t !in s.periodic
    ensures FireTimes(s, es, t) == if Run(s, es).now >= CallTime(s, t) then [CallTime(s, t)] else []
    decreases |es|
  {
    if es != [] {
      var s' := Step(s, es[0]);
      OneStep(s, es[0], t);
      StepKeepsValid(s, es[0]);
      assert Untouched(es[1..], t);
      if t in s'.queue {
        OneShotFiresOnTime(s', es[1..], t);
      } else {
        NotQueuedNeverFires(s', es[1..], t);
        TimeOnlyAdvances(s', es[1..]);
      }
    }
  }

  /** `fires` are exactly the times first, first + d, first + 2d, ... up to `last`. */
  ghost predicate OnSchedule(fires: seq<nat>, first: nat, d: nat, last: nat) {
    && (forall k :: 0 <= k < |fires| ==> fires[k] == first + k * d)
    && first + |fires| * d > last
    && (fires != [] ==> first + (|fires| - 1) * d <= last)
  }

  lemma ScheduleCons(fires: seq<nat>, first: nat, d: nat, last: nat)
    requires OnSchedule(fires, first + d, d, last) && first <= last
    ensures OnSchedule([first] + fires, first, d, last)
  {
    var f := [first] + fires;
    forall k | 0 <= k < |f|
      ensures f[k] == first + k * d
    {
      if k > 0 { assert f[k] == fires[k - 1] == first + d + (k - 1) * d; }
    }
  }

  /** A periodic timer with deadline D and period d is called exactly at D, D + d, D + 2d, ... */
  lemma {:induction false} PeriodicFiresOnTime(s: Sys, es: seq<Event>, t: Timer)
    requires Valid(s) && AllowedRun(s, es) && Untouched(es, t)
    requires t in s.queue && t in s.periodic && s.due[t] > s.now
    ensures OnSchedule(FireTimes(s, es, t), s.due[t], Due(s.init, t), Run(s, es).now)
    decreases |es|
  {
    if es != [] {
      var s' := Step(s, es[0]);
      OneStep(s, es[0], t);
      StepKeepsValid(s, es[0]);
      assert Untouched(es[1..], t);
      PeriodicFiresOnTime(s', es[1..], t);
      TimeOnlyAdvances(s', es[1..]);
      PeriodicCons(s, es, t);
    }
  }

  /** One event in front of a run that is on schedule. */
  lemma PeriodicCons(s: Sys, es: seq<Event>, t: Timer)
    requires Valid(s) && es != [] && Allowed(s, es[0]) && (es[0].Tick? || es[0].t != t)
    requires t in s.queue && t in s.periodic && s.due[t] > s.now
    requires var s' := Step(s, es[0]);
      && t in s'.due && OnSchedule(FireTimes(s', es[1..], t), s'.due[t], Due(s'.init, t), Run(s', es[1..]).now)
      && s'.now <= Run(s', es[1..]).now
    ensures OnSchedule(FireTimes(s, es, t), s.due[t], Due(s.init, t), Run(s, es).now)
  {
    var s', fired := Step(s, es[0]), t in FiredBy(s, es[0]);
    OneStep(s, es[0], t);
    ScheduleStep(fired, FireTimes(s', es[1..], t), s.due[t], s'.due[t], s'.now, Due(s.init, t), Run(s', es[1..]).now);
  }

  /** A call at the deadline, or nothing, in front of what follows. */
  lemma ScheduleStep(fired: bool, rest: seq<nat>, first: nat, first': nat, now: nat, d: nat, last: nat)
    requires OnSchedule(rest, first', d, last) && now <= last
    requires if fired then now == first && first' == first + d else first' == first
    ensures OnSchedule((if fired then [now] else []) + rest, first, d, last)
  {
    if fired { ScheduleCons(rest, first, d, last); } else { assert [] + rest == rest; }
  }

  lemma StartEnters(s: Sys, t: Timer)
    ensures var s', d := Step(s, Start(t)), Due(s.init, t);
      && t in s'.queue && t in s'.due && s'.due[t] == s.now + d && s'.now == s.now
      && Due(s'.init, t) == d && (t in s'.periodic <==> t in s.periodic)
      && CallTime(s', t) == s.now + if d == 0 then 1 else d
  {
    InsertElems(Minus(s.queue, t), s.due[t := s.now + Due(s.init, t)], t);
  }

  /** The promise of rt_timer_start: started at time s with d ticks, first called at s + d, or at s + 1
      when d is 0. */
  lemma StartFiresAfterDelay(s: Sys, es: seq<Event>, t: Timer)
    requires Valid(s) && Allowed(s, Start(t)) && AllowedRun(Step(s, Start(t)), es) && Untouched(es, t)
    ensures var fires, last, d := FireTimes(Step(s, Start(t)), es, t), Run(Step(s, Start(t)), es).now, Due(s.init, t);
      if t in s.periodic
      then OnSchedule(fires, s.now + d, d, last)
      else var first := s.now + if d == 0 then 1 else d; fires == if last >= first then [first] else []
  {
    var s' := Step(s, Start(t));
    StepKeepsValid(s, Start(t));
    StartEnters(s, t);
    if t in s.periodic {
      PeriodicFiresOnTime(s', es, t);
    } else {
      OneShotFiresOnTime(s', es, t);
    }
  }

  // ---------------------------------------------------------------- exactly what each step does

  /** A stop takes exactly that timer out, and a start puts exactly that timer in, with its deadline counted
      from now. */
  lemma StartAndStopExactly(s: Sys, t: Timer, x: Timer)
    ensures var s' := Step(s, Stop(t));
      && (x in s'.queue <==> x in s.queue && x != t)
      && s'.now == s.now && s'.due == s.due && s'.init == s.init && s'.periodic == s.periodic
    ensures var s' := Step(s, Start(t));
      && (x in s'.queue <==> x in s.queue || x == t) && s'.now == s.now && s'.init == s.init && s'.periodic == s.periodic
      && Due(s'.due, x) == if x == t then s.now + Due(s.init, t) else Due(s.due, x)
  {
    InsertElems(Minus(s.queue, t), Step(s, Start(t)).due, t);
  }

  /** Timers that a step does not concern keep their order among each other, and their deadlines. */
  lemma OthersStayInOrder(s: Sys, e: Event, u: set<Timer>)
    requires Valid(s) && Allowed(s, e)
    requires if e.Tick? then forall x :: x in FiredBy(s, e) ==> x !in u else e.t !in u
    ensures Keep(Step(s, e).queue, u) == Keep(s.queue, u)
    ensures forall x :: x in u ==> Due(Step(s, e).due, x) == Due(s.due, x)
  {
    match e
    case Start(t) =>
      var m := Minus(s.queue, t);
      MinusSorted(s.queue, s.due, t);
      OrderedFrame(m, s.due, Step(s, e).due);
      KeepInsert(m, Step(s, e).due, u, t);
      MinusFar(s.queue, u, t);
    case Stop(t) => MinusFar(s.queue, u, t);
    case Tick => TickStaysInOrder(s, u);
    case _ =>
  }

  lemma {:induction false} MinusFar(q: seq<Timer>, u: set<Timer>, t: Timer)
    requires t !in u
    ensures Keep(Minus(q, t), u) == Keep(q, u)
  {
    if q != [] {
      MinusFar(q[1..], u, t);
      assert ([q[0]] + Minus(q[1..], t))[1..] == Minus(q[1..], t);
    }
  }

  lemma TickStaysInOrder(s: Sys, u: set<Timer>)
    requires Valid(s) && forall x :: x in FiredBy(s, Tick) ==> x !in u
    ensures Keep(TickStep(s).queue, u) == Keep(s.queue, u)
    ensures forall x :: x in u ==> Due(TickStep(s).due, x) == Due(s.due, x)
  {
    var p, due' := Place(s.queue, s.due, s.now + 1), TickStep(s).due;
    var ts, r := s.queue[..p], s.queue[p..];
    PrefixFacts(s.queue, s.due, p);
    KeepSuffix(s.queue, p, u);
    OrderedFrame(r, s.due, due');
    RestartFar(r, due', s.periodic, ts, u);
  }

  lemma KeepSuffix(q: seq<Timer>, p: nat, u: set<Timer>)
    requires p <= |q| && forall x :: x in q[..p] ==> x !in u
    ensures Keep(q, u) == Keep(q[p..], u)
  {
    assert q == q[..p] + q[p..];
    KeepConcat(q[..p], q[p..], u);
    KeepNone(q[..p], u);
  }

  lemma {:induction false} KeepNone(q: seq<Timer>, u: set<Timer>)
    requires forall x :: x in q ==> x !in u
    ensures Keep(q, u) == []
  {
    if q != [] {
      assert q[0] in q;
      KeepNone(q[1..], u);
    }
  }

  lemma {:induction false} RestartFar(r: seq<Timer>, due: map<Timer, nat>, periodic: set<Timer>, ts: seq<Timer>, u: set<Timer>)
    requires Ordered(r, due) && Distinct(ts) && forall x :: x in ts ==> x !in r && x !in u
    ensures Keep(Restart(r, due, periodic, ts), u) == Keep(r, u)
  {
    if ts != [] {
      var pre, t := ts[..|ts| - 1], ts[|ts| - 1];
      assert t in ts && t !in pre;
      RestartFar(r, due, periodic, pre, u);
      RestartSorted(r, due, periodic, pre);
      RestartElems(r, due, periodic, pre);
      KeepInsert(Restart(r, due, periodic, pre), due, u, t);
    }
  }

  /** A check calls the timers at the front of the queue, in that order, and starts the periodic ones again. */
  lemma TickExactly(s: Sys, x: Timer)
    requires Valid(s)
    ensures FiredBy(s, Tick) <= s.queue
    ensures Step(s, Tick).now == s.now + 1 && Step(s, Tick).init == s.init && Step(s, Tick).periodic == s.periodic
    ensures x in s.due ==>
      Due(Step(s, Tick).due, x) == if x in FiredBy(s, Tick) && x in s.periodic then s.now + 1 + Due(s.init, x) else Due(s.due, x)
  {
  }

  /** Timers with equal deadlines are called in the order in which they were started. */
  lemma EqualsInStartOrder(s: Sys, t: Timer, u: Timer)
    requires Valid(s) && Allowed(s, Start(t)) && t != u && Due(s.init, u) == Due(s.init, t)
    ensures var q := Step(Step(s, Start(t)), Start(u)).queue;
      exists i, j :: 0 <= i < j < |q| && q[i] == t && q[j] == u
  {
    var s1 := Step(s, Start(t));
    var s2 := Step(s1, Start(u));
    var m := Minus(s1.queue, u);
    StepKeepsValid(s, Start(t));
    StartAndStopExactly(s, t, t);
    MinusSorted(s1.queue, s1.due, u);
    OrderedFrame(m, s1.due, s2.due);
    BehindEqual(m, s2.due, u, t);
  }

  /** An inserted timer stands behind one with the same deadline. */
  lemma BehindEqual(q: seq<Timer>, due: map<Timer, nat>, u: Timer, t: Timer)
    requires Ordered(q, due) && t in q && Due(due, u) == Due(due, t)
    ensures exists i, j :: 0 <= i < j < |Insert(q, due, u)| && Insert(q, due, u)[i] == t && Insert(q, due, u)[j] == u
  {
    var p := Place(q, due, Due(due, u));
    SortedParts(q, due, Due(due, u));
    assert q == q[..p] + q[p..];
    var i :| 0 <= i < p && q[..p][i] == t;
    var r := Insert(q, due, u);
    assert r[i] == t && r[p] == u;
  }

  /** The changes of rt_timer_control touch only what they name. */
  lemma ControlExactly(s: Sys, t: Timer, ticks: nat, x: Timer)
    ensures var s' := Step(s, SetTime(t, ticks));
      s'.(init := s.init) == s && Due(s'.init, x) == if x == t then ticks else Due(s.init, x)
    ensures var s' := Step(s, SetPeriodic(t)); s'.(periodic := s.periodic) == s && (x in s'.periodic <==> x in s.periodic || x == t)
    ensures var s' := Step(s, SetOneShot(t)); s'.(periodic := s.periodic) == s && (x in s'.periodic <==> x in s.periodic && x != t)
  {
  }

  /** A timer that was stopped is never called, until somebody touches it again. */
  lemma StoppedNeverFires(s: Sys, es: seq<Event>, t: Timer)
    requires Valid(s) && AllowedRun(Step(s, Stop(t)), es) && Untouched(es, t)
    ensures FireTimes(s, [Stop(t)] + es, t) == []
  {
    assert ([Stop(t)] + es)[1..] == es;
    StepKeepsValid(s, Stop(t));
    NotQueuedNeverFires(Step(s, Stop(t)), es, t);
  }

  /** A queued timer made one-shot is called once more; made periodic, again and again. */
  lemma KindTakesEffect(s: Sys, es: seq<Event>, t: Timer)
    requires Valid(s) && t in s.queue && s.due[t] > s.now && Untouched(es, t)
    ensures AllowedRun(Step(s, SetOneShot(t)), es) ==>
      FireTimes(Step(s, SetOneShot(t)), es, t) == if Run(Step(s, SetOneShot(t)), es).now >= s.due[t] then [s.due[t]] else []
    ensures Allowed(s, SetPeriodic(t)) && AllowedRun(Step(s, SetPeriodic(t)), es) ==>
      OnSchedule(FireTimes(Step(s, SetPeriodic(t)), es, t), s.due[t], Due(s.init, t), Run(Step(s, SetPeriodic(t)), es).now)
  {
    if AllowedRun(Step(s, SetOneShot(t)), es) {
      StepKeepsValid(s, SetOneShot(t));
      OneShotFiresOnTime(Step(s, SetOneShot(t)), es, t);
    }
    if Allowed(s, SetPeriodic(t)) && AllowedRun(Step(s, SetPeriodic(t)), es) {
      StepKeepsValid(s, SetPeriodic(t));
      PeriodicFiresOnTime(Step(s, SetPeriodic(t)), es, t);
    }
  }
}

/**
  Hard timers (timer.c, driven by clock.c): a skip list ordered by 32-bit ticks that wrap.
  The ghost clock `now` and the ghost deadlines `due` never wrap; every method is proved to be the
  step of TimerQueue that carries its name.
*/
module Timers {
  import opened TimerQueue

  const U32: int := 0x1_0000_0000
  const TICK_MAX: nat := 0xffff_ffff

  /** Subtraction of rt_tick_t values. */
  function Sub(a: nat, b: nat): nat { (a - b) % U32 }

  /** The value of rt_tick after `n` increments from zero. */
  function TickAt(n: nat): nat {
    if n == 0 || TickAt(n - 1) == TICK_MAX then 0 else TickAt(n - 1) + 1
  }

  lemma {:induction false} TickAtIsModulo(n: nat)
    ensures TickAt(n) == n % U32
  {
    if n > 0 { TickAtIsModulo(n - 1); }
  }

  /** The three-way test of rt_timer_start, on wrapped ticks, orders deadlines correctly as long as
      they are less than half the tick range apart. */
  lemma SubOrders(a: nat, b: nat)
    requires -HALF <= a - b < HALF
    ensures Sub(TickAt(a), TickAt(b)) == 0 <==> a == b
    ensures 0 < Sub(TickAt(a), TickAt(b)) < HALF <==> a > b
  {
    SubOfWrapped(a, b);
  }

  /** The expiry test of rt_timer_check on wrapped ticks, for deadlines at most one tick late. */
  lemma SubExpires(now: nat, due: nat)
    requires due < now + HALF && now <= due + 1
    ensures Sub(TickAt(now), TickAt(due)) < HALF <==> due <= now
  {
    SubOfWrapped(now, due);
  }

  lemma SubOfWrapped(a: nat, b: nat)
    requires -U32 < a - b < U32
    ensures Sub(TickAt(a), TickAt(b)) == if a >= b then a - b else a - b + U32
  {
    TickAtIsModulo(a);
    TickAtIsModulo(b);
    SubOfModulo(a, b);
  }

  lemma SubOfModulo(a: nat, b: nat)
    requires -U32 < a - b < U32
    ensures Sub(a % U32, b % U32) == if a >= b then a - b else a - b + U32
  {
    var d := a % U32 - b % U32;
    assert -U32 < d < U32;
    assert (a - b - d) % U32 == 0;
  }

  lemma TickOf(tick: nat, now: nat, d: nat)
    requires tick == TickAt(now)
    ensures (tick + d) % U32 == TickAt(now + d)
  {
    TickAtIsModulo(now);
    TickAtIsModulo(now + d);
  }

  // ---------------------------------------------------------------- the rows of the skip list

  /** Row `l` holds the timers of `member[l]` in the order of the bottom row, and they are all in the row below. */
  ghost predicate RowAt(rows: seq<seq<Timer>>, member: seq<set<Timer>>, bottom: seq<Timer>, l: nat)
    requires l < |rows| == |member|
  {
    rows[l] == Keep(bottom, member[l]) && (l + 1 < |rows| ==> member[l] <= member[l + 1])
  }

  /** A skip list: every row is a subsequence of the row below it, and the last one is complete. */
  ghost predicate RowsOk(rows: seq<seq<Timer>>, member: seq<set<Timer>>, bottom: seq<Timer>) {
    && |rows| == |member| > 0
    && rows[|rows| - 1] == bottom
    && forall l {:trigger RowAt(rows, member, bottom, l)} :: 0 <= l < |rows| ==> RowAt(rows, member, bottom, l)
  }

  function MinusRows(rows: seq<seq<Timer>>, t: Timer): (r: seq<seq<Timer>>)
    ensures |r| == |rows| && forall l :: 0 <= l < |rows| ==> r[l] == Minus(rows[l], t)
  {
    if rows == [] then [] else [Minus(rows[0], t)] + MinusRows(rows[1..], t)
  }

  function MemberMinus(member: seq<set<Timer>>, t: Timer): seq<set<Timer>> {
    seq(|member|, l requires 0 <= l < |member| => member[l] - {t})
  }

  function MemberPlus(member: seq<set<Timer>>, lo: nat, t: Timer): seq<set<Timer>> {
    seq(|member|, l requires 0 <= l < |member| => if l >= lo then member[l] + {t} else member[l])
  }

  /** The first `n` timers of `q` are due by `d`. */
  ghost predicate DueUpTo(q: seq<Timer>, due: map<Timer, nat>, n: nat, d: nat) {
    n <= |q| && forall i :: 0 <= i < n ==> Due(due, q[i]) <= d
  }

  lemma MinusRowsOk(rows: seq<seq<Timer>>, member: seq<set<Timer>>, bottom: seq<Timer>, t: Timer)
    requires RowsOk(rows, member, bottom)
    ensures RowsOk(MinusRows(rows, t), MemberMinus(member, t), Minus(bottom, t))
  {
    forall l | 0 <= l < |rows|
      ensures RowAt(MinusRows(rows, t), MemberMinus(member, t), Minus(bottom, t), l)
    {
      assert RowAt(rows, member, bottom, l);
      MinusKeep(bottom, member[l], t);
    }
  }

  lemma InsertRowAt(rows: seq<seq<Timer>>, member: seq<set<Timer>>, bottom: seq<Timer>,
                    rows': seq<seq<Timer>>, due: map<Timer, nat>, t: Timer, lo: nat, l: nat)
    requires l < |rows| == |member| && |rows'| == |rows| && RowAt(rows, member, bottom, l)
    requires Ordered(bottom, due) && t !in bottom && t !in member[l]
    requires rows'[l] == if l >= lo then Insert(rows[l], due, t) else rows[l]
    ensures RowAt(rows', MemberPlus(member, lo, t), Insert(bottom, due, t), l)
  {
    KeepInsert(bottom, due, member[l], t);
  }

  /** The rows from level `lo` down get the new timer at their own place. */
  lemma InsertRowsOk(rows: seq<seq<Timer>>, member: seq<set<Timer>>, bottom: seq<Timer>,
                     rows': seq<seq<Timer>>, due: map<Timer, nat>, t: Timer, lo: nat)
    requires RowsOk(rows, member, bottom) && lo < |rows| && |rows'| == |rows|
    requires Ordered(bottom, due) && t !in bottom && forall l :: 0 <= l < |member| ==> t !in member[l]
    requires forall l :: 0 <= l < |rows| ==> rows'[l] == if l >= lo then Insert(rows[l], due, t) else rows[l]
    ensures RowsOk(rows', MemberPlus(member, lo, t), Insert(bottom, due, t))
  {
    forall l | 0 <= l < |rows|
      ensures RowAt(rows', MemberPlus(member, lo, t), Insert(bottom, due, t), l)
    {
      assert RowAt(rows, member, bottom, l);
      InsertRowAt(rows, member, bottom, rows', due, t, lo, l);
    }
  }

  /** The ticks and deadlines of one queued timer fit the clock. */
  ghost predicate ClockedAt(t: Timer, now: nat, late: nat, due: map<Timer, nat>, timeout: map<Timer, nat>) {
    t in due && t in timeout && timeout[t] == TickAt(due[t]) && now <= due[t] + late && due[t] < now + HALF
  }

  ghost predicate Clocked(q: seq<Timer>, now: nat, late: nat, due: map<Timer, nat>, timeout: map<Timer, nat>) {
    forall t {:trigger ClockedAt(t, now, late, due, timeout)} :: t in q ==> ClockedAt(t, now, late, due, timeout)
  }

  /** Every periodic timer in the queue has a period of at least one tick. */
  ghost predicate Periods(q: seq<Timer>, periodic: set<Timer>, init: map<Timer, nat>) {
    forall t :: t in q && t in periodic ==> 1 <= Due(init, t) < HALF
  }

  /** Ticks as wide apart as the wrapped comparison needs: `timer` is started now, the others are queued. */
  lemma StartNear(q: seq<Timer>, now: nat, late: nat, due: map<Timer, nat>, timeout: map<Timer, nat>, t: Timer, dd: nat)
    requires Clocked(q, now, late, due, timeout) && late <= 1 && now <= dd < now + HALF && t !in q
    ensures Near(q, timeout[t := TickAt(dd)], due[t := dd], t)
    ensures Clocked(q, now, late, due[t := dd], timeout[t := TickAt(dd)])
  {
    forall x | x in q
      ensures ClockedAt(x, now, late, due[t := dd], timeout[t := TickAt(dd)])
      ensures NearAt(x, timeout[t := TickAt(dd)], due[t := dd], t)
    {
      assert ClockedAt(x, now, late, due, timeout);
    }
  }

  /** What starting a timer does to the queue, on the unwrapped clock. */
  lemma StartFacts(q0: seq<Timer>, now: nat, late: nat, due: map<Timer, nat>, timeout: map<Timer, nat>, t: Timer, dd: nat)
    requires Ordered(q0, due) && Clocked(q0, now, late, due, timeout) && late <= 1 && now <= dd < now + HALF
    ensures Ordered(Minus(q0, t), due[t := dd])
    ensures Near(Minus(q0, t), timeout[t := TickAt(dd)], due[t := dd], t)
    ensures Ordered(Insert(Minus(q0, t), due[t := dd], t), due[t := dd])
    ensures Clocked(Insert(Minus(q0, t), due[t := dd], t), now, late, due[t := dd], timeout[t := TickAt(dd)])
    ensures forall x :: x in Insert(Minus(q0, t), due[t := dd], t) <==> x in q0 || x == t
  {
    var q, due', timeout' := Minus(q0, t), due[t := dd], timeout[t := TickAt(dd)];
    MinusSorted(q0, due, t);
    OrderedFrame(q, due, due');
    assert Clocked(q, now, late, due, timeout) by {
      forall x | x in q ensures ClockedAt(x, now, late, due, timeout) { assert x in q0; }
    }
    StartNear(q, now, late, due, timeout, t, dd);
    InsertSorted(q, due', t);
    InsertElems(q, due', t);
    forall x | x in Insert(q, due', t)
      ensures ClockedAt(x, now, late, due', timeout')
    {
      if x != t { assert x in q; }
    }
  }

  /** The queue is in order, on the clock, and its periods are positive. */
  ghost predicate QueueOk(q: seq<Timer>, now: nat, late: nat, due: map<Timer, nat>, timeout: map<Timer, nat>, init: map<Timer, nat>, periodic: set<Timer>) {
    Ordered(q, due) && Clocked(q, now, late, due, timeout) && Periods(q, periodic, init)
  }

  lemma StartKeeps(q0: seq<Timer>, now: nat, late: nat, due: map<Timer, nat>, timeout: map<Timer, nat>, init: map<Timer, nat>, periodic: set<Timer>, t: Timer, dd: nat)
    requires QueueOk(q0, now, late, due, timeout, init, periodic) && late <= 1 && now <= dd < now + HALF
    requires t in periodic ==> 1 <= Due(init, t) < HALF
    ensures QueueOk(Insert(Minus(q0, t), due[t := dd], t), now, late, due[t := dd], timeout[t := TickAt(dd)], init, periodic)
    ensures forall x :: x in Insert(Minus(q0, t), due[t := dd], t) <==> x in q0 || x == t
  {
    StartFacts(q0, now, late, due, timeout, t, dd);
    StartPeriods(q0, Insert(Minus(q0, t), due[t := dd], t), t, periodic, init);
  }

  /** Once everything left is due later than now, no timer is late any more. */
  lemma NotLate(q: seq<Timer>, now: nat, due: map<Timer, nat>, timeout: map<Timer, nat>)
    requires Clocked(q, now, 1, due, timeout) && forall x :: x in q ==> Due(due, x) > now
    ensures Clocked(q, now, 0, due, timeout)
  {
    forall x | x in q
      ensures ClockedAt(x, now, 0, due, timeout)
    {
      assert ClockedAt(x, now, 1, due, timeout);
    }
  }

  ghost predicate Flagged(active: set<Timer>, q: seq<Timer>, t: Timer) { t in active <==> t in q }

  /** The activated flag is set exactly for the timers in the queue. */
  ghost predicate Flags(active: set<Timer>, q: seq<Timer>) {
    forall t {:trigger Flagged(active, q, t)} :: Flagged(active, q, t)
  }

  lemma FlagsStarted(active: set<Timer>, q: seq<Timer>, r: seq<Timer>, t: Timer)
    requires Flags(active, q) && forall x :: x in r <==> x in q || x == t
    ensures Flags(active - {t} + {t}, r)
  {
    forall x
      ensures Flagged(active - {t} + {t}, r, x)
    {
      assert Flagged(active, q, x);
    }
  }

  lemma FlagsStopped(active: set<Timer>, q: seq<Timer>, t: Timer)
    requires Flags(active, q)
    ensures Flags(active - {t}, Minus(q, t))
    ensures t in active <==> t in q
  {
    assert Flagged(active, q, t);
    forall x
      ensures Flagged(active - {t}, Minus(q, t), x)
    {
      assert Flagged(active, q, x);
    }
  }

  lemma QueueTail(q: seq<Timer>, now: nat, late: nat, due: map<Timer, nat>, timeout: map<Timer, nat>, init: map<Timer, nat>, periodic: set<Timer>)
    requires QueueOk(q, now, late, due, timeout, init, periodic) && q != []
    ensures QueueOk(q[1..], now, late, due, timeout, init, periodic)
  {
    TailOrdered(q, due);
    forall x | x in q[1..]
      ensures ClockedAt(x, now, late, due, timeout)
    {
      assert x in q;
    }
  }

  lemma StartPeriods(q: seq<Timer>, r: seq<Timer>, t: Timer, periodic: set<Timer>, init: map<Timer, nat>)
    requires Periods(q, periodic, init) && forall x :: x in r ==> x in q || x == t
    requires t in periodic ==> 1 <= Due(init, t) < HALF
    ensures Periods(r, periodic, init)
  {
  }

  /** The deadline of `x` is close enough to that of `timer` for the wrapped comparison. */
  ghost predicate NearAt(x: Timer, timeout: map<Timer, nat>, due: map<Timer, nat>, timer: Timer) {
    && x in timeout && x in due && timeout[x] == TickAt(due[x])
    && timer in due && -HALF <= due[x] - due[timer] < HALF
  }

  ghost predicate Near(q: seq<Timer>, timeout: map<Timer, nat>, due: map<Timer, nat>, timer: Timer) {
    && timer in timeout && timer in due && timeout[timer] == TickAt(due[timer])
    && forall x {:trigger NearAt(x, timeout, due, timer)} :: x in q ==> NearAt(x, timeout, due, timer)
  }

  lemma RowFacts(rows: seq<seq<Timer>>, member: seq<set<Timer>>, bottom: seq<Timer>, due: map<Timer, nat>, timeout: map<Timer, nat>, timer: Timer, l: nat)
    requires RowsOk(rows, member, bottom) && Ordered(bottom, due) && l < |rows|
    requires Near(bottom, timeout, due, timer)
    ensures Ordered(rows[l], due) && Near(rows[l], timeout, due, timer)
  {
    assert RowAt(rows, member, bottom, l);
    KeepSorted(bottom, due, member[l]);
    forall x | x in rows[l]
      ensures NearAt(x, timeout, due, timer)
    {
      assert x in bottom && NearAt(x, timeout, due, timer);
    }
  }

  /** Position of `x` in `q`: the step from a row node to the node of the same timer in the next row. */
  function IndexOf(q: seq<Timer>, x: Timer): (i: nat)
    requires x in q
    ensures i < |q| && q[i] == x
  {
    if q[0] == x then 0 else 1 + IndexOf(q[1..], x)
  }

  /** The node found in row `l` is a valid starting point in the row below. */
  lemma StepDown(rows: seq<seq<Timer>>, member: seq<set<Timer>>, bottom: seq<Timer>, due: map<Timer, nat>, d: nat, l: nat, pos: nat)
    requires RowsOk(rows, member, bottom) && Ordered(bottom, due)
    requires l + 1 < |rows| && 0 < pos <= |rows[l]| && Due(due, rows[l][pos - 1]) <= d
    ensures rows[l][pos - 1] in rows[l + 1]
    ensures DueUpTo(rows[l + 1], due, IndexOf(rows[l + 1], rows[l][pos - 1]) + 1, d)
  {
    var x := rows[l][pos - 1];
    assert RowAt(rows, member, bottom, l) && RowAt(rows, member, bottom, l + 1);
    assert x in rows[l];
    KeepSorted(bottom, due, member[l + 1]);
    var row := rows[l + 1];
    forall i | 0 <= i < IndexOf(row, x)
      ensures Due(due, row[i]) <= d
    {
      assert InOrder(row, due, i, IndexOf(row, x));
    }
  }

  // ---------------------------------------------------------------- the loop of rt_timer_check

  /** What the loop starts from: an ordered queue with known deadlines and positive periods. */
  ghost predicate CheckStart(s0: Sys) {
    && Ordered(s0.queue, s0.due)
    && (forall x :: x in s0.queue ==> x in s0.due)
    && Periods(s0.queue, s0.periodic, s0.init)
  }

  function Fires(s0: Sys): seq<Timer> { DueBy(s0.queue, s0.due, s0.now) }

  /** The first `k` timers to be called. */
  function FirstFires(s0: Sys, k: nat): seq<Timer>
    requires k <= |Fires(s0)|
  {
    if k == 0 then [] else FirstFires(s0, k - 1) + [Fires(s0)[k - 1]]
  }

  lemma {:induction false} FirstFiresPrefix(s0: Sys, k: nat)
    requires k <= |Fires(s0)|
    ensures FirstFires(s0, k) == Fires(s0)[..k]
    ensures Fires(s0)[..|Fires(s0)|] == Fires(s0)
  {
    if k > 0 { FirstFiresPrefix(s0, k - 1); }
  }

  function Rest(s0: Sys): seq<Timer> { s0.queue[Place(s0.queue, s0.due, s0.now)..] }

  /** The restarted part of the queue after the first `k` due timers were handled. */
  function Restarted(s0: Sys, k: nat): seq<Timer>
    requires k <= |Fires(s0)|
  {
    Restart(Rest(s0), DueAgain(s0, Fires(s0), s0.now), s0.periodic, Fires(s0)[..k])
  }

  /** Queue and deadlines after the first `k` due timers were handled. */
  ghost predicate CheckState(s0: Sys, k: nat, q: seq<Timer>, due: map<Timer, nat>) {
    && k <= |Fires(s0)|
    && q == Fires(s0)[k..] + Restarted(s0, k)
    && due == DueAgain(s0, Fires(s0)[..k], s0.now)
  }

  lemma CheckInit(s0: Sys)
    requires CheckStart(s0)
    ensures CheckState(s0, 0, s0.queue, s0.due)
  {
    assert s0.queue == Fires(s0)[0..] + Rest(s0);
    assert Fires(s0)[..0] == [];
  }

  /** Where a timer of the restarted part comes from; it is due later than now. */
  lemma RestartedLater(s0: Sys, k: nat, x: Timer)
    requires CheckStart(s0) && k <= |Fires(s0)| && x in Restarted(s0, k)
    ensures x in s0.due && Due(DueAgain(s0, Fires(s0), s0.now), x) > s0.now
    ensures Due(DueAgain(s0, Fires(s0)[..k], s0.now), x) == Due(DueAgain(s0, Fires(s0), s0.now), x)
  {
    RestartElems(Rest(s0), DueAgain(s0, Fires(s0), s0.now), s0.periodic, Fires(s0)[..k]);
    SortedParts(s0.queue, s0.due, s0.now);
    PrefixFacts(s0.queue, s0.due, Place(s0.queue, s0.due, s0.now));
    if x in Fires(s0)[..k] { assert x in Fires(s0); }
  }

  /** The head of the queue is due exactly while due timers are left, and is the next of them. */
  lemma CheckHead(s0: Sys, k: nat, q: seq<Timer>, due: map<Timer, nat>)
    requires CheckStart(s0) && CheckState(s0, k, q, due)
    ensures q == [] ==> k == |Fires(s0)|
    ensures q != [] ==> (Due(due, q[0]) <= s0.now <==> k < |Fires(s0)|)
    ensures k < |Fires(s0)| ==> q != [] && q[0] == Fires(s0)[k] && q[0] in s0.queue
  {
    if k < |Fires(s0)| {
      NextFire(s0, k);
    } else if q != [] {
      assert q[0] in Restarted(s0, k);
      RestartedLater(s0, k, q[0]);
    }
  }

  lemma NextFire(s0: Sys, k: nat)
    requires CheckStart(s0) && k < |Fires(s0)|
    ensures var t := Fires(s0)[k]; t in s0.queue && t !in Fires(s0)[..k] && s0.due[t] <= s0.now
    ensures forall x :: x in Fires(s0)[k + 1..] ==> x in s0.queue && x != Fires(s0)[k] && x !in Fires(s0)[..k] && s0.due[x] <= s0.now
  {
    SortedParts(s0.queue, s0.due, s0.now);
    PrefixFacts(s0.queue, s0.due, Place(s0.queue, s0.due, s0.now));
    assert Fires(s0)[k] in Fires(s0);
    assert forall x :: x in Fires(s0)[k + 1..] ==> x in Fires(s0);
  }

  /** The deadlines after `t` was called at `now`. */
  function Redue(due: map<Timer, nat>, init: map<Timer, nat>, periodic: set<Timer>, now: nat, t: Timer): map<Timer, nat> {
    if t in periodic then due[t := now + Due(init, t)] else due
  }

  /** The queue after its head `t` was called. */
  function Requeue(q: seq<Timer>, due: map<Timer, nat>, periodic: set<Timer>, t: Timer): seq<Timer>
    requires q != []
  {
    if t in periodic then Insert(q[1..], due, t) else q[1..]
  }

  /** Handling the next due timer: it leaves the front, and comes back behind if it is periodic. */
  lemma CheckFire(s0: Sys, k: nat, t: Timer, q: seq<Timer>, due: map<Timer, nat>, q': seq<Timer>, due': map<Timer, nat>)
    requires CheckStart(s0) && CheckState(s0, k, q, due) && k < |Fires(s0)| && q != [] && t == Fires(s0)[k]
    requires due' == Redue(due, s0.init, s0.periodic, s0.now, t) && q' == Requeue(q, due', s0.periodic, t)
    ensures CheckState(s0, k + 1, q', due')
  {
    DueAgainNext(s0, k);
    CheckQueue(s0, k, q, q', due');
  }

  lemma CheckQueue(s0: Sys, k: nat, q: seq<Timer>, q': seq<Timer>, due': map<Timer, nat>)
    requires CheckStart(s0) && k < |Fires(s0)| && q == Fires(s0)[k..] + Restarted(s0, k)
    requires due' == DueAgain(s0, Fires(s0)[..k + 1], s0.now)
    requires q' == if Fires(s0)[k] in s0.periodic then Insert(q[1..], due', Fires(s0)[k]) else q[1..]
    ensures q' == Fires(s0)[k + 1..] + Restarted(s0, k + 1)
  {
    TailOfSum(Fires(s0), k, Restarted(s0, k));
    RestartedNext(s0, k);
    if Fires(s0)[k] in s0.periodic {
      CheckReinsert(s0, k, due');
    }
  }

  lemma TailOfSum(ps: seq<Timer>, k: nat, r: seq<Timer>)
    requires k < |ps|
    ensures (ps[k..] + r)[1..] == ps[k + 1..] + r
  {
  }

  lemma DueAgainNext(s0: Sys, k: nat)
    requires CheckStart(s0) && k < |Fires(s0)|
    ensures DueAgain(s0, Fires(s0)[..k + 1], s0.now)
        == Redue(DueAgain(s0, Fires(s0)[..k], s0.now), s0.init, s0.periodic, s0.now, Fires(s0)[k])
  {
    NextFire(s0, k);
    var ps := Fires(s0);
    assert ps[..k + 1] == ps[..k] + [ps[k]];
    AppendDueAgain(s0, ps[..k], ps[k]);
  }

  lemma AppendDueAgain(s0: Sys, ts: seq<Timer>, t: Timer)
    requires t in s0.due && t !in ts
    ensures DueAgain(s0, ts + [t], s0.now) == Redue(DueAgain(s0, ts, s0.now), s0.init, s0.periodic, s0.now, t)
  {
  }

  lemma RestartedNext(s0: Sys, k: nat)
    requires k < |Fires(s0)|
    ensures var t, due := Fires(s0)[k], DueAgain(s0, Fires(s0), s0.now);
      Restarted(s0, k + 1) == if t in s0.periodic then Insert(Restarted(s0, k), due, t) else Restarted(s0, k)
  {
    assert Fires(s0)[..k + 1][..k] == Fires(s0)[..k];
  }

  lemma CheckReinsert(s0: Sys, k: nat, due': map<Timer, nat>)
    requires CheckStart(s0) && k < |Fires(s0)| && Fires(s0)[k] in s0.periodic
    requires due' == DueAgain(s0, Fires(s0)[..k + 1], s0.now)
    ensures var t, ps := Fires(s0)[k], Fires(s0);
      Insert(ps[k + 1..] + Restarted(s0, k), due', t) == ps[k + 1..] + Insert(Restarted(s0, k), DueAgain(s0, ps, s0.now), t)
  {
    var t, ps, r := Fires(s0)[k], Fires(s0), Restarted(s0, k);
    NextFire(s0, k);
    assert ps[..k + 1] == ps[..k] + [t];
    var later := ps[k + 1..];
    assert forall i :: 0 <= i < |later| ==> later[i] in later;
    InsertAfterPrefix(later, r, due', t);
    forall x | x in r || x == t
      ensures Due(due', x) == Due(DueAgain(s0, ps, s0.now), x)
    {
      if x in r && x != t { RestartedLater(s0, k, x); } else { assert t in ps; }
    }
    InsertFrame(r, due', DueAgain(s0, ps, s0.now), t);
  }

  /** When all due timers are handled, everything left in the queue is due later. */
  lemma CheckDone(s0: Sys, q: seq<Timer>, due: map<Timer, nat>)
    requires CheckStart(s0) && CheckState(s0, |Fires(s0)|, q, due)
    ensures forall x :: x in q ==> Due(due, x) > s0.now
    ensures q == Restart(Rest(s0), due, s0.periodic, Fires(s0)) && due == DueAgain(s0, Fires(s0), s0.now)
  {
    assert Fires(s0)[..|Fires(s0)|] == Fires(s0);
    forall x | x in q
      ensures Due(due, x) > s0.now
    {
      RestartedLater(s0, |Fires(s0)|, x);
    }
  }

  lemma StartAgrees(s: Sys, t: Timer, q: seq<Timer>, due: map<Timer, nat>)
    requires t in s.init && due == s.due[t := s.now + s.init[t]] && q == Insert(Minus(s.queue, t), due, t)
    ensures Step(s, Start(t)) == s.(queue := q, due := due)
  {
  }

  lemma TickAgrees(s: Sys, s1: Sys, fired: seq<Timer>, due: map<Timer, nat>)
    requires s1 == s.(now := s.now + 1) && fired == Fires(s1) && due == DueAgain(s1, fired, s1.now)
    ensures fired == FiredBy(s, Tick)
    ensures Step(s, Tick) == s1.(queue := Restart(Rest(s1), due, s1.periodic, fired), due := due)
  {
    assert DueAgain(s, fired, s.now + 1) == due;
  }

  class TimerSystem {
    const levels: nat                 // RT_TIMER_SKIP_LIST_LEVEL
    const mask: nat                   // RT_TIMER_SKIP_LIST_MASK
    var tick: nat                     // rt_tick
    var rows: seq<seq<Timer>>         // rt_timer_list; the last row is complete
    var timeout: map<Timer, nat>      // timeout_tick
    var init: map<Timer, nat>         // init_tick
    var active: set<Timer>            // RT_TIMER_FLAG_ACTIVATED
    var periodic: set<Timer>          // RT_TIMER_FLAG_PERIODIC
    var randomNr: nat
    ghost var now: nat
    ghost var due: map<Timer, nat>
    ghost var member: seq<set<Timer>>

    ghost function Queue(): seq<Timer>
      reads this`rows
    {
      if |rows| == levels > 0 then rows[levels - 1] else []
    }

    ghost function Abs(): Sys
      reads this
    {
      Sys(now, Queue(), due, init, periodic)
    }

    /** `late` is 1 while a check is under way: a timer started with zero ticks may then be one tick late. */
    ghost predicate Core(late: nat)
      reads this
    {
      && Shape()
      && QueueOk(Queue(), now, late, due, timeout, init, periodic)
      && Flags(active, Queue())
    }

    ghost predicate Shape()
      reads this
    {
      && levels > 0 && (mask == 1 || mask == 3)
      && tick == TickAt(now)
      && |rows| == levels && RowsOk(rows, member, Queue())
    }

    ghost predicate Valid()
      reads this
    {
      Core(0)
    }

    lemma ValidAbs()
      requires Valid()
      ensures TimerQueue.Valid(Abs())
    {
      assert forall t :: t in Queue() ==> ClockedAt(t, now, 0, due, timeout);
      assert forall t :: t in Queue() && t in periodic ==> 1 <= Due(init, t) < HALF;
    }

    constructor (levels: nat, mask: nat)
      requires levels > 0 && (mask == 1 || mask == 3)
      ensures Valid() && Abs() == Sys(0, [], map[], map[], {})
    {
      this.levels := levels;
      this.mask := mask;
      tick, rows := 0, seq(levels, _ => []);
      timeout, init, active, periodic, randomNr := map[], map[], {}, {}, 0;
      now, due, member := 0, map[], seq(levels, _ => {});
      new;
      forall l | 0 <= l < levels
        ensures RowAt(rows, member, Queue(), l)
      {
      }
      assert forall t :: Flagged(active, Queue(), t);
    }

    /** The loop of _rt_timer_remove. */
    method UnlinkRows(t: Timer)
      requires |rows| == levels
      modifies this`rows
      ensures rows == MinusRows(old(rows), t)
    {
      ghost var rows0 := rows;
      for i := 0 to levels
        invariant |rows| == levels
        invariant forall l :: 0 <= l < levels ==> rows[l] == if l < i then Minus(rows0[l], t) else rows0[l]
      {
        rows := rows[i := Minus(rows[i], t)];
      }
    }

    /** _rt_timer_remove. */
    method RemoveRows(t: Timer)
      requires |rows| == levels && RowsOk(rows, member, Queue())
      modifies this`rows, this`member
      ensures |rows| == levels && RowsOk(rows, member, Queue())
      ensures Queue() == Minus(old(Queue()), t)
      ensures forall l :: 0 <= l < |member| ==> t !in member[l]
    {
      MinusRowsOk(rows, member, Queue(), t);
      UnlinkRows(t);
      member := MemberMinus(member, t);
    }

    /** Walk row `l` from node `start` to the last node whose timer is due no later than `timer`;
        nodes are numbered from the list head, which is 0. */
    method WalkRow(l: nat, start: nat, timer: Timer, ghost due': map<Timer, nat>) returns (pos: nat)
      requires l < |rows| && Ordered(rows[l], due') && Near(rows[l], timeout, due', timer)
      requires DueUpTo(rows[l], due', start, due'[timer])
      ensures pos == Place(rows[l], due', due'[timer])
    {
      pos := start;
      while pos != |rows[l]|
        invariant start <= pos <= |rows[l]|
        invariant forall i :: 0 <= i < pos ==> Due(due', rows[l][i]) <= due'[timer]
        decreases |rows[l]| - pos
      {
        var t := rows[l][pos];
        assert t in rows[l] && NearAt(t, timeout, due', timer);
        SubOrders(due'[t], due'[timer]);
        if Sub(timeout[t], timeout[timer]) == 0 {
          pos := pos + 1;
          continue;
        } else if Sub(timeout[t], timeout[timer]) < HALF {
          break;
        }
        pos := pos + 1;
      }
      PlaceUnique(rows[l], due', due'[timer], pos);
    }

    /** Step from node `pos` of row `l` to the node of the same timer in the row below. */
    method NextStart(l: nat, pos: nat, ghost due': map<Timer, nat>, ghost d: nat) returns (start: nat)
      requires l + 1 < levels == |rows| && RowsOk(rows, member, Queue()) && Ordered(Queue(), due')
      requires pos <= |rows[l]| && (pos > 0 ==> Due(due', rows[l][pos - 1]) <= d)
      ensures DueUpTo(rows[l + 1], due', start, d)
    {
      if pos == 0 {
        return 0;
      }
      StepDown(rows, member, Queue(), due', d, l, pos);
      start := IndexOf(rows[l + 1], rows[l][pos - 1]) + 1;
    }

    /** The descent of rt_timer_start: the insertion point of `timer` in every row. */
    method FindHeads(timer: Timer, ghost due': map<Timer, nat>) returns (heads: seq<nat>)
      requires levels > 0 && |rows| == levels && RowsOk(rows, member, Queue())
      requires Ordered(Queue(), due') && Near(Queue(), timeout, due', timer)
      ensures |heads| == levels
      ensures forall l :: 0 <= l < levels ==> heads[l] == Place(rows[l], due', due'[timer])
    {
      heads := [];
      var start: nat := 0;
      for l := 0 to levels
        invariant |heads| == l
        invariant forall k :: 0 <= k < l ==> heads[k] == Place(rows[k], due', due'[timer])
        invariant l < levels ==> DueUpTo(rows[l], due', start, due'[timer])
      {
        RowFacts(rows, member, Queue(), due', timeout, timer, l);
        var pos := WalkRow(l, start, timer, due');
        heads := heads + [pos];
        if l != levels - 1 {
          start := NextStart(l, pos, due', due'[timer]);
        }
      }
    }

    /** Link the timer in behind its head in the bottom row, and in upper rows while the bits of
        the insert counter allow it. */
    method LinkRows(t: Timer, heads: seq<nat>, ghost due': map<Timer, nat>) returns (ghost lo: nat)
      requires levels > 0 && |rows| == levels && |heads| == levels && (mask == 1 || mask == 3)
      requires forall l :: 0 <= l < levels ==> heads[l] == Place(rows[l], due', Due(due', t))
      modifies this`rows, this`randomNr
      ensures |rows| == levels && lo < levels
      ensures forall l :: 0 <= l < levels ==> rows[l] == if l >= lo then Insert(old(rows)[l], due', t) else old(rows)[l]
    {
      ghost var rows0 := rows;
      randomNr := (randomNr + 1) % U32;
      var tst := randomNr;
      var bottom := levels - 1;
      rows := rows[bottom := rows[bottom][..heads[bottom]] + [t] + rows[bottom][heads[bottom]..]];
      lo := bottom;
      var lvl := 2;
      while lvl <= levels
        invariant 2 <= lvl <= levels + 1 && lo == levels + 1 - lvl
        invariant |rows| == levels
        invariant forall l :: 0 <= l < levels ==> rows[l] == if l >= lo then Insert(rows0[l], due', t) else rows0[l]
      {
        if tst % (mask + 1) != 0 { break; }
        var l := levels - lvl;
        rows := rows[l := rows[l][..heads[l]] + [t] + rows[l][heads[l]..]];
        lo := l;
        tst := tst / (mask + 1);
        lvl := lvl + 1;
      }
    }

    /** rt_timer_start. */
    method StartTimer(t: Timer, ghost late: nat)
      requires Core(late) && late <= 1 && t in init
      requires init[t] < HALF && (t in periodic ==> 1 <= init[t])
      modifies this
      ensures Core(late)
      ensures tick == old(tick) && now == old(now) && init == old(init) && periodic == old(periodic)
      ensures due == old(due)[t := now + init[t]]
      ensures Queue() == Insert(Minus(old(Queue()), t), due, t)
    {
      ghost var dd := now + init[t];
      StartReady(t, late, dd);
      active := active - {t};
      Relink(t, late, dd);
      active := active + {t};
    }

    /** The flags will fit the queue. */
    lemma StartReady(t: Timer, late: nat, dd: nat)
      requires Core(late) && late <= 1 && now <= dd < now + HALF
      requires t in periodic ==> 1 <= Due(init, t) < HALF
      ensures Flags(active - {t} + {t}, Insert(Minus(Queue(), t), due[t := dd], t))
    {
      StartKeeps(Queue(), now, late, due, timeout, init, periodic, t, dd);
      FlagsStarted(active, Queue(), Insert(Minus(Queue(), t), due[t := dd], t), t);
    }

    /** rt_tick_get() + ticks. */
    method Deadline(ticks: nat) returns (deadline: nat)
      requires tick == TickAt(now)
      ensures deadline == TickAt(now + ticks)
    {
      TickOf(tick, now, ticks);
      deadline := (tick + ticks) % U32;
    }

    /** Unlink the timer, set its deadline and link it in again. */
    method Relink(t: Timer, ghost late: nat, ghost dd: nat)
      requires Shape() && QueueOk(Queue(), now, late, due, timeout, init, periodic) && late <= 1
      requires t in init && init[t] < HALF && dd == now + init[t] && (t in periodic ==> 1 <= init[t])
      modifies this`rows, this`member, this`timeout, this`randomNr, this`due
      ensures Shape() && QueueOk(Queue(), now, late, due, timeout, init, periodic)
      ensures due == old(due)[t := dd] && Queue() == Insert(Minus(old(Queue()), t), due, t)
    {
      StartFacts(Queue(), now, late, due, timeout, t, dd);
      StartKeeps(Queue(), now, late, due, timeout, init, periodic, t, dd);
      ghost var due', q := due[t := dd], Minus(Queue(), t);
      RemoveRows(t);
      var deadline := Deadline(init[t]);
      timeout := timeout[t := deadline];
      assert Queue() == q;
      LinkTimer(t, due');
      due := due';
    }

    /** Find the insertion points and link the timer in. */
    method LinkTimer(t: Timer, ghost due': map<Timer, nat>)
      requires levels > 0 && (mask == 1 || mask == 3) && |rows| == levels && RowsOk(rows, member, Queue())
      requires Ordered(Queue(), due') && Near(Queue(), timeout, due', t)
      requires t !in Queue() && forall l :: 0 <= l < |member| ==> t !in member[l]
      modifies this`rows, this`member, this`randomNr
      ensures |rows| == levels && RowsOk(rows, member, Queue())
      ensures Queue() == Insert(old(Queue()), due', t)
    {
      var heads := FindHeads(t, due');
      ghost var q, rows1 := Queue(), rows;
      ghost var lo := LinkRows(t, heads, due');
      InsertRowsOk(rows1, member, q, rows, due', t, lo);
      member := MemberPlus(member, lo, t);
    }

    // ---------------------------------------------------------------- the API, step by step

    /** _rt_timer_init of a timer that is not running: a one-shot or periodic timer of `ticks` ticks. */
    method Init(t: Timer, ticks: nat, isPeriodic: bool)
      requires Valid() && t !in Queue()
      modifies this
      ensures Valid()
      ensures t in init && init[t] == ticks
      ensures Abs() == old(Abs()).(init := old(init)[t := ticks], periodic := if isPeriodic then old(periodic) + {t} else old(periodic) - {t})
    {
      FlagsStopped(active, Queue(), t);
      MinusAbsent(Queue(), t);
      periodic := if isPeriodic then periodic + {t} else periodic - {t};
      active := active - {t};
      timeout := timeout[t := 0];
      init := init[t := ticks];
      forall x | x in Queue()
        ensures ClockedAt(x, now, 0, due, timeout)
      {
        assert ClockedAt(x, now, 0, due, old(timeout));
      }
    }

    method StartNow(t: Timer)
      requires Valid() && t in init && Allowed(Abs(), Start(t))
      modifies this
      ensures Valid()
      ensures Abs() == Step(old(Abs()), Start(t))
    {
      ghost var s := Abs();
      StartTimer(t, 0);
      StartAgrees(s, t, Queue(), due);
    }

    /** rt_timer_stop: false is -RT_ERROR. */
    method StopTimer(t: Timer) returns (ok: bool)
      requires Valid()
      modifies this
      ensures Valid()
      ensures ok <==> t in old(Queue())
      ensures t !in Queue() && t !in active
      ensures Abs() == Step(old(Abs()), Stop(t))
    {
      FlagsStopped(active, Queue(), t);
      if t !in active {
        MinusAbsent(Queue(), t);
        return false;
      }
      ghost var q0 := Queue();
      RemoveRows(t);
      active := active - {t};
      MinusSorted(q0, due, t);
      forall x | x in Queue()
        ensures ClockedAt(x, now, 0, due, timeout)
      {
        assert x in q0 && ClockedAt(x, now, 0, due, timeout);
      }
      ok := true;
    }

    /** One pass of the loop of rt_timer_check: the due timer at the head is unlinked, its callback
        runs, and it is started again if it is periodic. */
    method FireHead(t: Timer)
      requires Core(1) && Queue() != [] && t == Queue()[0]
      modifies this
      ensures Core(1)
      ensures tick == old(tick) && now == old(now) && init == old(init) && periodic == old(periodic)
      ensures due == Redue(old(due), init, periodic, now, t)
      ensures Queue() == Requeue(old(Queue()), due, periodic, t)
    {
      ghost var q := Queue();
      TailOrdered(q, due);
      MinusAbsent(q[1..], t);
      assert t in q;
      FlagsStopped(active, q, t);
      QueueTail(q, now, 1, due, timeout, init, periodic);
      RemoveRows(t);
      // the callback does not touch the timer list
      if t in periodic && t in active {
        active := active - {t};
        StartTimer(t, 1);
      } else {
        active := active - {t};
      }
    }

    /** rt_timer_check: `fired` are the timers whose callbacks ran, in order. */
    method Check() returns (fired: seq<Timer>)
      requires Core(1)
      modifies this
      ensures Core(0)
      ensures tick == old(tick) && now == old(now) && init == old(init) && periodic == old(periodic)
      ensures fired == Fires(old(Abs()))
      ensures due == DueAgain(old(Abs()), fired, now)
      ensures Queue() == Restart(Rest(old(Abs())), due, periodic, fired)
    {
      ghost var s0 := Abs();
      assert CheckStart(s0) by { assert forall x :: x in s0.queue ==> ClockedAt(x, now, 1, due, timeout); }
      CheckInit(s0);
      fired := CheckLoop(s0);
      CheckDone(s0, Queue(), due);
      NotLate(Queue(), now, due, timeout);
    }

    /** The check that started in state `s0` is under way and has handled `k` timers. */
    ghost predicate Checking(s0: Sys, k: nat)
      reads this
    {
      match s0
      case Sys(now0, _, _, init0, periodic0) =>
        && Core(1) && CheckStart(s0) && CheckState(s0, k, Queue(), due)
        && now == now0 && init == init0 && periodic == periodic0
    }

    method CheckLoop(ghost s0: Sys) returns (fired: seq<Timer>)
      requires Checking(s0, 0)
      modifies this
      ensures Checking(s0, |Fires(s0)|) && tick == old(tick)
      ensures fired == Fires(s0)
    {
      fired := [];
      ghost var n, k := |Fires(s0)|, 0;
      var more := true;
      while more
        invariant Checking(s0, k) && tick == old(tick)
        invariant k <= n && fired == FirstFires(s0, k)
        invariant !more ==> k == n
        decreases n - k, more
      {
        var t;
        more, t := CheckOnce(s0, k);
        if more {
          fired := fired + [t];
          k := k + 1;
        }
      }
      FirstFiresPrefix(s0, n);
    }

    /** One pass of the loop; `more` is false when the list is empty or its head is not due. */
    method CheckOnce(ghost s0: Sys, ghost k: nat) returns (more: bool, t: Timer)
      requires Checking(s0, k)
      modifies this
      ensures more <==> k < |Fires(s0)|
      ensures tick == old(tick) && Checking(s0, if more then k + 1 else k)
      ensures more ==> t == Fires(s0)[k]
    {
      if rows[levels - 1] == [] {
        CheckHead(s0, k, Queue(), due);
        return false, 0;
      }
      t := rows[levels - 1][0];
      HeadDue(s0, k);
      more := Sub(tick, timeout[t]) < HALF;
      if more {
        HandleHead(t, s0, k);
      }
    }

    /** The expiry test on the head of the list tells whether due timers are left. */
    lemma HeadDue(s0: Sys, k: nat)
      requires Checking(s0, k) && Queue() != []
      ensures Queue()[0] in timeout
      ensures Sub(tick, timeout[Queue()[0]]) < HALF <==> k < |Fires(s0)|
      ensures k < |Fires(s0)| ==> Queue()[0] == Fires(s0)[k]
    {
      var t := Queue()[0];
      assert t in Queue() && ClockedAt(t, now, 1, due, timeout);
      CheckHead(s0, k, Queue(), due);
      SubExpires(now, due[t]);
    }

    /** One pass of the loop, on the record of the whole check. */
    method HandleHead(t: Timer, ghost s0: Sys, ghost k: nat)
      requires Checking(s0, k) && Queue() != [] && t == Queue()[0]
      requires k < |Fires(s0)| && t == Fires(s0)[k]
      modifies this
      ensures Checking(s0, k + 1) && tick == old(tick)
    {
      ghost var q, due0 := Queue(), due;
      FireHead(t);
      CheckFire(s0, k, t, q, due0, Queue(), due);
    }

    /** ++rt_tick. */
    method Advance()
      requires Valid()
      modifies this`tick, this`now
      ensures Core(1) && now == old(now) + 1
    {
      TickOf(tick, now, 1);
      tick := (tick + 1) % U32;
      now := now + 1;
      forall x | x in Queue()
        ensures ClockedAt(x, now, 1, due, timeout)
      {
        assert ClockedAt(x, now - 1, 0, due, timeout);
      }
    }

    /** The timer part of rt_tick_increase. */
    method Tick() returns (fired: seq<Timer>)
      requires Valid()
      modifies this
      ensures Valid()
      ensures fired == FiredBy(old(Abs()), Event.Tick)
      ensures Abs() == Step(old(Abs()), Event.Tick)
      ensures forall t :: t in fired <==> t in old(Queue()) && Due(old(due), t) <= now
      ensures forall t :: t in Queue() ==> Due(due, t) > now
    {
      ghost var s := Abs();
      ValidAbs();
      FiredExactly(s);
      TickKeepsValid(s);
      Advance();
      ghost var s1 := s.(now := s.now + 1);
      assert Abs() == s1;
      fired := Check();
      TickAgrees(s, s1, fired, due);
    }

    /** rt_timer_control(RT_TIMER_CTRL_SET_PERIODIC). */
    method MakePeriodic(t: Timer)
      requires Valid() && Allowed(Abs(), SetPeriodic(t))
      modifies this`periodic
      ensures Valid() && Abs() == Step(old(Abs()), SetPeriodic(t))
    {
      periodic := periodic + {t};
    }

    /** rt_timer_control(RT_TIMER_CTRL_SET_ONESHOT). */
    method MakeOneShot(t: Timer)
      requires Valid()
      modifies this`periodic
      ensures Valid() && Abs() == Step(old(Abs()), SetOneShot(t))
    {
      periodic := periodic - {t};
    }

    /** rt_timer_control(RT_TIMER_CTRL_SET_TIME). */
    method SetTicks(t: Timer, ticks: nat)
      requires Valid() && Allowed(Abs(), SetTime(t, ticks))
      modifies this
      ensures Valid()
      ensures Abs() == Step(old(Abs()), SetTime(t, ticks))
    {
      init := init[t := ticks];
    }
  }
}

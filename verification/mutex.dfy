/**
  Mutexes (ipc.c): recursive taking, hand-over to the next waiter, and priority inheritance, for one
  mutex.  Each step runs with interrupts disabled; any thread may take steps in between.
*/
module Mutex {
  import opened IpcList
  import opened Lists

  datatype Owner = None | Some(tid: Tid)

  datatype Outcome = Took | Blocked | TimedOut | NotOwner | Released

  /** `prio` is current_priority of every thread; `depth` counts, for every thread, the takes that
      returned RT_EOK to it minus its releases. */
  datatype Mx = Mx(flag: Flag, value: nat, owner: Owner, origPrio: nat, hold: nat, waiters: seq<Tid>,
                   prio: map<Tid, nat>, depth: map<Tid, nat>)

  function Depth(m: Mx, t: Tid): nat { if t in m.depth then m.depth[t] else 0 }

  function P(m: Mx, t: Tid): nat { PrioOf(m.prio, t) }

  /** `hold` is an 8-bit counter. */
  function Inc8(h: nat): nat { if h == 255 then 0 else h + 1 }

  function Dec8(h: nat): nat { if h == 0 then 255 else h - 1 }

  // ---------------------------------------------------------------- the steps

  /** rt_mutex_init. */
  function Init(flag: Flag, prio: map<Tid, nat>): Mx { Mx(flag, 1, None, 0xFF, 0, [], prio, map[]) }

  function Boost(m: Mx, t: Tid): map<Tid, nat>
    requires m.owner.Some?
  {
    if P(m, t) < P(m, m.owner.tid) then m.prio[m.owner.tid := P(m, t)] else m.prio
  }

  /** rt_mutex_take up to the point where the thread returns or is suspended. */
  function TakeRegion(m: Mx, t: Tid, mayWait: bool): (Mx, Outcome)
    requires m.value > 0 || m.owner.Some?
  {
    if m.owner == Some(t) then
      (m.(hold := Inc8(m.hold), depth := m.depth[t := Depth(m, t) + 1]), Took)
    else if m.value > 0 then
      (m.(value := m.value - 1, owner := Some(t), origPrio := P(m, t), hold := Inc8(m.hold),
          depth := m.depth[t := Depth(m, t) + 1]), Took)
    else if !mayWait then
      (m, TimedOut)
    else
      (m.(prio := Boost(m, t), waiters := Suspend(m.waiters, t, Boost(m, t), m.flag)), Blocked)
  }

  function Restored(m: Mx, t: Tid): map<Tid, nat> {
    if P(m, t) != m.origPrio then m.prio[t := m.origPrio] else m.prio
  }

  function ReleaseRegion(m: Mx, t: Tid): (Mx, Outcome) {
    if m.owner != Some(t) then (m, NotOwner)
    else
      var m1 := m.(hold := Dec8(m.hold), depth := m.depth[t := if Depth(m, t) == 0 then 0 else Depth(m, t) - 1]);
      (if m1.hold == 0 then PassOn(m1.(prio := Restored(m, t))) else m1, Released)
  }

  /** Nobody holds the mutex any more: hand it to the first waiter, or leave it free. */
  function PassOn(m: Mx): Mx {
    if m.waiters == [] then m.(value := m.value + 1, owner := None, origPrio := 0xFF)
    else
      var next := m.waiters[0];
      m.(owner := Some(next), origPrio := P(m, next), hold := Inc8(m.hold), waiters := m.waiters[1..],
         depth := m.depth[next := Depth(m, next) + 1])
  }

  datatype Event =
    | Take(t: Tid, mayWait: bool)
    | Release(t: Tid)
    | Timeout(t: Tid)              // rt_thread_timeout of a waiter
    | SetPrio(t: Tid, p: nat)      // rt_thread_control, or a boost through another mutex

  predicate Enabled(m: Mx, e: Event) {
    match e
    case Take(t, _) => t !in m.waiters && (m.value > 0 || m.owner.Some?)
    case Release(t) => t !in m.waiters
    case Timeout(t) => t in m.waiters
    case SetPrio(_, _) => true
  }

  /** The 256th nested take: nobody checks the counter. */
  predicate Wraps(m: Mx, e: Event) { e.Take? && m.owner == Some(e.t) && m.hold == 255 }

  function Do(m: Mx, e: Event): (Mx, Outcome)
    requires Enabled(m, e)
  {
    match e
    case Take(t, mayWait) => TakeRegion(m, t, mayWait)
    case Release(t) => ReleaseRegion(m, t)
    case Timeout(t) => (m.(waiters := Unlink(m.waiters, t)), TimedOut)
    case SetPrio(t, p) => (m.(prio := m.prio[t := p]), Released)
  }

  // ---------------------------------------------------------------- the invariants

  /** The mutex is free, not owned and not held together; only an owned mutex has waiters. */
  ghost predicate Agree(m: Mx) {
    && m.value <= 1 && m.hold <= 255
    && (m.value == 1 <==> m.owner == None)
    && (m.owner == None <==> m.hold == 0)
    && (m.owner == None ==> m.waiters == [])
  }

  /** A thread is inside exactly when it is the owner, as deep as `hold` says. */
  ghost predicate Exclusive(m: Mx) {
    forall t: Tid :: Depth(m, t) == if m.owner == Some(t) then m.hold else 0
  }

  ghost predicate Listed(m: Mx) {
    && NoDup(m.waiters)
    && (m.owner.Some? ==> m.owner.tid !in m.waiters)
  }

  ghost predicate Inv(m: Mx) { Agree(m) && Exclusive(m) && Listed(m) }

  /** The wait list is ordered by priority. */
  ghost predicate Ranked(m: Mx) { Urgency(m.waiters, m.prio) }

  /** Priority inheritance: the owner is at least as urgent as every thread it keeps waiting. */
  ghost predicate Inherits(m: Mx) {
    m.owner.Some? ==> forall w :: w in m.waiters ==> P(m, m.owner.tid) <= P(m, w)
  }

  /** The owner runs at its own priority or at that of a waiter. */
  ghost predicate BoostDue(m: Mx) {
    m.owner.Some? ==> P(m, m.owner.tid) == m.origPrio || exists w :: w in m.waiters && P(m, w) == P(m, m.owner.tid)
  }

  lemma UrgencyFrame(list: seq<Tid>, prio: map<Tid, nat>, t: Tid, p: nat)
    requires t !in list
    ensures Urgency(list, prio[t := p]) <==> Urgency(list, prio)
  {
    forall i | 0 <= i < |list|
      ensures PrioOf(prio[t := p], list[i]) == PrioOf(prio, list[i])
    {
      assert list[i] in list;
    }
  }

  lemma ExclusiveAfter(m: Mx, m': Mx)
    requires Exclusive(m) && m'.depth == m.depth && m'.owner == m.owner && m'.hold == m.hold
    ensures Exclusive(m')
  {
    forall t: Tid
      ensures Depth(m', t) == if m'.owner == Some(t) then m'.hold else 0
    {
      assert Depth(m', t) == Depth(m, t);
    }
  }

  lemma TakeKeeps(m: Mx, t: Tid, mayWait: bool)
    requires Inv(m) && Enabled(m, Take(t, mayWait)) && !Wraps(m, Take(t, mayWait))
    ensures Inv(TakeRegion(m, t, mayWait).0)
  {
    var m' := TakeRegion(m, t, mayWait).0;
    if m.owner == Some(t) || m.value > 0 {
      forall u: Tid
        ensures Depth(m', u) == if m'.owner == Some(u) then m'.hold else 0
      {
        assert Depth(m, u) == if m.owner == Some(u) then m.hold else 0;
      }
    } else if mayWait {
      ExclusiveAfter(m, m');
      SuspendElems(m.waiters, t, m'.prio, m.flag);
      SuspendNoDup(m.waiters, t, m'.prio, m.flag);
    }
  }

  lemma TakeRanks(m: Mx, t: Tid, mayWait: bool)
    requires Inv(m) && m.flag.Prio? && Ranked(m) && Enabled(m, Take(t, mayWait))
    ensures Ranked(TakeRegion(m, t, mayWait).0)
  {
    if m.owner.Some? && m.owner != Some(t) && mayWait {
      UrgencyFrame(m.waiters, m.prio, m.owner.tid, P(m, t));
      SuspendByUrgency(m.waiters, t, Boost(m, t));
    }
  }

  lemma TakeInherits(m: Mx, t: Tid, mayWait: bool)
    requires Inv(m) && Enabled(m, Take(t, mayWait)) && Inherits(m)
    ensures Inherits(TakeRegion(m, t, mayWait).0)
    ensures BoostDue(m) ==> BoostDue(TakeRegion(m, t, mayWait).0)
  {
    var m' := TakeRegion(m, t, mayWait).0;
    if m.owner.Some? && m.owner != Some(t) && mayWait {
      SuspendElems(m.waiters, t, m'.prio, m.flag);
      assert t in m'.waiters && P(m', t) == P(m, t);
      assert forall w :: w in m.waiters ==> w in m'.waiters && P(m', w) == P(m, w);
    }
  }

  /** The state after the owner gave up its last hold, before the mutex is passed on. */
  ghost predicate Unheld(m: Mx, t: Tid) {
    && m.value == 0 && m.owner == Some(t) && m.hold == 0 && Listed(m)
    && forall u: Tid :: Depth(m, u) == 0
  }

  lemma PassOnKeeps(m: Mx, t: Tid)
    requires Unheld(m, t)
    ensures Inv(PassOn(m))
  {
    var m' := PassOn(m);
    forall u: Tid
      ensures Depth(m', u) == if m'.owner == Some(u) then m'.hold else 0
    {
      assert Depth(m, u) == 0;
    }
    if m.waiters != [] { UnlinkHead(m.waiters); }
  }

  lemma ReleaseKeeps(m: Mx, t: Tid)
    requires Inv(m) && Enabled(m, Release(t))
    ensures Inv(ReleaseRegion(m, t).0)
  {
    if m.owner == Some(t) {
      var m1 := m.(hold := Dec8(m.hold), depth := m.depth[t := if Depth(m, t) == 0 then 0 else Depth(m, t) - 1]);
      assert forall u: Tid :: Depth(m1, u) == if u == t then m1.hold else 0 by {
        forall u: Tid
          ensures Depth(m1, u) == if u == t then m1.hold else 0
        {
          assert Depth(m, u) == if m.owner == Some(u) then m.hold else 0;
        }
      }
      if m1.hold == 0 {
        var m2 := m1.(prio := Restored(m, t));
        assert forall u: Tid :: Depth(m2, u) == Depth(m1, u);
        PassOnKeeps(m2, t);
      }
    }
  }

  /** Giving the mutex up keeps priority inheritance exactly when no remaining waiter is more urgent
      than the first one. */
  lemma HandOverInheritsExactly(m: Mx, t: Tid)
    requires Inv(m) && m.owner == Some(t) && m.hold == 1 && m.waiters != []
    ensures var m' := ReleaseRegion(m, t).0;
      Inherits(m') <==> forall w :: w in m.waiters ==> P(m, m.waiters[0]) <= P(m, w)
  {
    var m' := ReleaseRegion(m, t).0;
    UnlinkHead(m.waiters);
    assert m.waiters == [m.waiters[0]] + m.waiters[1..];
    assert forall w :: w in m.waiters ==> P(m', w) == P(m, w);
    assert forall w :: w in m.waiters <==> w == m.waiters[0] || w in m'.waiters;
  }

  lemma ReleaseInherits(m: Mx, t: Tid)
    requires Inv(m) && Ranked(m) && Enabled(m, Release(t)) && Inherits(m)
    ensures Ranked(ReleaseRegion(m, t).0) && Inherits(ReleaseRegion(m, t).0)
    ensures BoostDue(m) ==> BoostDue(ReleaseRegion(m, t).0)
  {
    if m.owner == Some(t) && m.hold == 1 {
      UrgencyFrame(m.waiters, m.prio, t, m.origPrio);
      if m.waiters != [] {
        HandOverInheritsExactly(m, t);
        var m' := ReleaseRegion(m, t).0;
        assert m.waiters[0] in m.waiters;
        assert P(m', m.waiters[0]) == P(m, m.waiters[0]);
      }
    }
  }

  lemma TimeoutKeeps(m: Mx, t: Tid)
    requires Inv(m) && t in m.waiters
    ensures Inv(Do(m, Timeout(t)).0)
    ensures Ranked(m) ==> Ranked(Do(m, Timeout(t)).0)
    ensures Inherits(m) ==> Inherits(Do(m, Timeout(t)).0)
  {
    ExclusiveAfter(m, Do(m, Timeout(t)).0);
    UnlinkNoDup(m.waiters, t);
    if Ranked(m) { UnlinkUrgency(m.waiters, t, m.prio); }
  }

  /** Every step but the 256th nested take keeps the invariant, whatever the flag, and that take breaks it. */
  lemma StepKeepsInv(m: Mx, e: Event)
    requires Inv(m) && Enabled(m, e)
    ensures Inv(Do(m, e).0) <==> !Wraps(m, e)
  {
    match e
    case Take(t, mayWait) => if !Wraps(m, e) { TakeKeeps(m, t, mayWait); }
    case Release(t) => ReleaseKeeps(m, t);
    case Timeout(t) => TimeoutKeeps(m, t);
    case SetPrio(t, p) => ExclusiveAfter(m, Do(m, e).0);
  }

  /** A nested take keeps the invariant exactly as long as the 8-bit counter does not wrap. */
  lemma NestedTakeExactly(m: Mx, t: Tid, mayWait: bool)
    requires Inv(m) && m.owner == Some(t)
    ensures Inv(TakeRegion(m, t, mayWait).0) <==> m.hold < 255
  {
    StepKeepsInv(m, Take(t, mayWait));
  }

  // ---------------------------------------------------------------- priority inheritance

  /** A change of priority that respects inheritance: the owner stays as urgent as its waiters, and a
      waiter stays less urgent than the owner and between its neighbours on the list. */
  ghost predicate Fitting(m: Mx, e: Event) {
    e.SetPrio? ==>
      && (m.owner == Some(e.t) ==> forall w :: w in m.waiters ==> e.p <= P(m, w))
      && (e.t in m.waiters && m.owner.Some? ==> P(m, m.owner.tid) <= e.p)
      && Between(m.waiters, m.prio, e.t, e.p)
  }

  /** For the owner, for a waiter, and for everybody else; what it does to inheritance, whatever the flag,
      and to the order of the list. */
  lemma SetPrioExactly(m: Mx, t: Tid, p: nat)
    requires Inv(m) && Inherits(m)
    ensures var m' := Do(m, SetPrio(t, p)).0;
      && (m.owner == Some(t) ==> (Inherits(m') <==> forall w :: w in m.waiters ==> p <= P(m, w)))
      && (t in m.waiters ==> (Inherits(m') <==> P(m, m.owner.tid) <= p))
      && (m.owner != Some(t) && t !in m.waiters ==> Inherits(m'))
      && (t !in m.waiters ==> (Ranked(m') <==> Ranked(m)))
      && (Ranked(m) ==> (Ranked(m') <==> Between(m.waiters, m.prio, t, p)))
  {
    var m' := Do(m, SetPrio(t, p)).0;
    if Ranked(m) { BetweenExactly(m.waiters, m.prio, t, p); }
    if t !in m.waiters { UrgencyFrame(m.waiters, m.prio, t, p); }
    assert P(m', t) == p && forall u :: u != t ==> P(m', u) == P(m, u);
  }

  /** With RT_IPC_FLAG_PRIO a step keeps the order of the list and priority inheritance exactly when it
      is not an unfitting change of priority. */
  lemma StepInheritsExactly(m: Mx, e: Event)
    requires Inv(m) && m.flag.Prio? && Ranked(m) && Inherits(m) && Enabled(m, e)
    ensures Ranked(Do(m, e).0) && Inherits(Do(m, e).0) <==> Fitting(m, e)
  {
    match e
    case Take(t, mayWait) =>
      TakeRanks(m, t, mayWait);
      TakeInherits(m, t, mayWait);
    case Release(t) => ReleaseInherits(m, t);
    case Timeout(t) => TimeoutKeeps(m, t);
    case SetPrio(t, p) => SetPrioExactly(m, t, p);
  }

  /** A timeout leaves the owner's priority justified exactly when it is the owner's own, or that of a
      waiter who stays. */
  lemma TimeoutKeepsBoostExactly(m: Mx, t: Tid)
    requires Inv(m) && t in m.waiters
    ensures BoostDue(Do(m, Timeout(t)).0) <==>
      P(m, m.owner.tid) == m.origPrio || exists w :: w in m.waiters && w != t && P(m, w) == P(m, m.owner.tid)
  {
    var m' := Do(m, Timeout(t)).0;
    assert forall w :: w in m'.waiters <==> w in m.waiters && w != t;
    assert forall w :: P(m', w) == P(m, w);
  }

  /** The steps after which nobody may justify the owner's priority. */
  ghost predicate Justified(m: Mx, e: Event) {
    m.owner.Some? ==>
      match e
      case Timeout(t) => P(m, m.owner.tid) == m.origPrio || exists w :: w in m.waiters && w != t && P(m, w) == P(m, m.owner.tid)
      case SetPrio(t, p) =>
        if t == m.owner.tid then p == m.origPrio || exists w :: w in m.waiters && P(m, w) == p
        else
          || P(m, m.owner.tid) == m.origPrio
          || (t in m.waiters && p == P(m, m.owner.tid))
          || exists w :: w in m.waiters && w != t && P(m, w) == P(m, m.owner.tid)
      case _ => true
  }

  /** A step keeps the owner's priority justified exactly under that condition. */
  lemma StepBoostExactly(m: Mx, e: Event)
    requires Inv(m) && m.flag.Prio? && Ranked(m) && Inherits(m) && BoostDue(m) && Enabled(m, e)
    ensures BoostDue(Do(m, e).0) <==> Justified(m, e)
  {
    match e
    case Take(t, mayWait) => TakeInherits(m, t, mayWait);
    case Release(t) => ReleaseInherits(m, t);
    case Timeout(t) => TimeoutKeepsBoostExactly(m, t);
    case SetPrio(t, p) =>
      var m' := Do(m, e).0;
      assert P(m', t) == p && forall u :: u != t ==> P(m', u) == P(m, u);
      if m.owner.Some? { SetPrioBoost(m, t, p); }
  }

  lemma SetPrioBoost(m: Mx, t: Tid, p: nat)
    requires Inv(m) && BoostDue(m) && m.owner.Some?
    ensures BoostDue(Do(m, SetPrio(t, p)).0) <==> Justified(m, SetPrio(t, p))
  {
    var m' := Do(m, SetPrio(t, p)).0;
    forall w | w in m.waiters
      ensures P(m', w) == if w == t then p else P(m, w)
    {
    }
  }

  // ---------------------------------------------------------------- whole runs

  /** Every step can be taken, and no nesting goes beyond 255. */
  predicate EnabledRun(m: Mx, es: seq<Event>)
    decreases |es|
  {
    es == [] || (Enabled(m, es[0]) && !Wraps(m, es[0]) && EnabledRun(Do(m, es[0]).0, es[1..]))
  }

  /** Every change of priority respects inheritance. */
  ghost predicate FittingRun(m: Mx, es: seq<Event>)
    requires EnabledRun(m, es)
    decreases |es|
  {
    es == [] || (Fitting(m, es[0]) && FittingRun(Do(m, es[0]).0, es[1..]))
  }

  function Run(m: Mx, es: seq<Event>): Mx
    requires EnabledRun(m, es)
    decreases |es|
  {
    if es == [] then m else Run(Do(m, es[0]).0, es[1..])
  }

  lemma {:induction false} RunKeepsInv(m: Mx, es: seq<Event>)
    requires Inv(m) && EnabledRun(m, es)
    ensures Inv(Run(m, es)) && Run(m, es).flag == m.flag
    decreases |es|
  {
    if es != [] {
      StepKeepsInv(m, es[0]);
      RunKeepsInv(Do(m, es[0]).0, es[1..]);
    }
  }

  lemma {:induction false} RunInherits(m: Mx, es: seq<Event>)
    requires Inv(m) && m.flag.Prio? && Ranked(m) && Inherits(m) && EnabledRun(m, es) && FittingRun(m, es)
    ensures Ranked(Run(m, es)) && Inherits(Run(m, es))
    decreases |es|
  {
    if es != [] {
      StepKeepsInv(m, es[0]);
      StepInheritsExactly(m, es[0]);
      RunInherits(Do(m, es[0]).0, es[1..]);
    }
  }

  /** Mutual exclusion in every interleaving from rt_mutex_init: at most one thread is inside, and then
      the mutex is not free. */
  lemma MutualExclusion(flag: Flag, prio: map<Tid, nat>, es: seq<Event>, t: Tid, u: Tid)
    requires EnabledRun(Init(flag, prio), es)
    requires Depth(Run(Init(flag, prio), es), t) > 0
    ensures Run(Init(flag, prio), es).value == 0
    ensures Depth(Run(Init(flag, prio), es), u) > 0 ==> t == u
  {
    var m := Run(Init(flag, prio), es);
    InitInv(flag, prio);
    RunKeepsInv(Init(flag, prio), es);
    assert Depth(m, t) == if m.owner == Some(t) then m.hold else 0;
    assert Depth(m, u) == if m.owner == Some(u) then m.hold else 0;
  }

  lemma InitInv(flag: Flag, prio: map<Tid, nat>)
    ensures var m := Init(flag, prio); Inv(m) && Ranked(m) && Inherits(m) && BoostDue(m)
  {
    var m := Init(flag, prio);
    assert forall t: Tid :: Depth(m, t) == 0;
  }

  /** With RT_IPC_FLAG_PRIO no waiter is ever kept waiting by a less urgent owner, as long as priorities
      change only as inheritance allows. */
  lemma NoInversionEver(prio: map<Tid, nat>, es: seq<Event>, w: Tid)
    requires EnabledRun(Init(Prio, prio), es) && FittingRun(Init(Prio, prio), es)
    requires w in Run(Init(Prio, prio), es).waiters
    ensures var m := Run(Init(Prio, prio), es); m.owner.Some? && P(m, m.owner.tid) <= P(m, w)
  {
    InitInv(Prio, prio);
    RunKeepsInv(Init(Prio, prio), es);
    RunInherits(Init(Prio, prio), es);
  }

  // ---------------------------------------------------------------- arrival order

  function Arrive(m: Mx, a: Arrivals, e: Event): Arrivals
    requires Enabled(m, e)
  {
    if Do(m, e).1.Blocked? then Arrived(a, e.t) else a
  }

  ghost predicate Served(m: Mx, a: Arrivals) { Queued(m.waiters, m.flag, m.prio, a) }

  /** A waiter whose priority changes keeps its place only between its neighbours, arrival order included. */
  ghost predicate KeepsPlace(m: Mx, a: Arrivals, e: Event) {
    m.flag.Prio? && e.SetPrio? ==> BetweenTurns(m.waiters, m.prio, a.since, e.t, e.p)
  }

  /** A step keeps priority order, and arrival order among equals, exactly under that condition. */
  lemma StepServesExactly(m: Mx, a: Arrivals, e: Event)
    requires Inv(m) && Served(m, a) && Enabled(m, e)
    ensures Served(Do(m, e).0, Arrive(m, a, e)) <==> KeepsPlace(m, a, e)
  {
    match e
    case Take(t, mayWait) => if Do(m, e).1.Blocked? { TakeServes(m, a, t); }
    case Release(t) => ReleaseServes(m, a, t);
    case Timeout(t) => LeaveQueued(m.waiters, t, m.flag, m.prio, a);
    case SetPrio(t, p) => SetPrioQueued(m.waiters, m.flag, m.prio, a, t, p);
  }

  lemma TakeServes(m: Mx, a: Arrivals, t: Tid)
    requires Inv(m) && Served(m, a) && Enabled(m, Take(t, true)) && TakeRegion(m, t, true).1.Blocked?
    ensures Served(TakeRegion(m, t, true).0, Arrived(a, t))
  {
    InTurnFrame(m.waiters, m.flag, m.prio, Boost(m, t), a.since, a.since);
    JoinQueued(m.waiters, t, m.flag, Boost(m, t), a);
  }

  lemma ReleaseServes(m: Mx, a: Arrivals, t: Tid)
    requires Inv(m) && Served(m, a) && Enabled(m, Release(t))
    ensures Served(ReleaseRegion(m, t).0, a)
  {
    InTurnFrame(m.waiters, m.flag, m.prio, m.prio[t := m.origPrio], a.since, a.since);
    if m.waiters != [] { UnlinkHead(m.waiters); }
  }

  ghost predicate PlacesKept(m: Mx, a: Arrivals, es: seq<Event>)
    requires EnabledRun(m, es)
    decreases |es|
  {
    es == [] || (KeepsPlace(m, a, es[0]) && PlacesKept(Do(m, es[0]).0, Arrive(m, a, es[0]), es[1..]))
  }

  function ArriveRun(m: Mx, a: Arrivals, es: seq<Event>): Arrivals
    requires EnabledRun(m, es)
    decreases |es|
  {
    if es == [] then a else ArriveRun(Do(m, es[0]).0, Arrive(m, a, es[0]), es[1..])
  }

  lemma {:induction false} RunServes(m: Mx, a: Arrivals, es: seq<Event>)
    requires Inv(m) && Served(m, a) && EnabledRun(m, es) && PlacesKept(m, a, es)
    ensures Served(Run(m, es), ArriveRun(m, a, es))
    decreases |es|
  {
    if es != [] {
      StepKeepsInv(m, es[0]);
      StepServesExactly(m, a, es[0]);
      RunServes(Do(m, es[0]).0, Arrive(m, a, es[0]), es[1..]);
    }
  }

  /** In every interleaving the waiters stand in the order in which they will be served: by arrival with
      RT_IPC_FLAG_FIFO, by priority and then by arrival with RT_IPC_FLAG_PRIO. */
  lemma ServedInTurnEver(flag: Flag, prio: map<Tid, nat>, es: seq<Event>, i: nat, j: nat)
    requires EnabledRun(Init(flag, prio), es) && PlacesKept(Init(flag, prio), Arrivals(0, map[]), es)
    requires i < j < |Run(Init(flag, prio), es).waiters|
    ensures var m, a := Run(Init(flag, prio), es), ArriveRun(Init(flag, prio), Arrivals(0, map[]), es);
      Ahead(flag, m.prio, a.since, m.waiters[i], m.waiters[j])
  {
    InitInv(flag, prio);
    RunKeepsInv(Init(flag, prio), es);
    RunServes(Init(flag, prio), Arrivals(0, map[]), es);
  }

  // ---------------------------------------------------------------- exactly what each step does

  /** The answer of rt_mutex_take, from the state before and in the state after; what a blocked thread does to
      the priority of the owner; and what stays. */
  lemma TakeExactly(m: Mx, t: Tid, mayWait: bool, u: Tid)
    requires Inv(m) && Enabled(m, Take(t, mayWait)) && !Wraps(m, Take(t, mayWait))
    ensures var (m', o) := Do(m, Take(t, mayWait));
      && (o == Took <==> m.owner == None || m.owner == Some(t))
      && (o == Took <==> m'.owner == Some(t))
      && (o == Took <==> Depth(m', t) == Depth(m, t) + 1)
      && (o == TimedOut <==> m.owner.Some? && m.owner != Some(t) && !mayWait)
      && (o == Blocked <==> m.owner.Some? && m.owner != Some(t) && mayWait)
      && (o == Blocked <==> t in m'.waiters)
      && (o == TimedOut ==> m' == m)
    ensures var (m', o) := Do(m, Take(t, mayWait));
      && (u != t ==> Depth(m', u) == Depth(m, u) && (u in m'.waiters <==> u in m.waiters))
      && P(m', u) == (if o == Blocked && m.owner == Some(u) && P(m, t) < P(m, u) then P(m, t) else P(m, u))
      && (m.owner == None ==> m'.hold == 1 && m'.origPrio == P(m, t))
      && (m.owner.Some? ==> m'.owner == m.owner && m'.origPrio == m.origPrio && (m.owner != Some(t) ==> m'.hold == m.hold))
  {
    var m' := Do(m, Take(t, mayWait)).0;
    SuspendElems(m.waiters, t, m'.prio, m.flag);
    assert Depth(m, t) == if m.owner == Some(t) then m.hold else 0;
    TakeKeeps(m, t, mayWait);
    assert Depth(m', t) == if m'.owner == Some(t) then m'.hold else 0;
  }

  /** The answer of rt_mutex_release and its effect: one level less; at the last level the old priority back, and
      the mutex to the first waiter, or free. */
  lemma ReleaseExactly(m: Mx, t: Tid, u: Tid)
    requires Inv(m) && Enabled(m, Release(t))
    ensures var (m', o) := Do(m, Release(t));
      && (o == Released <==> m.owner == Some(t))
      && (o == NotOwner <==> m.owner != Some(t))
      && (o == NotOwner ==> m' == m)
      && (o == Released ==> Depth(m', t) == Depth(m, t) - 1)
      && (o == Released && m.hold > 1 ==> m'.(hold := m.hold, depth := m.depth) == m && m'.hold == m.hold - 1)
      && (o == Released && m.hold == 1 ==> P(m', u) == (if u == t then m.origPrio else P(m, u)))
      && (o == Released && m.hold == 1 && m.waiters == [] ==> m'.owner == None && m'.value == 1)
      && (o == Released && m.hold == 1 && m.waiters != [] ==>
            && m'.owner == Some(m.waiters[0]) && [m.waiters[0]] + m'.waiters == m.waiters
            && m'.hold == 1 && Depth(m', m.waiters[0]) == 1 && m'.origPrio == P(m', m.waiters[0]))
      && (u != t && m'.owner != Some(u) ==> Depth(m', u) == Depth(m, u))
  {
    assert Depth(m, t) == if m.owner == Some(t) then m.hold else 0;
    if m.waiters != [] {
      assert m.waiters[0] in m.waiters;
      assert Depth(m, m.waiters[0]) == 0;
    }
  }

  /** The waiter that is handed the mutex is served before all that stay. */
  lemma HandedToFirst(m: Mx, a: Arrivals, t: Tid, w: Tid)
    requires Inv(m) && Served(m, a) && m.owner == Some(t) && m.hold == 1 && w in Do(m, Release(t)).0.waiters
    ensures var m' := Do(m, Release(t)).0; m'.owner.Some? && Ahead(m.flag, m.prio, a.since, m'.owner.tid, w)
  {
    ReleaseExactly(m, t, t);
    var j :| 0 <= j < |m.waiters| - 1 && m.waiters[j + 1] == w;
  }

  /** A waiter that times out leaves the list and nothing else changes; a change of priority changes that
      priority and nothing else. */
  lemma OthersExactly(m: Mx, t: Tid, p: nat, u: Tid)
    requires Inv(m)
    ensures t in m.waiters ==>
      var (m', o) := Do(m, Timeout(t));
      o == TimedOut && m'.(waiters := m.waiters) == m && (u in m'.waiters <==> u in m.waiters && u != t)
    ensures var m' := Do(m, SetPrio(t, p)).0; m'.(prio := m.prio) == m && P(m', u) == if u == t then p else P(m, u)
  {
  }

  // ---------------------------------------------------------------- what can go wrong

  lemma RunCons(m: Mx, e: Event, es: seq<Event>)
    requires Enabled(m, e) && !Wraps(m, e) && EnabledRun(Do(m, e).0, es)
    ensures EnabledRun(m, [e] + es) && Run(m, [e] + es) == Run(Do(m, e).0, es)
    ensures Fitting(m, e) && FittingRun(Do(m, e).0, es) ==> FittingRun(m, [e] + es)
  {
    assert ([e] + es)[0] == e && ([e] + es)[1..] == es;
  }

  /** A waiter that times out leaves the owner at the waiter's priority. */
  lemma TimeoutLeavesBoost()
    ensures var m, es := Init(Prio, map[1 := 20, 2 := 5]), [Take(1, true)] + ([Take(2, true)] + ([Timeout(2)] + []));
      EnabledRun(m, es) && FittingRun(m, es) && !BoostDue(Run(m, es))
  {
    var m := Init(Prio, map[1 := 20, 2 := 5]);
    var m1 := Do(m, Take(1, true)).0;
    var m2 := Do(m1, Take(2, true)).0;
    assert m2.waiters == [2] && [2][1..] == [];
    var m3 := Do(m2, Timeout(2)).0;
    assert m3.waiters == [] && P(m3, 1) == 5 && m3.origPrio == 20;
    RunCons(m2, Timeout(2), []);
    RunCons(m1, Take(2, true), [Timeout(2)] + []);
    RunCons(m, Take(1, true), [Take(2, true)] + ([Timeout(2)] + []));
  }

  /** With RT_IPC_FLAG_FIFO the mutex goes to thread 2, at priority 10, while thread 3, at priority 5, waits. */
  lemma FifoHandOverInverts()
    ensures var m := Init(Fifo, map[1 := 20, 2 := 10, 3 := 5]);
      var es := [Take(1, true)] + ([Take(2, true)] + ([Take(3, true)] + ([Release(1)] + [])));
      EnabledRun(m, es) && FittingRun(m, es) && !Inherits(Run(m, es))
  {
    var m := Init(Fifo, map[1 := 20, 2 := 10, 3 := 5]);
    var m1 := Do(m, Take(1, true)).0;
    var m2 := Do(m1, Take(2, true)).0;
    var m3 := Do(m2, Take(3, true)).0;
    assert m3.waiters == [2, 3] && [2, 3][1..] == [3];
    var m4 := Do(m3, Release(1)).0;
    assert m4.owner == Some(2) && 3 in m4.waiters && P(m4, 3) == 5 && P(m4, 2) == 10;
    RunCons(m3, Release(1), []);
    RunCons(m2, Take(3, true), [Release(1)] + []);
    RunCons(m1, Take(2, true), [Take(3, true)] + ([Release(1)] + []));
    RunCons(m, Take(1, true), [Take(2, true)] + ([Take(3, true)] + ([Release(1)] + [])));
  }

  function Takes(n: nat): seq<Event> { if n == 0 then [] else [Take(1, true)] + Takes(n - 1) }

  lemma {:induction false} TakesNest(m: Mx, n: nat)
    requires m.owner == Some(1) && m.waiters == [] && m.hold + n <= 255
    ensures EnabledRun(m, Takes(n))
    ensures var m' := Run(m, Takes(n)); m'.owner == Some(1) && m'.waiters == [] && m'.hold == m.hold + n
    decreases n
  {
    if n > 0 {
      var m' := Do(m, Take(1, true)).0;
      TakesNest(m', n - 1);
      RunCons(m, Take(1, true), Takes(n - 1));
    }
  }

  /** After 255 takes by one thread the 256th leaves it the owner of a mutex that nobody holds. */
  lemma NestingWraps(flag: Flag)
    ensures exists n: nat :: n == 255 && HoldsUntil(Init(flag, map[]), n)
  {
    var m := Init(flag, map[]);
    var m1 := Do(m, Take(1, true)).0;
    TakesNest(m1, 254);
    InitInv(flag, map[]);
    StepKeepsInv(m, Take(1, true));
    RunKeepsInv(m1, Takes(254));
    RunCons(m, Take(1, true), Takes(254));
    assert HoldsUntil(m, 255);
  }

  /** `n` takes by one thread are fine, and one more breaks the agreement of owner and counter. */
  ghost predicate HoldsUntil(m: Mx, n: nat) {
    && EnabledRun(m, Takes(n))
    && var last := Run(m, Takes(n));
    && last.owner == Some(1) && 1 !in last.waiters && Agree(last) && !Agree(Do(last, Take(1, true)).0)
  }

  /** With RT_IPC_FLAG_PRIO the owner, made less urgent while a thread waits, keeps it waiting. */
  lemma OwnerMadeLessUrgent()
    ensures var m, es := Init(Prio, map[1 := 5, 2 := 10]), [Take(1, true)] + ([Take(2, true)] + ([SetPrio(1, 20)] + []));
      EnabledRun(m, es) && !Inherits(Run(m, es))
  {
    var m := Init(Prio, map[1 := 5, 2 := 10]);
    var m1 := Do(m, Take(1, true)).0;
    var m2 := Do(m1, Take(2, true)).0;
    var m3 := Do(m2, SetPrio(1, 20)).0;
    assert 2 in m3.waiters && P(m3, 2) == 10 && P(m3, 1) == 20;
    RunCons(m2, SetPrio(1, 20), []);
    RunCons(m1, Take(2, true), [SetPrio(1, 20)] + []);
    RunCons(m, Take(1, true), [Take(2, true)] + ([SetPrio(1, 20)] + []));
  }

  /** `t` owns the mutex before every step of the run and after the last. */
  predicate OwnsThroughout(m: Mx, es: seq<Event>, t: Tid)
    requires EnabledRun(m, es)
    decreases |es|
  {
    m.owner == Some(t) && (es == [] || OwnsThroughout(Do(m, es[0]).0, es[1..], t))
  }

  /** Successful takes by `t` minus its releases. */
  function Nesting(es: seq<Event>, t: Tid): int {
    if es == [] then 0
    else (if es[0].Take? && es[0].t == t then 1 else if es[0].Release? && es[0].t == t then -1 else 0) + Nesting(es[1..], t)
  }

  lemma OwnedStep(m: Mx, e: Event, t: Tid)
    requires Inv(m) && Enabled(m, e) && !(e.Take? && m.owner == Some(e.t) && m.hold == 255)
    requires m.owner == Some(t) && Do(m, e).0.owner == Some(t)
    ensures Do(m, e).0.origPrio == m.origPrio
    ensures Do(m, e).0.hold == m.hold + Nesting([e], t)
  {
  }

  /** As long as one thread owns the mutex, `hold` counts its nesting and the priority it will get back
      stays fixed, whatever the other threads do. */
  lemma {:induction false} OwnedRun(m: Mx, es: seq<Event>, t: Tid)
    requires Inv(m) && EnabledRun(m, es) && OwnsThroughout(m, es, t)
    ensures Run(m, es).origPrio == m.origPrio
    ensures Run(m, es).hold == m.hold + Nesting(es, t)
    decreases |es|
  {
    if es != [] {
      StepKeepsInv(m, es[0]);
      OwnedStep(m, es[0], t);
      OwnedRun(Do(m, es[0]).0, es[1..], t);
      assert [es[0]][1..] == [] && Nesting([es[0]], t) + Nesting(es[1..], t) == Nesting(es, t);
    }
  }

  /** From the step by which `t` becomes the owner, taking the free mutex or being handed it, to the
      release that ends its ownership: that release is the one that balances the takes, and it gives
      back the priority `t` had when it became the owner. */
  lemma ReleaseRestoresPriority(m: Mx, e: Event, es: seq<Event>, t: Tid)
    requires Inv(m) && Enabled(m, e) && m.owner != Some(t) && Do(m, e).0.owner == Some(t)
    requires EnabledRun(Do(m, e).0, es) && OwnsThroughout(Do(m, e).0, es, t)
    ensures var last := Run(Do(m, e).0, es);
      && Enabled(last, Release(t))
      && (Do(last, Release(t)).0.owner != Some(t) <==> Nesting(es, t) == 0)
      && (Nesting(es, t) == 0 ==> P(Do(last, Release(t)).0, t) == P(m, t))
  {
    var m1 := Do(m, e).0;
    StepKeepsInv(m, e);
    assert m1.hold == 1 && m1.origPrio == P(m, t);
    RunKeepsInv(m1, es);
    OwnedRun(m1, es, t);
    OwnsLast(m1, es, t);
    var last := Run(m1, es);
    if last.waiters != [] { assert last.waiters[0] in last.waiters; }
  }

  lemma {:induction false} OwnsLast(m: Mx, es: seq<Event>, t: Tid)
    requires EnabledRun(m, es) && OwnsThroughout(m, es, t)
    ensures Run(m, es).owner == Some(t)
    decreases |es|
  {
    if es != [] { OwnsLast(Do(m, es[0]).0, es[1..], t); }
  }

  // ---------------------------------------------------------------- the mutex object

  class MutexObject {
    const flag: Flag
    var value: nat
    var owner: Owner
    var origPrio: nat                 // original_priority
    var hold: nat
    var waiters: seq<Tid>             // parent.suspend_thread
    var prio: map<Tid, nat>           // current_priority of the threads
    ghost var depth: map<Tid, nat>

    ghost predicate Valid()
      reads this
    {
      Inv(Abs())
    }

    ghost function Abs(): Mx
      reads this
    {
      Mx(flag, value, owner, origPrio, hold, waiters, prio, depth)
    }

    constructor (flag: Flag, prio: map<Tid, nat>)
      ensures Valid() && Abs() == Init(flag, prio)
    {
      this.flag, this.prio := flag, prio;
      value, owner, origPrio, hold := 1, None, 0xFF, 0;
      waiters, depth := [], map[];
      new;
      InitInv(flag, prio);
    }

    /** rt_mutex_take by thread `t`; `mayWait` is a waiting time other than 0. */
    method TakePass(t: Tid, mayWait: bool) returns (o: Outcome)
      requires Valid() && Enabled(Abs(), Take(t, mayWait))
      modifies this`value, this`owner, this`origPrio, this`hold, this`waiters, this`prio, this`depth
      ensures (Abs(), o) == TakeRegion(old(Abs()), t, mayWait)
      ensures old(owner == Some(t) ==> hold < 255) ==> Valid()
    {
      ghost var m := Abs();
      if !(owner == Some(t) && hold == 255) { TakeKeeps(m, t, mayWait); }
      o := Took;
      if owner == Some(t) {
        hold := Inc8(hold);
        depth := depth[t := Depth(m, t) + 1];
      } else if value > 0 {
        value := value - 1;
        owner := Some(t);
        origPrio := PrioOf(prio, t);
        hold := Inc8(hold);
        depth := depth[t := Depth(m, t) + 1];
      } else if !mayWait {
        o := TimedOut;
      } else {
        var mine, his := PrioOf(prio, t), PrioOf(prio, owner.tid);
        if mine < his { prio := prio[owner.tid := mine]; }
        waiters := Enlist(t);
        o := Blocked;
      }
    }

    /** rt_ipc_list_suspend. */
    method Enlist(t: Tid) returns (r: seq<Tid>)
      ensures r == Suspend(waiters, t, prio, flag)
    {
      match flag
      case Fifo => r := waiters + [t];
      case Prio =>
        var n := FindSpot(waiters, prio, t);
        r := waiters[..n] + [t] + waiters[n..];
    }

    /** rt_mutex_release by thread `t`. */
    method ReleasePass(t: Tid) returns (o: Outcome)
      requires Valid() && Enabled(Abs(), Release(t))
      modifies this`value, this`owner, this`origPrio, this`hold, this`waiters, this`prio, this`depth
      ensures Valid()
      ensures (Abs(), o) == ReleaseRegion(old(Abs()), t)
    {
      ghost var m := Abs();
      ReleaseKeeps(m, t);
      if owner != Some(t) { return NotOwner; }
      o := Released;
      hold := Dec8(hold);
      depth := depth[t := if Depth(m, t) == 0 then 0 else Depth(m, t) - 1];
      if hold == 0 {
        var his := PrioOf(prio, owner.tid);
        if origPrio != his { prio := prio[owner.tid := origPrio]; }
        HandOver();
      }
    }

    /** The end of rt_mutex_release: the first waiter becomes the owner, or the mutex becomes free. */
    method HandOver()
      modifies this`value, this`owner, this`origPrio, this`hold, this`waiters, this`depth
      ensures Abs() == PassOn(old(Abs()))
    {
      if waiters != [] {
        ghost var m := Abs();
        var next := waiters[0];
        owner := Some(next);
        origPrio := PrioOf(prio, next);
        hold := Inc8(hold);
        waiters := waiters[1..];
        depth := depth[next := Depth(m, next) + 1];
      } else {
        value := value + 1;
        owner := None;
        origPrio := 0xFF;
      }
    }

    /** rt_thread_timeout of a waiter. */
    method ThreadTimeout(t: Tid)
      requires Valid() && t in waiters
      modifies this`waiters
      ensures Valid() && Abs() == Do(old(Abs()), Timeout(t)).0
    {
      TimeoutKeeps(Abs(), t);
      waiters := Unlink(waiters, t);
    }
  }
}

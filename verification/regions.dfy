/**
  The scheduler one interrupt-disabled region at a time.  rt_thread_resume tests the state of the
  thread, unlinks it in one region and inserts it in a second one; rt_thread_suspend tests outside its
  region; rt_thread_exit, rt_thread_yield and rt_exit_critical schedule in a region of their own.
  Any other context may run in between.
*/
module SchedulerRegions {
  import opened Bits
  import opened IpcList
  import opened Lists
  import opened Scheduler

  /** A thread or an interrupt handler in the middle of rt_thread_resume or rt_thread_suspend. */
  type Context = nat

  datatype Op =
    | Tested(t: Tid)      // rt_thread_resume found the thread suspended
    | Unlinked(t: Tid)    // rt_thread_resume has unlinked it, and interrupts were enabled
    | Leaving(t: Tid)     // rt_thread_suspend found the thread ready

  datatype State = State(s: Sched, ops: map<Context, Op>)

  datatype Region =
    | Whole(e: Event)
    | ResumeTest(c: Context, t: Tid)
    | ResumeUnlink(c: Context)
    | ResumeInsert(c: Context)
    | StartupTest(c: Context, t: Tid)      // rt_thread_startup up to the same point
    | SuspendTest(c: Context, t: Tid)
    | SuspendRegion(c: Context)
    | ExitRegion(detach: bool)
    | YieldRegion
    | UnlockRegion

  ghost predicate CanDo(r: State, e: Region) {
    match e
    case Whole(w) => Enabled(r.s, w)
    case ResumeTest(c, t) => c !in r.ops && t in r.s.thr
    case ResumeUnlink(c) => c in r.ops && r.ops[c].Tested? && r.ops[c].t in r.s.thr
    case ResumeInsert(c) => c in r.ops && r.ops[c].Unlinked? && r.ops[c].t in r.s.thr
    case StartupTest(c, t) => c !in r.ops && t in r.s.thr && r.s.thr[t].stat == Initial
    case SuspendTest(c, t) => c !in r.ops && t in r.s.thr && t != r.s.idle
    case SuspendRegion(c) => c in r.ops && r.ops[c].Leaving? && r.ops[c].t in r.s.thr
    case ExitRegion(_) => Enabled(r.s, Exit(false))
    case YieldRegion => r.s.current.Runs?
    case UnlockRegion => true
  }

  /** The scheduler after a region. */
  ghost function After(r: State, e: Region): Sched
    requires Inv(r.s) && CanDo(r, e)
  {
    match e
    case Whole(w) => Scheduler.Do(r.s, w)
    case ResumeUnlink(c) => r.s.(rings := Without(r.s.rings, r.ops[c].t))
    case ResumeInsert(c) => Insert(r.s, r.ops[c].t)
    case StartupTest(c, t) => SetStat(SetPrio(r.s, t, r.s.thr[t].initPrio), t, Suspended)
    case SuspendRegion(c) => Remove(SetStat(r.s, r.ops[c].t, Suspended), r.ops[c].t)
    case ExitRegion(detach) => Exited(r.s, detach)
    case YieldRegion => Yielded(r.s)
    case UnlockRegion => var n := Wrap16(r.s.lockNest - 1); r.s.(lockNest := if n <= 0 then 0 else n)
    case _ => r.s
  }

  ghost function Do(r: State, e: Region): State
    requires Inv(r.s) && CanDo(r, e)
  {
    var s := After(r, e);
    match e
    case ResumeTest(c, t) => State(s, if r.s.thr[t].stat == Suspended then r.ops[c := Tested(t)] else r.ops)
    case ResumeUnlink(c) => State(s, r.ops[c := Unlinked(r.ops[c].t)])
    case StartupTest(c, t) => State(s, r.ops[c := Tested(t)])
    case SuspendTest(c, t) => State(s, if r.s.thr[t].stat == Ready then r.ops[c := Leaving(t)] else r.ops)
    case ResumeInsert(c) => State(s, r.ops - {c})
    case SuspendRegion(c) => State(s, r.ops - {c})
    case _ => State(s, r.ops)
  }

  // ---------------------------------------------------------------- exactly when a region is harmless

  /** Two copies of a thread in the rings break the shape. */
  lemma InsertListed(s: Sched, t: Tid, r: RingId)
    requires t in s.thr && r in s.rings && t in s.rings[r] && Shape(s.rings)
    ensures !Inv(Insert(s, t))
  {
    var ring := ReadyRing(s.thr[t].prio);
    var list := s.rings[ring] + [t];
    var s' := Insert(s, t);
    assert s'.rings[ring] == list && list[|list| - 1] == t;
    if r == ring {
      var i :| 0 <= i < |s.rings[r]| && s.rings[r][i] == t;
      assert list[i] == t;
    } else {
      assert t in s'.rings[r] && t in s'.rings[ring];
    }
  }

  lemma InsertExactly(s: Sched, t: Tid)
    requires Inv(s) && t in s.thr
    ensures Inv(Insert(s, t)) <==> forall r :: r in s.rings ==> t !in s.rings[r]
  {
    if r :| r in s.rings && t in s.rings[r] {
      InsertListed(s, t, r);
    } else {
      InsertKeeps(s, t);
    }
  }

  lemma UnlinkExactly(s: Sched, t: Tid)
    requires Inv(s) && t in s.thr
    ensures Inv(s.(rings := Without(s.rings, t))) <==> s.thr[t].stat != Ready
  {
    var s' := s.(rings := Without(s.rings, t));
    if s.thr[t].stat == Ready {
      assert t !in s'.rings[ReadyRing(s.thr[t].prio)];
      assert !Placed(s'.thr[t], s'.rings, t);
    } else {
      DetachKeeps(s, t);
      assert Placed(s.thr[t], s.rings, t) && Placed(s'.thr[t], s'.rings, t);
      assert Sliced(s.thr[t]);
    }
  }

  /** A suspend whose test is out of date does no harm: the thread ends suspended, in no ring. */
  lemma LateSuspendKeeps(s: Sched, t: Tid)
    requires Inv(s) && t in s.thr && !(s.current.Runs? && t == s.idle)
    ensures Inv(Remove(SetStat(s, t, Suspended), t))
  {
    if s.thr[t].stat == Ready {
      SuspendKeeps(s, t);
    } else {
      assert Placed(s.thr[t], s.rings, t) && Sliced(s.thr[t]);
      DetachKeeps(s, t);
      var s1 := s.(rings := Without(s.rings, t));
      SettleKeeps(s1, t, s.thr[t].(stat := Suspended));
      LateBit(s, t);
    }
  }

  /** The ring that the suspend looks at was empty already if it is empty now. */
  lemma LateBit(s: Sched, t: Tid)
    requires Inv(s) && t in s.thr && s.thr[t].stat != Ready
    ensures var s1 := SetStat(s, t, Suspended); Remove(s1, t) == s1.(rings := Without(s.rings, t))
  {
    var p := s.thr[t].prio;
    assert Placed(s.thr[t], s.rings, t) && ReadyRing(p) in s.rings;
    UnlinkAbsent(s.rings[ReadyRing(p)], t);
    if s.rings[ReadyRing(p)] == [] { assert s.bits - iset{p} == s.bits; }
  }

  lemma StartupTestKeeps(s: Sched, t: Tid)
    requires Inv(s) && t in s.thr && s.thr[t].stat == Initial
    ensures Inv(SetStat(SetPrio(s, t, s.thr[t].initPrio), t, Suspended))
  {
    var th := s.thr[t].(prio := s.thr[t].initPrio, stat := Suspended);
    assert Sliced(s.thr[t]);
    LooseIsOut(s, t);
    SettleKeeps(s, t, th);
    assert SetStat(SetPrio(s, t, s.thr[t].initPrio), t, Suspended) == s.(thr := s.thr[t := th]);
  }

  /** Of all regions only the two of rt_thread_resume can break the invariant, and they break it exactly
      when the thread has become ready, or has been linked into a list, since the test. */
  lemma RegionKeepsExactly(r: State, e: Region)
    requires Inv(r.s) && CanDo(r, e) && (e.SuspendRegion? ==> r.ops[e.c].t != r.s.idle)
    ensures Inv(After(r, e)) <==>
      && (e.ResumeUnlink? ==> r.s.thr[r.ops[e.c].t].stat != Ready)
      && (e.ResumeInsert? ==> forall q :: q in r.s.rings ==> r.ops[e.c].t !in r.s.rings[q])
  {
    match e
    case Whole(w) => StepKeepsInv(r.s, w);
    case ResumeUnlink(c) => UnlinkExactly(r.s, r.ops[c].t);
    case ResumeInsert(c) => InsertExactly(r.s, r.ops[c].t);
    case StartupTest(c, t) => StartupTestKeeps(r.s, t);
    case SuspendRegion(c) => LateSuspendKeeps(r.s, r.ops[c].t);
    case ExitRegion(detach) => ExitedKeeps(r.s, detach);
    case YieldRegion => YieldedKeeps(r.s);
    case _ =>
  }

  // ---------------------------------------------------------------- whole runs

  /** The region may change the state of `t`, or begins an operation that will. */
  predicate Moves(s: Sched, e: Region, t: Tid) {
    match e
    case Whole(w) =>
      (match w
       case Startup(u) => u == t
       case SuspendThread(u) => u == t
       case Wait(u, _, _) => u == t
       case ResumeThread(u) => u == t
       case Timeout(u) => u == t
       case Exit(_) => s.current == Runs(t)
       case _ => false)
    case ResumeTest(_, u) => u == t
    case StartupTest(_, u) => u == t
    case SuspendTest(_, u) => u == t
    case ExitRegion(_) => s.current == Runs(t)
    case _ => false
  }

  /** The region belongs to an operation that is already open. */
  predicate Continues(e: Region) { e.ResumeUnlink? || e.ResumeInsert? || e.SuspendRegion? }

  /** Nobody else moves a thread that is being resumed or suspended. */
  ghost predicate Alone(r: State, e: Region) {
    forall c {:trigger r.ops[c]} :: c in r.ops ==> !Moves(r.s, e, r.ops[c].t)
  }

  ghost predicate LooseIn(rings: map<RingId, seq<Tid>>, t: Tid) { forall q :: q in rings ==> t !in rings[q] }

  /** What the operation has found, or made, still holds. */
  ghost predicate Current(s: Sched, op: Op) {
    && op.t in s.thr
    && match op
       case Tested(t) => s.thr[t].stat == Suspended
       case Unlinked(t) => s.thr[t].stat == Suspended && LooseIn(s.rings, t)
       case Leaving(t) => s.thr[t].stat == Ready && t != s.idle
  }

  ghost predicate RInv(r: State) {
    && Inv(r.s)
    && (forall c :: c in r.ops ==> Current(r.s, r.ops[c]))
    && (forall c, d :: c in r.ops && d in r.ops && r.ops[c].t == r.ops[d].t ==> c == d)
  }

  /** A region leaves the state of every other thread, and keeps it out of the lists if it waits in none. */
  ghost predicate Stays(s: Sched, s': Sched, u: Tid)
    requires u in s.thr
  {
    && u in s'.thr && s'.thr[u].stat == s.thr[u].stat && s'.idle == s.idle
    && (s.thr[u].stat == Suspended && LooseIn(s.rings, u) ==> LooseIn(s'.rings, u))
  }

  lemma ScheduleStays(s: Sched, u: Tid)
    requires u in s.thr
    ensures Stays(s, Then(s), u)
  {
  }

  lemma ResumeStays(s: Sched, t: Tid, u: Tid)
    requires t in s.thr && u in s.thr && u != t
    ensures Stays(s, Resume(s, t), u)
  {
  }

  lemma SuspendStays(s: Sched, t: Tid, u: Tid)
    requires t in s.thr && u in s.thr && u != t
    ensures Stays(s, Remove(SetStat(s, t, Suspended), t), u)
  {
  }

  lemma WaitStays(s: Sched, t: Tid, id: nat, i: nat, u: Tid)
    requires Inv(s) && Enabled(s, Wait(t, id, i)) && u in s.thr && u != t
    ensures Stays(s, SuspendOn(s, t, id, i), u)
  {
    var list := Ring(s, WaitRing(id));
    assert list == list[..i] + list[i..];
  }

  lemma ExitStays(s: Sched, detach: bool, u: Tid)
    requires Inv(s) && Enabled(s, Exit(detach)) && u in s.thr && s.current != Runs(u)
    ensures Stays(s, Exited(s, detach), u)
  {
  }

  lemma YieldStays(s: Sched, u: Tid)
    requires Inv(s) && s.current.Runs? && u in s.thr
    ensures Stays(s, Yielded(s), u) && Stays(s, DoYield(s), u)
  {
    if s.thr[u].stat == Suspended && LooseIn(s.rings, u) {
      var t := s.current.tid;
      if t == u { assert s.thr[t].stat != Ready; }
    }
    ScheduleStays(Yielded(s), u);
  }

  lemma PrioStays(s: Sched, t: Tid, p: Priority, u: Tid)
    requires t in s.thr && u in s.thr
    ensures Stays(s, ChangePrio(s, t, p), u)
  {
  }

  lemma WholeStays(s: Sched, w: Event, u: Tid)
    requires Inv(s) && Enabled(s, w) && u in s.thr && !Moves(s, Whole(w), u)
    ensures Stays(s, Scheduler.Do(s, w), u)
  {
    match w
    case Startup(t) =>
      ResumeStays(SetStat(SetPrio(s, t, s.thr[t].initPrio), t, Suspended), t, u);
      ScheduleStays(Started(s, t), u);
    case Wait(t, id, i) => WaitStays(s, t, id, i, u);
    case SuspendThread(t) => SuspendStays(s, t, u);
    case ResumeThread(t) => ResumeStays(s, t, u);
    case Timeout(t) => ResumeStays(s, t, u); ScheduleStays(Resume(s, t), u);
    case Exit(detach) => ExitStays(s, detach, u); ScheduleStays(Exited(s, detach), u);
    case Yield => YieldStays(s, u);
    case Tick => SliceTickKeeps(s); YieldStays(SliceTick(s), u);
    case ChangePriority(t, p) => PrioStays(s, t, p, u);
    case ExitCritical => ScheduleStays(s.(lockNest := 0), u);
    case Reschedule => ScheduleStays(s, u);
    case _ =>
  }

  lemma RegionStays(r: State, e: Region, u: Tid)
    requires RInv(r) && CanDo(r, e) && u in r.s.thr && !Moves(r.s, e, u)
    requires Continues(e) ==> u != r.ops[e.c].t
    ensures Stays(r.s, After(r, e), u)
  {
    match e
    case Whole(w) => WholeStays(r.s, w, u);
    case SuspendRegion(c) => SuspendStays(r.s, r.ops[c].t, u);
    case ExitRegion(detach) => ExitStays(r.s, detach, u);
    case YieldRegion => YieldStays(r.s, u);
    case _ =>
  }

  /** As long as nobody else moves a thread that is being resumed or suspended, every region keeps the
      invariant, and what the open operations have found stays true. */
  lemma RegionKeeps(r: State, e: Region)
    requires RInv(r) && CanDo(r, e) && Alone(r, e)
    ensures RInv(Do(r, e))
  {
    var r' := Do(r, e);
    if Continues(e) { assert Current(r.s, r.ops[e.c]); }
    RegionKeepsExactly(r, e);
    OneEach(r, e);
    forall c | c in r'.ops
      ensures Current(r'.s, r'.ops[c])
    {
      OpKeeps(r, e, c);
    }
  }

  lemma OneEach(r: State, e: Region)
    requires RInv(r) && CanDo(r, e) && Alone(r, e)
    ensures var r' := Do(r, e); forall c, d :: c in r'.ops && d in r'.ops && r'.ops[c].t == r'.ops[d].t ==> c == d
  {
  }

  lemma OpKeeps(r: State, e: Region, c: Context)
    requires RInv(r) && CanDo(r, e) && Alone(r, e) && c in Do(r, e).ops
    ensures Current(Do(r, e).s, Do(r, e).ops[c])
  {
    if c in r.ops && !(Continues(e) && c == e.c) {
      assert Current(r.s, r.ops[c]);
      RegionStays(r, e, r.ops[c].t);
    } else if Continues(e) {
      assert Current(r.s, r.ops[e.c]);
    }
  }

  ghost predicate CanRun(r: State, es: seq<Region>)
    requires RInv(r)
    decreases |es|
  {
    es == [] || (CanDo(r, es[0]) && Alone(r, es[0]) && (RegionKeeps(r, es[0]); CanRun(Do(r, es[0]), es[1..])))
  }

  ghost function Run(r: State, es: seq<Region>): State
    requires RInv(r) && CanRun(r, es)
    decreases |es|
  {
    if es == [] then r else (RegionKeeps(r, es[0]); Run(Do(r, es[0]), es[1..]))
  }

  lemma {:induction false} RunKeeps(r: State, es: seq<Region>)
    requires RInv(r) && CanRun(r, es)
    ensures RInv(Run(r, es))
    decreases |es|
  {
    if es != [] {
      RegionKeeps(r, es[0]);
      RunKeeps(Do(r, es[0]), es[1..]);
    }
  }

  ghost function Boot(idle: Tid): State { State(Scheduler.Boot(idle), map[]) }

  lemma BootKeeps(idle: Tid)
    ensures RInv(Boot(idle))
  {
    BootInv(idle);
  }

  /** In every interleaving of regions from rt_system_scheduler_init on in which nobody else moves a
      thread that is being resumed or suspended: a bit of the ready group is set exactly when its ring is
      not empty, a thread is in the ring of its current priority exactly when it is READY, and no thread
      is in two rings. */
  lemma ReadySetEver(idle: Tid, es: seq<Region>)
    requires (BootKeeps(idle); CanRun(Boot(idle), es))
    ensures (BootKeeps(idle); ReadySet(Run(Boot(idle), es).s))
  {
    BootKeeps(idle);
    RunKeeps(Boot(idle), es);
    ReadySetIs(Run(Boot(idle), es).s);
  }

  // ---------------------------------------------------------------- undisturbed, and disturbed

  /** Undisturbed, the regions of rt_thread_resume are the resume step. */
  lemma ResumeUndisturbed(r: State, c: Context, t: Tid)
    requires Inv(r.s) && c !in r.ops && t in r.s.thr
    ensures var r1 := Do(r, ResumeTest(c, t));
      if r.s.thr[t].stat != Suspended then r1 == r && Resume(r.s, t) == r.s
      else
        && Inv(r1.s) && CanDo(r1, ResumeUnlink(c)) && Inv(Do(r1, ResumeUnlink(c)).s)
        && CanDo(Do(r1, ResumeUnlink(c)), ResumeInsert(c))
        && Do(Do(r1, ResumeUnlink(c)), ResumeInsert(c)) == State(Resume(r.s, t), r.ops)
  {
    if r.s.thr[t].stat == Suspended {
      UnlinkExactly(r.s, t);
      assert r.ops[c := Tested(t)][c := Unlinked(t)] - {c} == r.ops;
    }
  }

  /** Two contexts resume one suspended thread, both testing before either unlinks it: when the first
      is through, the second takes the thread out of its ring although it is READY. */
  lemma ResumedTwice(r: State, c: Context, d: Context, t: Tid)
    requires Inv(r.s) && c !in r.ops && d !in r.ops && c != d && t in r.s.thr && r.s.thr[t].stat == Suspended
    ensures CanDo(r, ResumeTest(c, t)) && CanDo(Do(r, ResumeTest(c, t)), ResumeTest(d, t))
    ensures var r2 := Do(Do(r, ResumeTest(c, t)), ResumeTest(d, t));
      && Inv(r2.s) && CanDo(r2, ResumeUnlink(c)) && var r3 := Do(r2, ResumeUnlink(c));
      && Inv(r3.s) && CanDo(r3, ResumeInsert(c)) && var r4 := Do(r3, ResumeInsert(c));
      && Inv(r4.s) && CanDo(r4, ResumeUnlink(d)) && !Inv(Do(r4, ResumeUnlink(d)).s)
  {
    var r2 := Do(Do(r, ResumeTest(c, t)), ResumeTest(d, t));
    UnlinkExactly(r.s, t);
    ResumeKeeps(r.s, t);
    var r3 := Do(r2, ResumeUnlink(c));
    var r4 := Do(r3, ResumeInsert(c));
    assert r4.s == Resume(r.s, t);
    UnlinkExactly(r4.s, t);
  }
}

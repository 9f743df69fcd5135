/**
  The scheduler (scheduler.c) and the thread operations that feed it (thread.c): a 32-bit ready group,
  one ring of ready threads per priority, and the rings of threads that wait.
*/
module Scheduler {
  import opened Bits
  import opened Hiding
  import opened IpcList
  import opened Lists

  datatype RingId = ReadyRing(p: Priority) | WaitRing(id: nat) | DefunctRing

  datatype Stat = Initial | Ready | Suspended | Closed

  /** current_priority, init_priority, init_tick and remaining_tick of a thread. */
  datatype Thread = Thread(stat: Stat, prio: Priority, initPrio: Priority, slice: nat, remaining: nat)

  datatype Current = Nobody | Runs(tid: Tid)

  /** `rings` lists the threads of every ring, first in line first; `bits` is the ready group. */
  datatype Sched = Sched(thr: map<Tid, Thread>, rings: map<RingId, seq<Tid>>, bits: iset<Priority>,
                         current: Current, currentPrio: Priority, lockNest: int, idle: Tid)

  /** rt_scheduler_lock_nest is a 16-bit signed counter. */
  function Wrap16(n: int): int { (n + 0x8000) % 0x1_0000 - 0x8000 }

  function Ring(s: Sched, r: RingId): seq<Tid> { if r in s.rings then s.rings[r] else [] }

  // ---------------------------------------------------------------- the steps

  /** rt_schedule_insert_thread. */
  ghost function Insert(s: Sched, t: Tid): Sched
    requires t in s.thr
  {
    var ring := ReadyRing(s.thr[t].prio);
    s.(thr := s.thr[t := s.thr[t].(stat := Ready)], rings := s.rings[ring := Ring(s, ring) + [t]],
       bits := s.bits + iset{s.thr[t].prio})
  }

  function Without(rings: map<RingId, seq<Tid>>, t: Tid): map<RingId, seq<Tid>> {
    map r | r in rings :: Unlink(rings[r], t)
  }

  /** rt_schedule_remove_thread. */
  ghost function Remove(s: Sched, t: Tid): Sched
    requires t in s.thr
  {
    var s1 := s.(rings := Without(s.rings, t));
    if Ring(s1, ReadyRing(s.thr[t].prio)) == [] then s1.(bits := s.bits - iset{s.thr[t].prio}) else s1
  }

  ghost function SetStat(s: Sched, t: Tid, stat: Stat): Sched
    requires t in s.thr
  {
    s.(thr := s.thr[t := s.thr[t].(stat := stat)])
  }

  ghost function SetPrio(s: Sched, t: Tid, p: Priority): Sched
    requires t in s.thr
  {
    s.(thr := s.thr[t := s.thr[t].(prio := p)])
  }

  /** rt_thread_suspend; a thread that is not ready is left alone. */
  ghost function Suspend(s: Sched, t: Tid): Sched
    requires t in s.thr
  {
    if s.thr[t].stat != Ready then s else Remove(SetStat(s, t, Suspended), t)
  }

  /** rt_ipc_list_suspend: suspend, then link into a wait list in front of its i-th thread. */
  ghost function SuspendOn(s: Sched, t: Tid, id: nat, i: nat): Sched
    requires t in s.thr && i <= |Ring(s, WaitRing(id))|
  {
    var list := Ring(s, WaitRing(id));
    var s1 := Suspend(s, t);
    s1.(rings := s1.rings[WaitRing(id) := list[..i] + [t] + list[i..]])
  }

  /** rt_thread_resume; a thread that is not suspended is left alone. */
  ghost function Resume(s: Sched, t: Tid): Sched
    requires t in s.thr
  {
    if s.thr[t].stat != Suspended then s else Insert(s.(rings := Without(s.rings, t)), t)
  }

  /** rt_thread_control(RT_THREAD_CTRL_CHANGE_PRIORITY). */
  ghost function ChangePrio(s: Sched, t: Tid, p: Priority): Sched
    requires t in s.thr
  {
    if s.thr[t].stat == Ready then Insert(SetPrio(Remove(s, t), t, p), t) else SetPrio(s, t, p)
  }

  /** The scheduler needs a bit in the ready group, and a thread in the ring it stands for. */
  ghost predicate CanSchedule(s: Sched) {
    s.lockNest == 0 ==> Least(s.bits, 0) in s.bits && Ring(s, ReadyRing(Least(s.bits, 0))) != []
  }

  /** rt_schedule. */
  ghost function Schedule(s: Sched): Sched
    requires CanSchedule(s)
  {
    if s.lockNest != 0 then s
    else
      var p := Least(s.bits, 0);
      var to := Ring(s, ReadyRing(p))[0];
      if s.current == Runs(to) then s else s.(current := Runs(to), currentPrio := p)
  }

  /** rt_thread_startup before it schedules. */
  ghost function Started(s: Sched, t: Tid): Sched
    requires t in s.thr
  {
    Resume(SetStat(SetPrio(s, t, s.thr[t].initPrio), t, Suspended), t)
  }

  /** rt_thread_yield before it schedules. */
  ghost function Yielded(s: Sched): Sched
    requires s.current.Runs? && s.current.tid in s.thr
  {
    var t := s.current.tid;
    var ring := ReadyRing(s.thr[t].prio);
    if s.thr[t].stat == Ready && |Ring(s, ring)| >= 2
    then s.(rings := Without(s.rings, t)[ring := Unlink(Ring(s, ring), t) + [t]])
    else s
  }

  /** rt_thread_exit before it schedules; `detach` is a static thread without cleanup. */
  ghost function Exited(s: Sched, detach: bool): Sched
    requires s.current.Runs? && s.current.tid in s.thr
  {
    var t := s.current.tid;
    var s1 := SetStat(Remove(s, t), t, Closed);
    if detach then s1 else s1.(rings := s1.rings[DefunctRing := [t] + Ring(s1, DefunctRing)])
  }

  /** The time slice part of rt_tick_increase, before it yields. */
  ghost function SliceTick(s: Sched): Sched
    requires s.current.Runs? && s.current.tid in s.thr && s.thr[s.current.tid].remaining > 0
  {
    var t := s.current.tid;
    var left := s.thr[t].remaining - 1;
    s.(thr := s.thr[t := s.thr[t].(remaining := if left == 0 then s.thr[t].slice else left)])
  }

  // ---------------------------------------------------------------- the invariant

  ghost predicate Shape(rings: map<RingId, seq<Tid>>) {
    && (forall p: Priority :: ReadyRing(p) in rings) && DefunctRing in rings
    && (forall r :: r in rings ==> NoDup(rings[r]))
    && (forall r, q, t :: r in rings && q in rings && t in rings[r] && t in rings[q] ==> r == q)
  }

  ghost predicate Tracks(bits: iset<Priority>, rings: map<RingId, seq<Tid>>) {
    forall p: Priority :: p in bits <==> ReadyRing(p) in rings && rings[ReadyRing(p)] != []
  }

  /** Bit p of the ready group is set exactly when the ring of priority p has a thread. */
  ghost predicate Bitmap(s: Sched) { Tracks(s.bits, s.rings) }

  /** Where a thread may stand. */
  predicate Place(th: Thread, r: RingId) {
    match r
    case ReadyRing(p) => th.stat == Ready && th.prio == p
    case WaitRing(_) => th.stat == Suspended
    case DefunctRing => th.stat == Closed
  }

  /** The thread is READY exactly when it is in the ring of its current priority, and in no other ring. */
  ghost predicate Placed(th: Thread, rings: map<RingId, seq<Tid>>, t: Tid) {
    && (forall r :: r in rings && t in rings[r] ==> Place(th, r))
    && (th.stat == Ready ==> ReadyRing(th.prio) in rings && t in rings[ReadyRing(th.prio)])
  }

  predicate Sliced(th: Thread) {
    1 <= th.remaining <= th.slice
  }

  ghost predicate Known(s: Sched) {
    forall r, t :: r in s.rings && t in s.rings[r] ==> t in s.thr
  }

  ghost predicate Running(s: Sched) {
    s.current.Runs? ==> s.current.tid in s.thr && s.idle in s.thr && s.thr[s.idle].stat == Ready
  }

  ghost predicate Inv(s: Sched) {
    && Shape(s.rings) && Bitmap(s) && Known(s) && Running(s)
    && (forall t :: t in s.thr ==> Placed(s.thr[t], s.rings, t) && Sliced(s.thr[t]))
  }

  /** The invariant of all threads but `t`, which is in no ring and may have any state. */
  ghost predicate InvBut(s: Sched, t: Tid) {
    && Shape(s.rings) && Bitmap(s) && Known(s) && t in s.thr
    && (forall r :: r in s.rings ==> t !in s.rings[r])
    && (forall u :: u in s.thr && u != t ==> Placed(s.thr[u], s.rings, u) && Sliced(s.thr[u]))
  }

  // ---------------------------------------------------------------- insert and remove

  lemma WithoutShape(rings: map<RingId, seq<Tid>>, t: Tid)
    requires Shape(rings)
    ensures Shape(Without(rings, t))
    ensures forall r :: r in rings ==> t !in Without(rings, t)[r]
  {
    forall r | r in rings
      ensures NoDup(Without(rings, t)[r])
    {
      UnlinkNoDup(rings[r], t);
    }
  }

  lemma TracksInsert(bits: iset<Priority>, rings: map<RingId, seq<Tid>>, p: Priority, list: seq<Tid>)
    requires Tracks(bits, rings) && list != []
    ensures Tracks(bits + iset{p}, rings[ReadyRing(p) := list])
  {
  }

  /** Clearing the bit of a ring that has run empty keeps the bitmap exact; a ring that another thread
      keeps non-empty keeps its bit. */
  lemma TracksRemove(bits: iset<Priority>, rings: map<RingId, seq<Tid>>, rings': map<RingId, seq<Tid>>, p: Priority, t: Tid)
    requires Tracks(bits, rings) && rings' == Without(rings, t) && ReadyRing(p) in rings
    requires forall r :: r in rings && t in rings[r] ==> r == ReadyRing(p)
    ensures Tracks(if rings'[ReadyRing(p)] == [] then bits - iset{p} else bits, rings')
  {
    forall q: Priority
      ensures ReadyRing(q) in rings && q != p ==> rings'[ReadyRing(q)] == rings[ReadyRing(q)]
    {
      if ReadyRing(q) in rings && q != p { UnlinkAbsent(rings[ReadyRing(q)], t); }
    }
  }

  /** The rings after a thread that was in none is linked in at the end of one. */
  lemma AppendShape(rings: map<RingId, seq<Tid>>, r: RingId, t: Tid)
    requires Shape(rings) && r in rings && forall q :: q in rings ==> t !in rings[q]
    ensures Shape(rings[r := rings[r] + [t]])
    ensures forall q, u :: q in rings ==> (u in rings[r := rings[r] + [t]][q] <==> u in rings[q] || (q == r && u == t))
  {
    assert NoDup(rings[r] + [t]);
    assert forall x :: x in rings[r] + [t] <==> x in rings[r] || x == t;
  }

  lemma InsertKeeps(s: Sched, t: Tid)
    requires InvBut(s, t) && Sliced(s.thr[t])
    requires s.current.Runs? ==> s.current.tid in s.thr && s.idle in s.thr && (s.idle == t || s.thr[s.idle].stat == Ready)
    ensures Inv(Insert(s, t))
  {
    var s', ring := Insert(s, t), ReadyRing(s.thr[t].prio);
    TracksInsert(s.bits, s.rings, s.thr[t].prio, Ring(s, ring) + [t]);
    AppendShape(s.rings, ring, t);
    forall u | u in s'.thr
      ensures Placed(s'.thr[u], s'.rings, u) && Sliced(s'.thr[u])
    {
      if u != t { assert Placed(s.thr[u], s.rings, u); }
    }
  }

  lemma RemoveKeeps(s: Sched, t: Tid)
    requires Shape(s.rings) && Bitmap(s) && Known(s) && t in s.thr
    requires forall r :: r in s.rings && t in s.rings[r] ==> r == ReadyRing(s.thr[t].prio)
    requires forall u :: u in s.thr && u != t ==> Placed(s.thr[u], s.rings, u) && Sliced(s.thr[u])
    ensures InvBut(Remove(s, t), t)
  {
    var s' := Remove(s, t);
    WithoutShape(s.rings, t);
    assert ReadyRing(s.thr[t].prio) in s.rings;
    TracksRemove(s.bits, s.rings, s'.rings, s.thr[t].prio, t);
    forall u | u in s'.thr && u != t
      ensures Placed(s'.thr[u], s'.rings, u) && Sliced(s'.thr[u])
    {
      assert Placed(s.thr[u], s.rings, u);
    }
  }

  // ---------------------------------------------------------------- every operation keeps the invariant

  /** Apart from `t`, and from where `t` stands, nothing of the invariant looks at a thread record. */
  lemma ThreadChange(s: Sched, t: Tid, th: Thread)
    requires InvBut(s, t)
    ensures InvBut(s.(thr := s.thr[t := th]), t)
  {
    var s' := s.(thr := s.thr[t := th]);
    forall u | u in s'.thr && u != t
      ensures Placed(s'.thr[u], s'.rings, u) && Sliced(s'.thr[u])
    {
      assert Placed(s.thr[u], s.rings, u);
    }
  }

  /** A thread in no ring may become a thread that is not ready. */
  lemma SettleKeeps(s: Sched, t: Tid, th: Thread)
    requires InvBut(s, t) && th.stat != Ready && Sliced(th)
    requires s.current.Runs? ==> s.current.tid in s.thr && s.idle in s.thr && s.idle != t && s.thr[s.idle].stat == Ready
    ensures Inv(s.(thr := s.thr[t := th]))
  {
    ThreadChange(s, t, th);
  }

  lemma SuspendKeeps(s: Sched, t: Tid)
    requires Inv(s) && t in s.thr && !(s.current.Runs? && t == s.idle)
    ensures Inv(Suspend(s, t))
  {
    if s.thr[t].stat == Ready { SuspendLoose(s, t); }
  }

  /** The rings after a thread that was in none is linked into one. */
  lemma LinkShape(rings: map<RingId, seq<Tid>>, r: RingId, a: seq<Tid>, b: seq<Tid>, t: Tid)
    requires Shape(rings) && r in rings && rings[r] == a + b && forall q :: q in rings ==> t !in rings[q]
    ensures Shape(rings[r := a + [t] + b])
    ensures forall q, u :: q in rings ==> (u in rings[r := a + [t] + b][q] <==> u in rings[q] || (q == r && u == t))
  {
    var c := a + [t] + b;
    assert forall x :: x in c <==> x in rings[r] || x == t;
    forall i, j | 0 <= i < j < |c|
      ensures c[i] != c[j]
    {
      assert t !in rings[r];
      assert i != |a| ==> c[i] == rings[r][if i < |a| then i else i - 1];
      assert j != |a| ==> c[j] == rings[r][if j < |a| then j else j - 1];
    }
  }

  /** A thread in no ring goes into a ring where it may stand. */
  lemma LinkKeeps(s: Sched, r: RingId, a: seq<Tid>, b: seq<Tid>, t: Tid)
    requires InvBut(s, t) && Running(s) && !r.ReadyRing? && r in s.rings && s.rings[r] == a + b
    requires Place(s.thr[t], r) && Sliced(s.thr[t])
    ensures Inv(s.(rings := s.rings[r := a + [t] + b]))
  {
    var s' := s.(rings := s.rings[r := a + [t] + b]);
    LinkShape(s.rings, r, a, b, t);
    forall u | u in s'.thr
      ensures Placed(s'.thr[u], s'.rings, u) && Sliced(s'.thr[u])
    {
      if u != t { assert Placed(s.thr[u], s.rings, u); }
    }
  }

  lemma SuspendOnKeeps(s: Sched, t: Tid, id: nat, i: nat)
    requires Inv(s) && t in s.thr && s.thr[t].stat == Ready && !(s.current.Runs? && t == s.idle)
    requires WaitRing(id) in s.rings && i <= |s.rings[WaitRing(id)]|
    ensures Inv(SuspendOn(s, t, id, i))
  {
    var list := s.rings[WaitRing(id)];
    SuspendLoose(s, t);
    assert Placed(s.thr[t], s.rings, t);
    UnlinkAbsent(list, t);
    assert list == list[..i] + list[i..];
    LinkKeeps(Suspend(s, t), WaitRing(id), list[..i], list[i..], t);
  }

  lemma SuspendLoose(s: Sched, t: Tid)
    requires Inv(s) && t in s.thr && s.thr[t].stat == Ready && !(s.current.Runs? && t == s.idle)
    ensures InvBut(Suspend(s, t), t) && Running(Suspend(s, t)) && Sliced(Suspend(s, t).thr[t])
  {
    assert Placed(s.thr[t], s.rings, t) && Sliced(s.thr[t]);
    RemoveKeeps(s, t);
    ThreadChange(Remove(s, t), t, s.thr[t].(stat := Suspended));
  }

  /** Taking a suspended or loose thread out of whatever list it is in. */
  lemma DetachKeeps(s: Sched, t: Tid)
    requires Inv(s) && t in s.thr && s.thr[t].stat != Ready
    ensures InvBut(s.(rings := Without(s.rings, t)), t)
  {
    var s' := s.(rings := Without(s.rings, t));
    assert Placed(s.thr[t], s.rings, t);
    WithoutShape(s.rings, t);
    forall p: Priority
      ensures ReadyRing(p) in s.rings && s'.rings[ReadyRing(p)] == s.rings[ReadyRing(p)]
    {
      UnlinkAbsent(s.rings[ReadyRing(p)], t);
    }
    forall u | u in s'.thr && u != t
      ensures Placed(s'.thr[u], s'.rings, u) && Sliced(s'.thr[u])
    {
      assert Placed(s.thr[u], s.rings, u);
    }
  }

  lemma ResumeKeeps(s: Sched, t: Tid)
    requires Inv(s) && t in s.thr
    ensures Inv(Resume(s, t))
    ensures s.thr[t].stat == Suspended ==> Resume(s, t).thr[t].stat == Ready
  {
    if s.thr[t].stat == Suspended {
      assert Sliced(s.thr[t]);
      DetachKeeps(s, t);
      InsertKeeps(s.(rings := Without(s.rings, t)), t);
    }
  }

  lemma StartedKeeps(s: Sched, t: Tid)
    requires Inv(s) && t in s.thr && s.thr[t].stat == Initial
    ensures Inv(Started(s, t))
  {
    var s1 := SetStat(SetPrio(s, t, s.thr[t].initPrio), t, Suspended);
    assert Sliced(s.thr[t]);
    LooseIsOut(s, t);
    SettleKeeps(s, t, s1.thr[t]);
    assert s1 == s.(thr := s.thr[t := s1.thr[t]]);
    ResumeKeeps(s1, t);
  }

  /** A thread that was never started is in no ring. */
  lemma LooseIsOut(s: Sched, t: Tid)
    requires Inv(s) && t in s.thr && s.thr[t].stat == Initial
    ensures InvBut(s, t)
  {
    assert Placed(s.thr[t], s.rings, t);
    forall r | r in s.rings
      ensures t !in s.rings[r]
    {
    }
  }

  lemma ChangePrioKeeps(s: Sched, t: Tid, p: Priority)
    requires Inv(s) && t in s.thr
    ensures Inv(ChangePrio(s, t, p))
  {
    assert Placed(s.thr[t], s.rings, t) && Sliced(s.thr[t]);
    if s.thr[t].stat == Ready {
      RemoveKeeps(s, t);
      ThreadChange(Remove(s, t), t, s.thr[t].(prio := p));
      InsertKeeps(SetPrio(Remove(s, t), t, p), t);
    } else {
      IdlePrioKeeps(s, t, p);
    }
  }

  lemma IdlePrioKeeps(s: Sched, t: Tid, p: Priority)
    requires Inv(s) && t in s.thr && s.thr[t].stat != Ready
    ensures Inv(SetPrio(s, t, p))
  {
    var s' := SetPrio(s, t, p);
    forall u | u in s'.thr
      ensures Placed(s'.thr[u], s'.rings, u) && Sliced(s'.thr[u])
    {
      assert Placed(s.thr[u], s.rings, u);
    }
  }

  /** The ring after its thread `t` went to the end. */
  lemma RotateShape(rings: map<RingId, seq<Tid>>, r: RingId, t: Tid)
    requires Shape(rings) && r in rings && t in rings[r]
    ensures Shape(Without(rings, t)[r := Unlink(rings[r], t) + [t]])
    ensures forall q, u :: q in rings ==> (u in Without(rings, t)[r := Unlink(rings[r], t) + [t]][q] <==> u in rings[q])
  {
    WithoutShape(rings, t);
    AppendShape(Without(rings, t), r, t);
  }

  lemma YieldedKeeps(s: Sched)
    requires Inv(s) && s.current.Runs?
    ensures Inv(Yielded(s))
  {
    var t := s.current.tid;
    var ring := ReadyRing(s.thr[t].prio);
    assert Placed(s.thr[t], s.rings, t);
    if s.thr[t].stat == Ready && |Ring(s, ring)| >= 2 {
      var s' := Yielded(s);
      RotateShape(s.rings, ring, t);
      RotateTracks(s.bits, s.rings, s.thr[t].prio, t);
      forall u | u in s'.thr
        ensures Placed(s'.thr[u], s'.rings, u) && Sliced(s'.thr[u])
      {
        assert Placed(s.thr[u], s.rings, u);
      }
    }
  }

  lemma RotateTracks(bits: iset<Priority>, rings: map<RingId, seq<Tid>>, p: Priority, t: Tid)
    requires Tracks(bits, rings) && ReadyRing(p) in rings && t in rings[ReadyRing(p)]
    requires forall r :: r in rings && t in rings[r] ==> r == ReadyRing(p)
    ensures Tracks(bits, Without(rings, t)[ReadyRing(p) := Unlink(rings[ReadyRing(p)], t) + [t]])
  {
    forall q: Priority | ReadyRing(q) in rings && q != p
      ensures Without(rings, t)[ReadyRing(q)] == rings[ReadyRing(q)]
    {
      UnlinkAbsent(rings[ReadyRing(q)], t);
    }
  }

  lemma ClosedLoose(s: Sched, t: Tid)
    requires Inv(s) && t in s.thr && s.thr[t].stat == Ready && !(s.current.Runs? && t == s.idle)
    ensures var s1 := SetStat(Remove(s, t), t, Closed);
      InvBut(s1, t) && Running(s1) && Sliced(s1.thr[t]) && s1.thr[t].stat == Closed && DefunctRing in s1.rings
  {
    assert Placed(s.thr[t], s.rings, t) && Sliced(s.thr[t]);
    RemoveKeeps(s, t);
    ThreadChange(Remove(s, t), t, s.thr[t].(stat := Closed));
  }

  lemma DetachedKeeps(s: Sched, t: Tid)
    requires InvBut(s, t) && Running(s) && Sliced(s.thr[t]) && s.thr[t].stat == Closed
    ensures Inv(s)
  {
  }

  lemma DefunctKeeps(s: Sched, t: Tid)
    requires InvBut(s, t) && Running(s) && Sliced(s.thr[t]) && s.thr[t].stat == Closed && DefunctRing in s.rings
    ensures Inv(s.(rings := s.rings[DefunctRing := [t] + s.rings[DefunctRing]]))
  {
    var list := s.rings[DefunctRing];
    assert [] + list == list && [] + [t] + list == [t] + list;
    LinkKeeps(s, DefunctRing, [], list, t);
  }

  lemma ExitedKeeps(s: Sched, detach: bool)
    requires Inv(s) && s.current.Runs? && s.current.tid != s.idle && s.thr[s.current.tid].stat == Ready
    ensures Inv(Exited(s, detach))
  {
    var t := s.current.tid;
    var s1 := SetStat(Remove(s, t), t, Closed);
    ClosedLoose(s, t);
    if detach { DetachedKeeps(s1, t); } else { DefunctKeeps(s1, t); }
  }

  lemma SliceTickKeeps(s: Sched)
    requires Inv(s) && s.current.Runs?
    ensures s.thr[s.current.tid].remaining > 0 && Inv(SliceTick(s))
  {
    assert Sliced(s.thr[s.current.tid]);
    var s' := SliceTick(s);
    forall u | u in s'.thr
      ensures Placed(s'.thr[u], s'.rings, u) && Sliced(s'.thr[u])
    {
      assert Placed(s.thr[u], s.rings, u);
    }
  }

  // ---------------------------------------------------------------- choosing a thread

  /** `c` is READY, no READY thread is more urgent, and it is first in line among its equals. */
  ghost predicate Heads(s: Sched, c: Tid) {
    && c in s.thr && s.thr[c].stat == Ready
    && ReadyRing(s.thr[c].prio) in s.rings && s.rings[ReadyRing(s.thr[c].prio)] != []
    && c == s.rings[ReadyRing(s.thr[c].prio)][0]
    && (forall u :: u in s.thr && s.thr[u].stat == Ready ==> s.thr[c].prio <= s.thr[u].prio)
  }

  ghost predicate UrgentRuns(s: Sched) { s.current.Runs? && Heads(s, s.current.tid) }

  /** The head of the ring of the lowest set bit. */
  ghost function FirstOf(s: Sched): Tid {
    var ring := Ring(s, ReadyRing(Least(s.bits, 0)));
    if ring == [] then s.idle else ring[0]
  }

  lemma FirstHeads(s: Sched)
    requires Inv(s) && s.idle in s.thr && s.thr[s.idle].stat == Ready
    ensures Least(s.bits, 0) in s.bits && Ring(s, ReadyRing(Least(s.bits, 0))) != [] && Heads(s, FirstOf(s))
  {
    var i := s.idle;
    assert Placed(s.thr[i], s.rings, i);
    assert s.thr[i].prio in s.bits;
    LeastIsLeast(s.bits, 0, s.thr[i].prio);
    var p := Least(s.bits, 0);
    var ring := s.rings[ReadyRing(p)];
    var c := ring[0];
    assert c in ring && Placed(s.thr[c], s.rings, c);
    assert Place(s.thr[c], ReadyRing(p));
    forall u | u in s.thr && s.thr[u].stat == Ready
      ensures p <= s.thr[u].prio
    {
      assert Placed(s.thr[u], s.rings, u);
      LeastIsLeast(s.bits, 0, s.thr[u].prio);
    }
  }

  /** rt_schedule: with the lock open, the thread that runs is the most urgent one, first in line among
      its equals; with the lock closed nothing changes. */
  lemma ScheduleKeeps(s: Sched)
    requires Inv(s) && s.current.Runs?
    ensures CanSchedule(s) && Inv(Schedule(s)) && Schedule(s).current.Runs?
    ensures s.lockNest == 0 ==> UrgentRuns(Schedule(s))
  {
    FirstHeads(s);
  }

  // ---------------------------------------------------------------- whole runs

  datatype Event =
    | Create(t: Tid, p: Priority, slice: nat)       // _rt_thread_init
    | InitList(id: nat)                             // an IPC object's wait list
    | Startup(t: Tid)
    | Start                                         // rt_system_scheduler_start
    | SuspendThread(t: Tid)
    | Wait(t: Tid, id: nat, i: nat)
    | ResumeThread(t: Tid)
    | Timeout(t: Tid)
    | Yield
    | ChangePriority(t: Tid, p: Priority)
    | Exit(detach: bool)
    | Reschedule
    | EnterCritical
    | ExitCritical
    | Tick

  ghost predicate Enabled(s: Sched, e: Event) {
    match e
    case Create(t, _, slice) => t !in s.thr && slice > 0
    case InitList(id) => WaitRing(id) !in s.rings
    case Startup(t) => t in s.thr && s.thr[t].stat == Initial
    case Start => s.current == Nobody && s.idle in s.thr && s.thr[s.idle].stat == Ready
    case SuspendThread(t) => t in s.thr && !(s.current.Runs? && t == s.idle)
    case Wait(t, id, i) =>
      && t in s.thr && s.thr[t].stat == Ready && !(s.current.Runs? && t == s.idle)
      && WaitRing(id) in s.rings && i <= |s.rings[WaitRing(id)]|
    case ResumeThread(t) => t in s.thr
    case Timeout(t) => s.current.Runs? && t in s.thr && s.thr[t].stat == Suspended
    case ChangePriority(t, _) => t in s.thr
    case Exit(_) => s.current.Runs? && s.current.tid != s.idle && s.current.tid in s.thr && s.thr[s.current.tid].stat == Ready
    case EnterCritical => true
    case Yield => s.current.Runs?
    case Reschedule => s.current.Runs?
    case ExitCritical => s.current.Runs?
    case Tick => s.current.Runs?
  }

  /** rt_schedule, as far as there is a running thread to switch from. */
  ghost function Then(s: Sched): Sched { if s.current.Runs? && CanSchedule(s) then Schedule(s) else s }

  ghost function DoYield(s: Sched): Sched
    requires s.current.Runs? && s.current.tid in s.thr
  {
    if s.thr[s.current.tid].stat == Ready && |Ring(s, ReadyRing(s.thr[s.current.tid].prio))| >= 2
    then Then(Yielded(s)) else s
  }

  ghost function DoTick(s: Sched): Sched
    requires s.current.Runs? && s.current.tid in s.thr && s.thr[s.current.tid].remaining > 0
  {
    if s.thr[s.current.tid].remaining == 1 then DoYield(SliceTick(s)) else SliceTick(s)
  }

  /** rt_exit_critical. */
  ghost function DoUnlock(s: Sched): Sched {
    var n := Wrap16(s.lockNest - 1);
    if n <= 0 then Then(s.(lockNest := 0)) else s.(lockNest := n)
  }

  ghost function Do(s: Sched, e: Event): Sched
    requires Inv(s) && Enabled(s, e)
  {
    match e
    case Create(t, p, slice) => s.(thr := s.thr[t := Thread(Initial, p, p, slice, slice)])
    case InitList(id) => s.(rings := s.rings[WaitRing(id) := []])
    case Startup(t) => Then(Started(s, t))
    case Start => s.(current := Runs(FirstOf(s)))
    case SuspendThread(t) => Suspend(s, t)
    case Wait(t, id, i) => SuspendOn(s, t, id, i)
    case ResumeThread(t) => Resume(s, t)
    case Timeout(t) => Then(Resume(s, t))
    case Yield => DoYield(s)
    case ChangePriority(t, p) => ChangePrio(s, t, p)
    case Exit(detach) => Then(Exited(s, detach))
    case Reschedule => Then(s)
    case EnterCritical => s.(lockNest := Wrap16(s.lockNest + 1))
    case ExitCritical => DoUnlock(s)
    case Tick => (assert Sliced(s.thr[s.current.tid]); DoTick(s))
  }

  lemma StartKeeps(s: Sched)
    requires Inv(s) && Enabled(s, Start)
    ensures Inv(Do(s, Start)) && UrgentRuns(Do(s, Start))
  {
    FirstHeads(s);
  }

  lemma ThenKeeps(s: Sched)
    requires Inv(s)
    ensures Inv(Then(s)) && Then(s).lockNest == s.lockNest
    ensures s.current.Runs? && s.lockNest == 0 ==> UrgentRuns(Then(s))
  {
    if s.current.Runs? { ScheduleKeeps(s); }
  }

  lemma CreateKeeps(s: Sched, t: Tid, p: Priority, slice: nat)
    requires Inv(s) && t !in s.thr && slice > 0
    ensures Inv(s.(thr := s.thr[t := Thread(Initial, p, p, slice, slice)]))
  {
    var s' := s.(thr := s.thr[t := Thread(Initial, p, p, slice, slice)]);
    forall u | u in s'.thr
      ensures Placed(s'.thr[u], s'.rings, u)
    {
      if u != t { assert Placed(s.thr[u], s.rings, u); }
    }
  }

  lemma InitListKeeps(s: Sched, id: nat)
    requires Inv(s) && WaitRing(id) !in s.rings
    ensures Inv(s.(rings := s.rings[WaitRing(id) := []]))
  {
    var s' := s.(rings := s.rings[WaitRing(id) := []]);
    forall u | u in s'.thr
      ensures Placed(s'.thr[u], s'.rings, u)
    {
      assert Placed(s.thr[u], s.rings, u);
    }
  }

  lemma DoYieldKeeps(s: Sched)
    requires Inv(s) && s.current.Runs?
    ensures Inv(DoYield(s))
  {
    YieldedKeeps(s);
    ThenKeeps(Yielded(s));
  }

  /** Every operation keeps the invariant. */
  lemma StepKeepsInv(s: Sched, e: Event)
    requires Inv(s) && Enabled(s, e)
    ensures Inv(Do(s, e))
  {
    match e
    case Create(t, p, slice) => CreateKeeps(s, t, p, slice);
    case InitList(id) => InitListKeeps(s, id);
    case Startup(t) => StartedKeeps(s, t); ThenKeeps(Started(s, t));
    case Start => StartKeeps(s);
    case SuspendThread(t) => SuspendKeeps(s, t);
    case Wait(t, id, i) => SuspendOnKeeps(s, t, id, i);
    case ResumeThread(t) => ResumeKeeps(s, t);
    case Timeout(t) => ResumeKeeps(s, t); ThenKeeps(Resume(s, t));
    case Yield => DoYieldKeeps(s);
    case ChangePriority(t, p) => ChangePrioKeeps(s, t, p);
    case Exit(detach) => ExitedKeeps(s, detach); ThenKeeps(Exited(s, detach));
    case Reschedule => ThenKeeps(s);
    case EnterCritical =>
    case ExitCritical => ThenKeeps(s.(lockNest := 0));
    case Tick =>
      SliceTickKeeps(s);
      DoYieldKeeps(SliceTick(s));
  }

  ghost predicate EnabledRun(s: Sched, es: seq<Event>)
    requires Inv(s)
    decreases |es|
  {
    es == [] || (Enabled(s, es[0]) && (StepKeepsInv(s, es[0]); EnabledRun(Do(s, es[0]), es[1..])))
  }

  ghost function Run(s: Sched, es: seq<Event>): Sched
    requires Inv(s) && EnabledRun(s, es)
    decreases |es|
  {
    if es == [] then s else (StepKeepsInv(s, es[0]); Run(Do(s, es[0]), es[1..]))
  }

  /** The lists of rt_system_scheduler_init, up to priority `p`. */
  function EmptyRings(p: Priority): map<RingId, seq<Tid>>
    decreases p
  {
    (if p == 0 then map[DefunctRing := []] else EmptyRings(p - 1))[ReadyRing(p) := []]
  }

  lemma {:induction false} EmptyRingsAre(p: Priority)
    ensures DefunctRing in EmptyRings(p) && forall q: Priority :: ReadyRing(q) in EmptyRings(p) <==> q <= p
    ensures forall r :: r in EmptyRings(p) ==> EmptyRings(p)[r] == []
    decreases p
  {
    if p > 0 { EmptyRingsAre(p - 1); }
  }

  /** rt_system_scheduler_init. */
  ghost function Boot(idle: Tid): Sched {
    Sched(map[], EmptyRings(31), iset{}, Nobody, 31, 0, idle)
  }

  lemma BootInv(idle: Tid)
    ensures Inv(Boot(idle))
  {
    EmptyRingsAre(31);
  }

  lemma {:induction false} RunKeepsInv(s: Sched, es: seq<Event>)
    requires Inv(s) && EnabledRun(s, es)
    ensures Inv(Run(s, es))
    decreases |es|
  {
    if es != [] {
      StepKeepsInv(s, es[0]);
      RunKeepsInv(Do(s, es[0]), es[1..]);
    }
  }

  /** `n` calls of rt_enter_critical in a row. */
  ghost function Entered(s: Sched, n: nat): Sched {
    if n == 0 then s else var s1 := Entered(s, n - 1); s1.(lockNest := Wrap16(s1.lockNest + 1))
  }

  lemma {:induction false} EnteredCounts(s: Sched, n: nat)
    requires s.lockNest == 0
    ensures Entered(s, n) == s.(lockNest := Wrap16(n))
  {
    if n > 0 { EnteredCounts(s, n - 1); }
  }

  /** Up to the wrap of the counter and back, an exit after `n` calls opens the scheduler for the first of
      them only, exactly as long as there were no more than 0x8000. */
  lemma CriticalNestsExactly(s: Sched, n: nat)
    requires s.lockNest == 0 && 1 <= n <= 0x1_0000
    ensures (DoUnlock(Entered(s, n)).lockNest == 0 <==> n == 1) <==> n <= 0x8000
  {
    EnteredCounts(s, n);
  }

  /** From rt_system_scheduler_init on, in every run of whole operations: a bit of the ready group is set exactly
      when its ring is not empty; a thread is in the ring of its current priority exactly when it is
      READY; no thread is in two rings. */
  lemma ReadySetEver(idle: Tid, es: seq<Event>)
    requires (BootInv(idle); EnabledRun(Boot(idle), es))
    ensures (BootInv(idle); ReadySet(Run(Boot(idle), es)))
  {
    BootInv(idle);
    RunKeepsInv(Boot(idle), es);
    ReadySetIs(Run(Boot(idle), es));
  }

  /** The ready group, the ready rings and the states of the threads agree. */
  ghost predicate ReadySet(s: Sched) {
    && (forall p: Priority :: p in s.bits <==> Ring(s, ReadyRing(p)) != [])
    && (forall t :: t in s.thr ==> (s.thr[t].stat == Ready <==> t in Ring(s, ReadyRing(s.thr[t].prio))))
    && (forall r, q, t :: t in Ring(s, r) && t in Ring(s, q) ==> r == q)
  }

  lemma ReadySetIs(s: Sched)
    requires Inv(s)
    ensures ReadySet(s)
  {
    forall t | t in s.thr
      ensures s.thr[t].stat == Ready <==> t in Ring(s, ReadyRing(s.thr[t].prio))
    {
      assert Placed(s.thr[t], s.rings, t);
      if t in Ring(s, ReadyRing(s.thr[t].prio)) { assert Place(s.thr[t], ReadyRing(s.thr[t].prio)); }
    }
  }

  // ---------------------------------------------------------------- exactly what each step does

  /** Only the records named, the rings and the ready group differ. */
  ghost predicate Rearranged(s: Sched, s': Sched, thr: map<Tid, Thread>) { s' == s.(thr := thr, rings := s'.rings, bits := s'.bits) }

  /** The scheduler was called on the way from `s` to `s'`: with the lock open the thread that heads the ready
      threads runs, and with the lock closed, or before the scheduler was started, nothing is switched. */
  ghost predicate Switched(s: Sched, s': Sched) {
    if s.current.Runs? && s.lockNest == 0
    then UrgentRuns(s') && s'.currentPrio == (if s'.current == s.current then s.currentPrio else s'.thr[s'.current.tid].prio)
    else s'.current == s.current && s'.currentPrio == s.currentPrio
  }

  ghost predicate RearrangedAndSwitched(s: Sched, s': Sched, thr: map<Tid, Thread>) {
    Rearranged(s, s'.(current := s.current, currentPrio := s.currentPrio), thr) && Switched(s, s')
  }

  lemma ThenSwitches(s: Sched, s0: Sched, thr: map<Tid, Thread>)
    requires Inv(s) && Rearranged(s0, s, thr)
    ensures RearrangedAndSwitched(s0, Then(s), thr) && Then(s).rings == s.rings
  {
    ThenKeeps(s);
    if s.current.Runs? && s.lockNest == 0 {
      FirstHeads(s);
      var c := FirstOf(s);
      assert c in s.rings[ReadyRing(Least(s.bits, 0))] && Placed(s.thr[c], s.rings, c);
      assert Place(s.thr[c], ReadyRing(Least(s.bits, 0)));
    }
  }

  /** Linking puts the thread behind its equals and moves no other; unlinking closes the gap. */
  lemma InsertRemoveExactly(s: Sched, t: Tid, r: RingId)
    requires t in s.thr
    ensures var s' := Insert(s, t);
      && Rearranged(s, s', s.thr[t := s.thr[t].(stat := Ready)])
      && Ring(s', r) == Ring(s, r) + (if r == ReadyRing(s.thr[t].prio) then [t] else [])
    ensures var s' := Remove(s, t); Rearranged(s, s', s.thr) && Ring(s', r) == Unlink(Ring(s, r), t)
  {
    assert Ring(s, r) + [] == Ring(s, r);
  }

  lemma ResumeMoves(s: Sched, t: Tid, r: RingId)
    requires t in s.thr && s.thr[t].stat == Suspended
    ensures var s' := Resume(s, t);
      && Rearranged(s, s', s.thr[t := s.thr[t].(stat := Ready)])
      && Ring(s', r) == Unlink(Ring(s, r), t) + (if r == ReadyRing(s.thr[t].prio) then [t] else [])
  {
    InsertRemoveExactly(s.(rings := Without(s.rings, t)), t, r);
  }

  lemma StartedMoves(s: Sched, t: Tid, r: RingId)
    requires t in s.thr
    ensures var s', p := Started(s, t), s.thr[t].initPrio;
      && Rearranged(s, s', s.thr[t := s.thr[t].(stat := Ready, prio := p)])
      && Ring(s', r) == Unlink(Ring(s, r), t) + (if r == ReadyRing(p) then [t] else [])
  {
    ResumeMoves(SetStat(SetPrio(s, t, s.thr[t].initPrio), t, Suspended), t, r);
  }

  lemma YieldMoves(s: Sched, r: RingId)
    requires s.current.Runs? && s.current.tid in s.thr
    ensures var c, s' := s.current.tid, Yielded(s); var th := s.thr[c];
      && Rearranged(s, s', s.thr)
      && Ring(s', r) == if th.stat == Ready && |Ring(s, ReadyRing(th.prio))| >= 2
                        then Unlink(Ring(s, r), c) + (if r == ReadyRing(th.prio) then [c] else []) else Ring(s, r)
  {
    assert Unlink(Ring(s, r), s.current.tid) + [] == Unlink(Ring(s, r), s.current.tid);
  }

  lemma ExitMoves(s: Sched, detach: bool, r: RingId)
    requires s.current.Runs? && s.current.tid in s.thr
    ensures var t, s' := s.current.tid, Exited(s, detach);
      && Rearranged(s, s', s.thr[t := s.thr[t].(stat := Closed)])
      && Ring(s', r) == (if r == DefunctRing && !detach then [t] else []) + Unlink(Ring(s, r), t)
  {
    var t := s.current.tid;
    InsertRemoveExactly(s, t, r);
    assert [] + Unlink(Ring(s, r), t) == Unlink(Ring(s, r), t);
  }

  /** A READY thread whose priority changes leaves its ring and stands last in the ring of the new priority; any
      other thread keeps its place. */
  lemma ChangePrioExactly(s: Sched, t: Tid, p: Priority, r: RingId)
    requires t in s.thr
    ensures var s' := ChangePrio(s, t, p);
      && Rearranged(s, s', s.thr[t := s.thr[t].(prio := p)])
      && (s.thr[t].stat == Ready ==> Ring(s', r) == Unlink(Ring(s, r), t) + (if r == ReadyRing(p) then [t] else []))
      && (s.thr[t].stat != Ready ==> s'.rings == s.rings && s'.bits == s.bits)
  {
    InsertRemoveExactly(s, t, r);
    InsertRemoveExactly(SetPrio(Remove(s, t), t, p), t, r);
  }

  /** A suspended thread that is resumed leaves the list it waits on and stands last in the ring of its priority; a
      thread in any other state stays as it is. */
  lemma ResumeExactly(s: Sched, t: Tid, r: RingId)
    requires t in s.thr
    ensures var s' := Resume(s, t);
      && (s.thr[t].stat == Suspended ==>
            && Rearranged(s, s', s.thr[t := s.thr[t].(stat := Ready)])
            && Ring(s', r) == Unlink(Ring(s, r), t) + (if r == ReadyRing(s.thr[t].prio) then [t] else []))
      && (s.thr[t].stat != Suspended ==> s' == s)
  {
    if s.thr[t].stat == Suspended { ResumeMoves(s, t, r); }
  }

  /** A thread that times out is resumed, and the scheduler is called. */
  lemma TimeoutExactly(s: Sched, t: Tid, r: RingId)
    requires Inv(s) && t in s.thr && s.thr[t].stat == Suspended
    ensures var s' := Then(Resume(s, t));
      && RearrangedAndSwitched(s, s', s.thr[t := s.thr[t].(stat := Ready)])
      && Ring(s', r) == Unlink(Ring(s, r), t) + (if r == ReadyRing(s.thr[t].prio) then [t] else [])
  {
    ResumeMoves(s, t, r);
    ResumeKeeps(s, t);
    ThenSwitches(Resume(s, t), s, s.thr[t := s.thr[t].(stat := Ready)]);
  }

  /** A READY thread that is suspended leaves its ring, and goes to the place in the wait list that it was given. */
  lemma SuspendExactly(s: Sched, t: Tid, id: nat, i: nat, r: RingId)
    requires Inv(s)
    ensures Enabled(s, SuspendThread(t)) && s.thr[t].stat == Ready ==>
      var s' := Do(s, SuspendThread(t));
      Rearranged(s, s', s.thr[t := s.thr[t].(stat := Suspended)]) && Ring(s', r) == Unlink(Ring(s, r), t)
    ensures Enabled(s, SuspendThread(t)) && s.thr[t].stat != Ready ==> Do(s, SuspendThread(t)) == s
    ensures Enabled(s, Wait(t, id, i)) ==>
      var s', list := Do(s, Wait(t, id, i)), Ring(s, WaitRing(id));
      && Rearranged(s, s', s.thr[t := s.thr[t].(stat := Suspended)])
      && Ring(s', r) == if r == WaitRing(id) then list[..i] + [t] + list[i..] else Unlink(Ring(s, r), t)
  {
  }

  /** A thread that is started gets its first priority and stands last among its equals. */
  lemma StartupExactly(s: Sched, t: Tid, r: RingId)
    requires Inv(s) && t in s.thr && s.thr[t].stat == Initial
    ensures var s', p := Then(Started(s, t)), s.thr[t].initPrio;
      && RearrangedAndSwitched(s, s', s.thr[t := s.thr[t].(stat := Ready, prio := p)])
      && Ring(s', r) == Ring(s, r) + (if r == ReadyRing(p) then [t] else [])
  {
    StartedMoves(s, t, r);
    StartedKeeps(s, t);
    ThenSwitches(Started(s, t), s, s.thr[t := s.thr[t].(stat := Ready, prio := s.thr[t].initPrio)]);
    LooseIsOut(s, t);
    UnlinkAbsent(Ring(s, r), t);
  }

  /** A thread that exits leaves its ring for good, to the front of the defunct list unless it is static. */
  lemma ExitExactly(s: Sched, detach: bool, r: RingId)
    requires Inv(s) && Enabled(s, Exit(detach))
    ensures var t, s' := s.current.tid, Then(Exited(s, detach));
      && RearrangedAndSwitched(s, s', s.thr[t := s.thr[t].(stat := Closed)])
      && Ring(s', r) == (if r == DefunctRing && !detach then [t] else []) + Unlink(Ring(s, r), t)
  {
    var t := s.current.tid;
    ExitMoves(s, detach, r);
    ExitedKeeps(s, detach);
    ThenSwitches(Exited(s, detach), s, s.thr[t := s.thr[t].(stat := Closed)]);
  }

  /** A yield moves the running thread behind its equals, if it has any, and calls the scheduler. */
  lemma YieldExactly(s: Sched, r: RingId)
    requires Inv(s) && s.current.Runs?
    ensures var c, s' := s.current.tid, DoYield(s); var th := s.thr[c];
      if th.stat == Ready && |Ring(s, ReadyRing(th.prio))| >= 2
      then RearrangedAndSwitched(s, s', s.thr) && Ring(s', r) == Unlink(Ring(s, r), c) + (if r == ReadyRing(th.prio) then [c] else [])
      else s' == s
  {
    YieldMoves(s, r);
    YieldedKeeps(s);
    ThenSwitches(Yielded(s), s, s.thr);
  }

  /** A clock tick takes one tick off the slice of the running thread, and at the last one refills it and yields. */
  lemma TickExactly(s: Sched)
    requires Inv(s) && s.current.Runs?
    ensures var c, s' := s.current.tid, Do(s, Tick); var th := s.thr[c];
      if th.remaining > 1 then s' == s.(thr := s.thr[c := th.(remaining := th.remaining - 1)])
      else s' == DoYield(s.(thr := s.thr[c := th.(remaining := th.slice)]))
  {
    assert Sliced(s.thr[s.current.tid]);
  }

  /** Nested critical sections count; leaving the last one opens the scheduler and calls it. */
  lemma CriticalExactly(s: Sched)
    requires Inv(s) && 0 <= s.lockNest < 0x7FFF
    ensures Do(s, EnterCritical) == s.(lockNest := s.lockNest + 1)
    ensures s.lockNest > 1 ==> DoUnlock(s) == s.(lockNest := s.lockNest - 1)
    ensures s.lockNest <= 1 ==> RearrangedAndSwitched(s.(lockNest := 0), DoUnlock(s), s.thr) && DoUnlock(s).rings == s.rings
  {
    ThenSwitches(s.(lockNest := 0), s.(lockNest := 0), s.thr);
  }

  /** A new thread is in no ring, with a full slice and the priority it was given; a new list is empty; entering a
      critical section and rescheduling touch no thread. */
  lemma OthersExactly(s: Sched, t: Tid, p: Priority, slice: nat, id: nat)
    requires Inv(s)
    ensures Enabled(s, Create(t, p, slice)) ==>
      var s' := Do(s, Create(t, p, slice));
      && s' == s.(thr := s'.thr) && s'.thr == s.thr[t := s'.thr[t]]
      && s'.thr[t].stat == Initial && s'.thr[t].prio == s'.thr[t].initPrio == p && s'.thr[t].slice == s'.thr[t].remaining == slice
      && forall r :: t !in Ring(s', r)
    ensures Enabled(s, InitList(id)) ==>
      var s' := Do(s, InitList(id)); s' == s.(rings := s'.rings) && WaitRing(id) in s'.rings && forall r :: Ring(s', r) == Ring(s, r)
    ensures s.current.Runs? ==> RearrangedAndSwitched(s, Do(s, Reschedule), s.thr) && Do(s, Reschedule).rings == s.rings
    ensures Enabled(s, Start) ==> Do(s, Start) == s.(current := Do(s, Start).current) && UrgentRuns(Do(s, Start))
  {
    if s.current.Runs? { ThenSwitches(s, s, s.thr); }
    if Enabled(s, Start) { StartKeeps(s); }
  }

  // ---------------------------------------------------------------- equals take turns

  function Turned(list: seq<Tid>): seq<Tid> { if list == [] then [] else list[1..] + [list[0]] }

  /** The ring of the running thread. */
  ghost function Line(s: Sched): seq<Tid> {
    if s.current.Runs? && s.current.tid in s.thr then Ring(s, ReadyRing(s.thr[s.current.tid].prio)) else []
  }

  /** A running system with the scheduler open and the right thread running.  Proofs get the invariant
      out of it only where they look. */
  ghost predicate Live(s: Sched) {
    && s.current.Runs? && s.current.tid in s.thr && Sliced(s.thr[s.current.tid]) && s.lockNest == 0
    && forall x: Sched {:trigger Seen(x)} :: x == s && Seen(x) ==> Inv(x) && UrgentRuns(x)
  }

  lemma LookIn(s: Sched)
    requires Live(s)
    ensures Inv(s) && UrgentRuns(s)
  {
    assert Seen(s);
  }

  lemma HeadsUnique(s: Sched, a: Tid, b: Tid)
    requires Heads(s, a) && Heads(s, b)
    ensures a == b
  {
    assert s.thr[a].prio <= s.thr[b].prio && s.thr[b].prio <= s.thr[a].prio;
  }

  /** Rescheduling after only the most urgent ring was reordered runs the new head of that ring. */
  lemma ReorderRuns(s: Sched, s1: Sched, p: Priority)
    requires Live(s) && Inv(s1) && s1 == s.(rings := s1.rings) && p == s.thr[s.current.tid].prio
    requires ReadyRing(p) in s1.rings && s1.rings[ReadyRing(p)] != []
    ensures Live(Then(s1)) && Then(s1).thr == s.thr && Then(s1).rings == s1.rings
    ensures Then(s1).current == Runs(s1.rings[ReadyRing(p)][0])
  {
    LookIn(s);
    ThenKeeps(s1);
    var h := s1.rings[ReadyRing(p)][0];
    assert h in s1.rings[ReadyRing(p)] && Placed(s1.thr[h], s1.rings, h) && Place(s1.thr[h], ReadyRing(p));
    assert Heads(s1, h);
    HeadsUnique(Then(s1), Then(s1).current.tid, h);
  }

  /** rt_thread_yield puts the running thread behind its equals and runs the next of them. */
  lemma YieldRotates(s: Sched)
    requires Live(s)
    ensures (Live(DoYield(s)), DoYield(s).thr, Line(DoYield(s))) == (true, s.thr, Turned(Line(s)))
  {
    LookIn(s);
    var c := s.current.tid;
    var p := s.thr[c].prio;
    var ring := s.rings[ReadyRing(p)];
    UnlinkHead(ring);
    assert ring == [c] + ring[1..];
    if |ring| >= 2 {
      var s1 := Yielded(s);
      assert s1.rings[ReadyRing(p)] == ring[1..] + [c];
      YieldedKeeps(s);
      ReorderRuns(s, s1, p);
      LineOfHead(DoYield(s), p);
    } else {
      assert ring[1..] + [c] == ring;
    }
  }

  lemma LineOfHead(s: Sched, p: Priority)
    requires Live(s) && ReadyRing(p) in s.rings && s.current.tid in s.rings[ReadyRing(p)]
    ensures Line(s) == s.rings[ReadyRing(p)]
  {
    LookIn(s);
    var c := s.current.tid;
    assert Placed(s.thr[c], s.rings, c) && Place(s.thr[c], ReadyRing(p));
  }

  /** What a clock tick does to the scheduler. */
  ghost function TickOnce(s: Sched): Sched {
    if s.current.Runs? && s.current.tid in s.thr && s.thr[s.current.tid].remaining > 0 then DoTick(s) else s
  }

  /** The states of a scheduler on which only the clock works. */
  ghost predicate TickRun(run: nat -> Sched) {
    forall i: nat {:trigger TickOnce(run(i))} :: run(i + 1) == TickOnce(run(i))
  }

  function WithRemaining(thr: map<Tid, Thread>, t: Tid, n: nat): map<Tid, Thread>
    requires t in thr
  {
    thr[t := thr[t].(remaining := n)]
  }

  lemma TickCounts(s: Sched)
    requires Live(s) && s.thr[s.current.tid].remaining > 1
    ensures var c, s' := s.current.tid, TickOnce(s);
      && Live(s') && s'.current == s.current && Line(s') == Line(s)
      && s'.thr == WithRemaining(s.thr, c, s.thr[c].remaining - 1)
  {
    LookIn(s);
    SliceTickKeeps(s);
  }

  lemma TickYields(s: Sched)
    requires Live(s) && s.thr[s.current.tid].remaining == 1
    ensures var c, s' := s.current.tid, TickOnce(s);
      && Live(s') && s'.thr == WithRemaining(s.thr, c, s.thr[c].slice)
      && Line(s') == Turned(Line(s))
  {
    LookIn(s);
    SliceTickKeeps(s);
    var s1 := SliceTick(s);
    assert Live(s1) && Line(s1) == Line(s);
    YieldRotates(s1);
  }

  /** The running thread keeps the processor for exactly the ticks that are left of its slice; then it
      has a full slice again and the next in line runs. */
  lemma {:induction false} SliceRuns(run: nat -> Sched, i: nat)
    requires TickRun(run) && Live(run(i))
    ensures var s, c := run(i), run(i).current.tid; var s' := run(i + s.thr[c].remaining);
      (Live(s'), s'.thr, Line(s')) == (true, WithRemaining(s.thr, c, s.thr[c].slice), Turned(Line(s)))
    decreases run(i).thr[run(i).current.tid].remaining
  {
    var s := run(i);
    var c := s.current.tid;
    assert run(i + 1) == TickOnce(s);
    if s.thr[c].remaining == 1 {
      TickYields(s);
    } else {
      TickCounts(s);
      SliceRuns(run, i + 1);
      assert WithRemaining(run(i + 1).thr, c, s.thr[c].slice) == WithRemaining(s.thr, c, s.thr[c].slice);
    }
  }

  /** The ticks left to the threads of a list. */
  ghost function Left(thr: map<Tid, Thread>, list: seq<Tid>): nat {
    if list == [] then 0 else (if list[0] in thr then thr[list[0]].remaining else 0) + Left(thr, list[1..])
  }

  lemma {:induction false} LeftFrame(thr: map<Tid, Thread>, list: seq<Tid>, t: Tid, n: nat)
    requires t in thr && t !in list
    ensures Left(WithRemaining(thr, t, n), list) == Left(thr, list)
  {
    if list != [] {
      assert list[0] in list;
      LeftFrame(thr, list[1..], t, n);
    }
  }

  /** The first of `ahead` runs out its slice. */
  lemma FirstTurn(run: nat -> Sched, i: nat, ahead: seq<Tid>, rest: seq<Tid>) returns (j: nat)
    requires TickRun(run) && Live(run(i)) && Line(run(i)) == ahead + rest && ahead != []
    ensures (Live(run(j)), Line(run(j))) == (true, ahead[1..] + (rest + [ahead[0]]))
    ensures i + Left(run(i).thr, ahead) == j + Left(run(j).thr, ahead[1..])
  {
    var s, c := run(i), ahead[0];
    LineFacts(s, ahead, rest);
    j := i + s.thr[c].remaining;
    SliceRuns(run, i);
    assert Turned(ahead + rest) == ahead[1..] + (rest + [c]);
    LeftFrame(s.thr, ahead[1..], c, s.thr[c].slice);
  }

  /** Round robin: with `ahead` in front of it among the most urgent threads, a thread runs after exactly
      the ticks that those have left, and they stand behind it, in order. */
  lemma {:induction false} RoundRobin(run: nat -> Sched, i: nat, ahead: seq<Tid>, rest: seq<Tid>)
    requires TickRun(run) && Live(run(i)) && Line(run(i)) == ahead + rest && rest != []
    ensures var s' := run(i + Left(run(i).thr, ahead)); (Live(s'), Line(s'), s'.current) == (true, rest + ahead, Runs(rest[0]))
    decreases |ahead|
  {
    if ahead == [] {
      assert ahead + rest == rest && rest + ahead == rest;
      FirstInLine(run(i));
    } else {
      var j := FirstTurn(run, i, ahead, rest);
      assert (rest + [ahead[0]]) + ahead[1..] == rest + ahead;
      RoundRobin(run, j, ahead[1..], rest + [ahead[0]]);
    }
  }

  lemma LineFacts(s: Sched, ahead: seq<Tid>, rest: seq<Tid>)
    requires Live(s) && Line(s) == ahead + rest && ahead != []
    ensures s.current == Runs(ahead[0]) && ahead[0] in s.thr && ahead[0] !in ahead[1..]
    ensures Left(s.thr, ahead) == s.thr[ahead[0]].remaining + Left(s.thr, ahead[1..])
  {
    LookIn(s);
    assert NoDup(ahead + rest);
    assert forall i :: 0 <= i < |ahead| ==> (ahead + rest)[i] == ahead[i];
  }

  /** The thread that runs is the first in line. */
  lemma FirstInLine(s: Sched)
    requires Live(s)
    ensures Line(s) != [] && s.current == Runs(Line(s)[0])
  {
    LookIn(s);
  }
}

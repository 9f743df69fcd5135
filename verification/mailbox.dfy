/**
  Mailboxes (ipc.c) as a concurrent protocol.  Each step is one region that runs with interrupts
  disabled; between the steps of one thread any other thread may take steps.  A thread that was
  resumed re-checks the mailbox in a step of its own, so the mailbox may have changed in between.
*/
module Mailbox {
  import opened Hiding
  import opened IpcList
  import opened Lists

  type Mail = nat

  /** Where a thread stands in rt_mb_send_wait or rt_mb_recv, as far as this mailbox is concerned. */
  datatype Pc =
    | Idle
    | SendWait(mail: Mail)      // suspended on suspend_sender_thread
    | SendWoken(mail: Mail)     // resumed without error, has not re-checked yet
    | RecvWait                  // suspended on parent.suspend_thread
    | RecvWoken                 // resumed without error, has not re-checked yet

  datatype Outcome = Blocked | Sent | Full | Received(mail: Mail) | Empty

  /** `mails` are the stored messages, oldest first. */
  datatype Mb = Mb(size: nat, flag: Flag, prio: map<Tid, nat>, mails: seq<Mail>,
                   receivers: seq<Tid>, senders: seq<Tid>, pc: map<Tid, Pc>)

  function PcOf(m: Mb, t: Tid): Pc { if t in m.pc then m.pc[t] else Idle }

  // ---------------------------------------------------------------- the steps

  /** One pass of rt_mb_send_wait from disabling to enabling interrupts. */
  function SendRegion(m: Mb, t: Tid, mail: Mail, mayWait: bool): (Mb, Outcome) {
    if |m.mails| == m.size then
      if mayWait
      then (m.(senders := Suspend(m.senders, t, m.prio, m.flag), pc := m.pc[t := SendWait(mail)]), Blocked)
      else (m.(pc := m.pc[t := Idle]), Full)
    else
      var stored := m.(mails := m.mails + [mail], pc := m.pc[t := Idle]);
      (WakeReceiver(stored), Sent)
  }

  function WakeReceiver(m: Mb): Mb {
    if m.receivers == [] then m
    else m.(receivers := m.receivers[1..], pc := m.pc[m.receivers[0] := RecvWoken])
  }

  /** One pass of rt_mb_recv. */
  function RecvRegion(m: Mb, t: Tid, mayWait: bool): (Mb, Outcome) {
    if m.mails == [] then
      if mayWait
      then (m.(receivers := Suspend(m.receivers, t, m.prio, m.flag), pc := m.pc[t := RecvWait]), Blocked)
      else (m.(pc := m.pc[t := Idle]), Empty)
    else
      var taken := m.(mails := m.mails[1..], pc := m.pc[t := Idle]);
      (WakeSender(taken), Received(m.mails[0]))
  }

  function WakeSender(m: Mb): Mb {
    if m.senders == [] then m
    else
      var t := m.senders[0];
      var mail := if PcOf(m, t).SendWait? then PcOf(m, t).mail else 0;
      m.(senders := m.senders[1..], pc := m.pc[t := SendWoken(mail)])
  }

  /** rt_thread_timeout of a suspended thread: it returns with -RT_ETIMEOUT and does not re-check. */
  function TimeoutStep(m: Mb, t: Tid): Mb {
    m.(receivers := Unlink(m.receivers, t), senders := Unlink(m.senders, t), pc := m.pc[t := Idle])
  }

  /** rt_mb_control(RT_IPC_CMD_RESET): every suspended thread returns with -RT_ERROR. */
  function ResetStep(m: Mb): Mb {
    m.(mails := [], receivers := [], senders := [],
       pc := map t | t in m.pc :: if t in m.receivers || t in m.senders then Idle else m.pc[t])
  }

  datatype Event =
    | Send(t: Tid, mail: Mail, mayWait: bool)
    | Resend(t: Tid, mayWait: bool)      // a resumed sender re-checks
    | Recv(t: Tid, mayWait: bool)
    | Rerecv(t: Tid, mayWait: bool)      // a resumed receiver re-checks
    | Timeout(t: Tid)
    | SetPrio(t: Tid, p: nat)            // a thread changes its priority, suspended here or not
    | Reset

  predicate Enabled(m: Mb, e: Event) {
    match e
    case Send(t, _, _) => PcOf(m, t) == Idle
    case Resend(t, _) => PcOf(m, t).SendWoken?
    case Recv(t, _) => PcOf(m, t) == Idle
    case Rerecv(t, _) => PcOf(m, t) == RecvWoken
    case Timeout(t) => t in m.receivers || t in m.senders
    case SetPrio(_, _) => true
    case Reset => true
  }

  function Do(m: Mb, e: Event): (Mb, Outcome)
    requires Enabled(m, e)
  {
    match e
    case Send(t, mail, mayWait) => SendRegion(m, t, mail, mayWait)
    case Resend(t, mayWait) => SendRegion(m, t, PcOf(m, t).mail, mayWait)
    case Recv(t, mayWait) => RecvRegion(m, t, mayWait)
    case Rerecv(t, mayWait) => RecvRegion(m, t, mayWait)
    case Timeout(t) => (TimeoutStep(m, t), Empty)
    case SetPrio(t, p) => (m.(prio := m.prio[t := p]), Empty)
    case Reset => (ResetStep(m), Empty)
  }

  // ---------------------------------------------------------------- the invariant

  function SendersWoken(pc: map<Tid, Pc>): set<Tid> { set t | t in pc && pc[t].SendWoken? }

  function ReceiversWoken(pc: map<Tid, Pc>): set<Tid> { set t | t in pc && pc[t].RecvWoken? }

  /** Lists and program counters agree. */
  ghost predicate Listed(m: Mb) {
    && NoDup(m.receivers) && NoDup(m.senders)
    && (forall t :: t in m.receivers <==> t in m.pc && m.pc[t].RecvWait?)
    && (forall t :: t in m.senders <==> t in m.pc && m.pc[t].SendWait?)
  }

  /** No lost wakeup: while receivers are suspended, every stored mail already has a receiver on its
      way; while senders are suspended, every free slot already has a sender on its way. */
  ghost predicate NoLostWakeup(m: Mb) {
    && (m.receivers != [] ==> |m.mails| <= |ReceiversWoken(m.pc)|)
    && (m.senders != [] ==> m.size - |m.mails| <= |SendersWoken(m.pc)|)
  }

  ghost predicate Inv(m: Mb) {
    |m.mails| <= m.size && Listed(m) && NoLostWakeup(m)
  }

  lemma ReceiversWokenAfter(pc: map<Tid, Pc>, t: Tid, c: Pc)
    ensures |ReceiversWoken(pc[t := c])| == |ReceiversWoken(pc)| + (if c.RecvWoken? then 1 else 0) - (if t in pc && pc[t].RecvWoken? then 1 else 0)
  {
    var a, b := ReceiversWoken(pc), ReceiversWoken(pc[t := c]);
    if c.RecvWoken? { assert b == a + {t}; } else { assert b == a - {t}; }
  }

  lemma SendersWokenAfter(pc: map<Tid, Pc>, t: Tid, c: Pc)
    ensures |SendersWoken(pc[t := c])| == |SendersWoken(pc)| + (if c.SendWoken? then 1 else 0) - (if t in pc && pc[t].SendWoken? then 1 else 0)
  {
    var a, b := SendersWoken(pc), SendersWoken(pc[t := c]);
    if c.SendWoken? { assert b == a + {t}; } else { assert b == a - {t}; }
  }

  lemma WokenSets(pc: map<Tid, Pc>, t: Tid, c: Pc)
    ensures |ReceiversWoken(pc[t := c])| == |ReceiversWoken(pc)| + (if c.RecvWoken? then 1 else 0) - (if t in pc && pc[t].RecvWoken? then 1 else 0)
    ensures |SendersWoken(pc[t := c])| == |SendersWoken(pc)| + (if c.SendWoken? then 1 else 0) - (if t in pc && pc[t].SendWoken? then 1 else 0)
  {
    ReceiversWokenAfter(pc, t, c);
    SendersWokenAfter(pc, t, c);
  }

  /** A thread leaves the region: it is suspended no more and on no list. */
  lemma IdleListed(m: Mb, t: Tid, mails: seq<Mail>)
    requires Listed(m) && !(PcOf(m, t).RecvWait? || PcOf(m, t).SendWait?)
    ensures Listed(m.(mails := mails, pc := m.pc[t := Idle]))
  {
  }

  lemma WakeReceiverListed(m: Mb)
    requires Listed(m)
    ensures Listed(WakeReceiver(m))
  {
    if m.receivers != [] {
      UnlinkHead(m.receivers);
    }
  }

  lemma WakeSenderListed(m: Mb)
    requires Listed(m)
    ensures Listed(WakeSender(m))
  {
    if m.senders != [] {
      UnlinkHead(m.senders);
    }
  }

  /** `t` may run a sending region: it is not suspended, and not a resumed receiver. */
  ghost predicate MaySend(m: Mb, t: Tid) { PcOf(m, t) == Idle || PcOf(m, t).SendWoken? }

  ghost predicate MayRecv(m: Mb, t: Tid) { PcOf(m, t) == Idle || PcOf(m, t) == RecvWoken }

  lemma SendBlocks(m: Mb, t: Tid, mail: Mail, mayWait: bool)
    requires Inv(m) && MaySend(m, t) && |m.mails| == m.size
    ensures Inv(SendRegion(m, t, mail, mayWait).0)
  {
    WokenSets(m.pc, t, if mayWait then SendWait(mail) else Idle);
    SuspendElems(m.senders, t, m.prio, m.flag);
    SuspendNoDup(m.senders, t, m.prio, m.flag);
  }

  lemma SendStores(m: Mb, t: Tid, mail: Mail, mayWait: bool)
    requires Inv(m) && MaySend(m, t) && |m.mails| < m.size
    ensures Inv(SendRegion(m, t, mail, mayWait).0)
  {
    WokenSets(m.pc, t, Idle);
    IdleListed(m, t, m.mails + [mail]);
    var m1 := m.(mails := m.mails + [mail], pc := m.pc[t := Idle]);
    WakeReceiverListed(m1);
    if m.receivers != [] {
      assert m.receivers[0] in m1.receivers;
      WokenSets(m1.pc, m.receivers[0], RecvWoken);
    }
  }

  lemma RecvBlocks(m: Mb, t: Tid, mayWait: bool)
    requires Inv(m) && MayRecv(m, t) && m.mails == []
    ensures Inv(RecvRegion(m, t, mayWait).0)
  {
    WokenSets(m.pc, t, if mayWait then RecvWait else Idle);
    SuspendElems(m.receivers, t, m.prio, m.flag);
    SuspendNoDup(m.receivers, t, m.prio, m.flag);
  }

  lemma RecvTakes(m: Mb, t: Tid, mayWait: bool)
    requires Inv(m) && MayRecv(m, t) && m.mails != []
    ensures Inv(RecvRegion(m, t, mayWait).0)
  {
    WokenSets(m.pc, t, Idle);
    IdleListed(m, t, m.mails[1..]);
    var m1 := m.(mails := m.mails[1..], pc := m.pc[t := Idle]);
    WakeSenderListed(m1);
    if m.senders != [] {
      assert m.senders[0] in m1.senders;
      WokenSets(m1.pc, m.senders[0], SendWoken(m1.pc[m.senders[0]].mail));
    }
  }

  lemma TimeoutKeeps(m: Mb, t: Tid)
    requires Inv(m) && Enabled(m, Timeout(t))
    ensures Inv(TimeoutStep(m, t))
  {
    WokenSets(m.pc, t, Idle);
    UnlinkNoDup(m.receivers, t);
    UnlinkNoDup(m.senders, t);
  }

  /** Every step of every thread keeps the invariant. */
  lemma StepKeepsInv(m: Mb, e: Event)
    requires Inv(m) && Enabled(m, e)
    ensures Inv(Do(m, e).0)
  {
    match e
    case Send(t, mail, mayWait) =>
      if |m.mails| == m.size { SendBlocks(m, t, mail, mayWait); } else { SendStores(m, t, mail, mayWait); }
    case Resend(t, mayWait) =>
      if |m.mails| == m.size { SendBlocks(m, t, PcOf(m, t).mail, mayWait); } else { SendStores(m, t, PcOf(m, t).mail, mayWait); }
    case Recv(t, mayWait) =>
      if m.mails == [] { RecvBlocks(m, t, mayWait); } else { RecvTakes(m, t, mayWait); }
    case Rerecv(t, mayWait) =>
      if m.mails == [] { RecvBlocks(m, t, mayWait); } else { RecvTakes(m, t, mayWait); }
    case Timeout(t) => TimeoutKeeps(m, t);
    case SetPrio(_, _) =>
    case Reset =>
  }

  // ---------------------------------------------------------------- the order of the lists

  /** Both lists are ordered by urgency. */
  ghost predicate Ranked(m: Mb) { Urgency(m.receivers, m.prio) && Urgency(m.senders, m.prio) }

  /** A change of priority leaves a waiting thread between its neighbours. */
  ghost predicate Fitting(m: Mb, e: Event) {
    e.SetPrio? ==> Between(m.receivers, m.prio, e.t, e.p) && Between(m.senders, m.prio, e.t, e.p)
  }

  /** With RT_IPC_FLAG_PRIO a step keeps both lists ordered exactly when it is not an unfitting change of
      priority: nothing is sorted again. */
  lemma StepRanksExactly(m: Mb, e: Event)
    requires Inv(m) && m.flag.Prio? && Ranked(m) && Enabled(m, e)
    ensures Ranked(Do(m, e).0) <==> Fitting(m, e)
  {
    match e
    case Send(t, _, _) => SuspendByUrgency(m.senders, t, m.prio);
    case Resend(t, _) => SuspendByUrgency(m.senders, t, m.prio);
    case Recv(t, _) => SuspendByUrgency(m.receivers, t, m.prio);
    case Rerecv(t, _) => SuspendByUrgency(m.receivers, t, m.prio);
    case Timeout(t) => UnlinkUrgency(m.receivers, t, m.prio); UnlinkUrgency(m.senders, t, m.prio);
    case SetPrio(t, p) => BetweenExactly(m.receivers, m.prio, t, p); BetweenExactly(m.senders, m.prio, t, p);
    case Reset =>
  }

  // ---------------------------------------------------------------- whole runs

  predicate EnabledRun(m: Mb, es: seq<Event>)
    decreases |es|
  {
    es == [] || (Enabled(m, es[0]) && EnabledRun(Do(m, es[0]).0, es[1..]))
  }

  function Run(m: Mb, es: seq<Event>): Mb
    requires EnabledRun(m, es)
    decreases |es|
  {
    if es == [] then m else Run(Do(m, es[0]).0, es[1..])
  }

  /** rt_mb_init. */
  function Init(size: nat, flag: Flag, prio: map<Tid, nat>): Mb {
    Mb(size, flag, prio, [], [], [], map[])
  }

  lemma {:induction false} RunKeepsInv(m: Mb, es: seq<Event>)
    requires Inv(m) && EnabledRun(m, es)
    ensures Inv(Run(m, es))
    decreases |es|
  {
    if es != [] {
      StepKeepsInv(m, es[0]);
      RunKeepsInv(Do(m, es[0]).0, es[1..]);
    }
  }

  /** In every interleaving from rt_mb_init: when no resumed thread is still on its way, a receiver
      waits only on an empty mailbox and a sender waits only on a full one. */
  lemma NoLostWakeupEver(size: nat, flag: Flag, prio: map<Tid, nat>, es: seq<Event>)
    requires EnabledRun(Init(size, flag, prio), es)
    ensures var m := Run(Init(size, flag, prio), es);
      && Inv(m)
      && ((forall t :: !PcOf(m, t).RecvWoken?) && m.receivers != [] ==> m.mails == [])
      && ((forall t :: !PcOf(m, t).SendWoken?) && m.senders != [] ==> |m.mails| == m.size)
  {
    RunKeepsInv(Init(size, flag, prio), es);
    var m := Run(Init(size, flag, prio), es);
    RunKeepsSize(Init(size, flag, prio), es);
    if forall t :: !PcOf(m, t).RecvWoken? {
      assert ReceiversWoken(m.pc) == {} by {
        forall t | t in m.pc ensures !m.pc[t].RecvWoken? { assert !PcOf(m, t).RecvWoken?; }
      }
    }
    if forall t :: !PcOf(m, t).SendWoken? {
      assert SendersWoken(m.pc) == {} by {
        forall t | t in m.pc ensures !m.pc[t].SendWoken? { assert !PcOf(m, t).SendWoken?; }
      }
    }
  }

  lemma {:induction false} RunKeepsSize(m: Mb, es: seq<Event>)
    requires EnabledRun(m, es)
    ensures Run(m, es).size == m.size
    decreases |es|
  {
    if es != [] { RunKeepsSize(Do(m, es[0]).0, es[1..]); }
  }

  ghost predicate FittingRun(m: Mb, es: seq<Event>)
    requires EnabledRun(m, es)
    decreases |es|
  {
    es == [] || (Fitting(m, es[0]) && FittingRun(Do(m, es[0]).0, es[1..]))
  }

  /** In every run whose changes of priority fit, the lists stay ordered. */
  lemma {:induction false} RunRanks(m: Mb, es: seq<Event>)
    requires Inv(m) && m.flag.Prio? && Ranked(m) && EnabledRun(m, es) && FittingRun(m, es)
    ensures Ranked(Run(m, es))
    decreases |es|
  {
    if es != [] {
      StepKeepsInv(m, es[0]);
      StepRanksExactly(m, es[0]);
      RunRanks(Do(m, es[0]).0, es[1..]);
    }
  }

  /** The mail a step stores, and the mail it hands out. */
  function StepSent(m: Mb, e: Event): seq<Mail>
    requires Enabled(m, e)
  {
    if Do(m, e).1 == Sent then [if e.Send? then e.mail else PcOf(m, e.t).mail] else []
  }

  function StepReceived(m: Mb, e: Event): seq<Mail>
    requires Enabled(m, e)
  {
    if Do(m, e).1.Received? then [Do(m, e).1.mail] else []
  }

  /** The mails stored and the mails handed out during a run, in order. */
  function AllSent(m: Mb, es: seq<Event>): seq<Mail>
    requires EnabledRun(m, es)
    decreases |es|
  {
    if es == [] then [] else StepSent(m, es[0]) + AllSent(Do(m, es[0]).0, es[1..])
  }

  function AllReceived(m: Mb, es: seq<Event>): seq<Mail>
    requires EnabledRun(m, es)
    decreases |es|
  {
    if es == [] then [] else StepReceived(m, es[0]) + AllReceived(Do(m, es[0]).0, es[1..])
  }

  lemma FifoStep(m: Mb, e: Event)
    requires Enabled(m, e) && !e.Reset?
    ensures m.mails + StepSent(m, e) == StepReceived(m, e) + Do(m, e).0.mails
  {
  }

  lemma Glue(a: seq<Mail>, s: seq<Mail>, r: seq<Mail>, b: seq<Mail>, s': seq<Mail>, r': seq<Mail>, c: seq<Mail>)
    requires a + s == r + b && b + s' == r' + c
    ensures a + (s + s') == (r + r') + c
  {
    assert a + (s + s') == (a + s) + s';
    assert (r + b) + s' == r + (b + s');
    assert r + (r' + c) == (r + r') + c;
  }

  /** First in, first out, nothing lost or invented: in any run without a reset, what was stored at the
      start followed by what was sent is what was received followed by what is still stored. */
  lemma {:induction false} FifoConservation(m: Mb, es: seq<Event>)
    requires EnabledRun(m, es) && forall i :: 0 <= i < |es| ==> !es[i].Reset?
    ensures m.mails + AllSent(m, es) == AllReceived(m, es) + Run(m, es).mails
    decreases |es|
  {
    if es == [] {
      assert m.mails + [] == [] + m.mails;
    } else {
      var m1 := Do(m, es[0]).0;
      FifoConservation(m1, es[1..]);
      FifoStep(m, es[0]);
      Glue(m.mails, StepSent(m, es[0]), StepReceived(m, es[0]), m1.mails, AllSent(m1, es[1..]), AllReceived(m1, es[1..]), Run(m, es).mails);
    }
  }

  // ---------------------------------------------------------------- arrival order

  function Arrive(m: Mb, a: Arrivals, e: Event): Arrivals
    requires Enabled(m, e)
  {
    if Do(m, e).1.Blocked? then Arrived(a, e.t) else a
  }

  ghost predicate Served(m: Mb, a: Arrivals) {
    Queued(m.receivers, m.flag, m.prio, a) && Queued(m.senders, m.flag, m.prio, a)
  }

  /** A waiter whose priority changes keeps its place only between its neighbours, arrival order included. */
  ghost predicate KeepsPlace(m: Mb, a: Arrivals, e: Event) {
    m.flag.Prio? && e.SetPrio? ==>
      BetweenTurns(m.receivers, m.prio, a.since, e.t, e.p) && BetweenTurns(m.senders, m.prio, a.since, e.t, e.p)
  }

  /** A step keeps priority order, and arrival order among equals, exactly under that condition. */
  lemma StepServesExactly(m: Mb, a: Arrivals, e: Event)
    requires Inv(m) && Served(m, a) && Enabled(m, e)
    ensures Served(Do(m, e).0, Arrive(m, a, e)) <==> KeepsPlace(m, a, e)
  {
    match e
    case Send(t, mail, mayWait) => SendServes(m, a, t, mail, mayWait);
    case Resend(t, mayWait) => SendServes(m, a, t, PcOf(m, t).mail, mayWait);
    case Recv(t, mayWait) => RecvServes(m, a, t, mayWait);
    case Rerecv(t, mayWait) => RecvServes(m, a, t, mayWait);
    case Timeout(t) => LeaveQueued(m.receivers, t, m.flag, m.prio, a); LeaveQueued(m.senders, t, m.flag, m.prio, a);
    case SetPrio(t, p) => SetPrioQueued(m.receivers, m.flag, m.prio, a, t, p); SetPrioQueued(m.senders, m.flag, m.prio, a, t, p);
    case Reset =>
  }

  lemma SendServes(m: Mb, a: Arrivals, t: Tid, mail: Mail, mayWait: bool)
    requires Inv(m) && Served(m, a) && MaySend(m, t)
    ensures var (m', o) := SendRegion(m, t, mail, mayWait); Served(m', if o.Blocked? then Arrived(a, t) else a)
  {
    JoinQueued(m.senders, t, m.flag, m.prio, a);
    ElsewhereQueued(m.receivers, t, m.flag, m.prio, a);
    LeaveQueued(m.receivers, t, m.flag, m.prio, a);
  }

  lemma RecvServes(m: Mb, a: Arrivals, t: Tid, mayWait: bool)
    requires Inv(m) && Served(m, a) && MayRecv(m, t)
    ensures var (m', o) := RecvRegion(m, t, mayWait); Served(m', if o.Blocked? then Arrived(a, t) else a)
  {
    JoinQueued(m.receivers, t, m.flag, m.prio, a);
    ElsewhereQueued(m.senders, t, m.flag, m.prio, a);
    LeaveQueued(m.senders, t, m.flag, m.prio, a);
  }

  ghost predicate PlacesKept(m: Mb, a: Arrivals, es: seq<Event>)
    requires EnabledRun(m, es)
    decreases |es|
  {
    es == [] || (KeepsPlace(m, a, es[0]) && PlacesKept(Do(m, es[0]).0, Arrive(m, a, es[0]), es[1..]))
  }

  function ArriveRun(m: Mb, a: Arrivals, es: seq<Event>): Arrivals
    requires EnabledRun(m, es)
    decreases |es|
  {
    if es == [] then a else ArriveRun(Do(m, es[0]).0, Arrive(m, a, es[0]), es[1..])
  }

  lemma {:induction false} RunServes(m: Mb, a: Arrivals, es: seq<Event>)
    requires Inv(m) && Served(m, a) && EnabledRun(m, es) && PlacesKept(m, a, es)
    ensures Served(Run(m, es), ArriveRun(m, a, es))
    decreases |es|
  {
    if es != [] {
      StepKeepsInv(m, es[0]);
      StepServesExactly(m, a, es[0]);
      RunServes(Do(m, es[0]).0, Arrive(m, a, es[0]), es[1..]);
    }
  }

  /** After any interleaving from rt_mb_init, a send that stores its mail wakes exactly the receiver that is
      served before all the others, and a receive that takes one wakes that sender: the first to arrive with
      RT_IPC_FLAG_FIFO, the most urgent and among equals the first with RT_IPC_FLAG_PRIO. */
  lemma WokenInTurnEver(size: nat, flag: Flag, prio: map<Tid, nat>, es: seq<Event>, e: Event, t: Tid)
    requires EnabledRun(Init(size, flag, prio), es) && PlacesKept(Init(size, flag, prio), Arrivals(0, map[]), es)
    requires var m := Run(Init(size, flag, prio), es); Enabled(m, e) && (Do(m, e).1 == Sent || Do(m, e).1.Received?)
    ensures var m, a := Run(Init(size, flag, prio), es), ArriveRun(Init(size, flag, prio), Arrivals(0, map[]), es);
      var m' := Do(m, e).0;
      && (t in m.receivers && PcOf(m', t) == RecvWoken <==>
            && Do(m, e).1 == Sent && t in m.receivers
            && forall w :: w in m.receivers && w != t ==> Ahead(m.flag, m.prio, a.since, t, w))
      && (t in m.senders && PcOf(m', t).SendWoken? <==>
            && Do(m, e).1.Received? && t in m.senders
            && forall w :: w in m.senders && w != t ==> Ahead(m.flag, m.prio, a.since, t, w))
  {
    RunKeepsInv(Init(size, flag, prio), es);
    RunServes(Init(size, flag, prio), Arrivals(0, map[]), es);
    var m, a := Run(Init(size, flag, prio), es), ArriveRun(Init(size, flag, prio), Arrivals(0, map[]), es);
    if t in m.receivers { HeadIsNext(m.receivers, m.flag, m.prio, a, t); }
    if t in m.senders { HeadIsNext(m.senders, m.flag, m.prio, a, t); }
  }

  // ---------------------------------------------------------------- exactly what each step does

  /** The mailbox as one pass of a send finds and leaves it. */
  predicate Sending(m: Mb, e: Event) { (e.Send? || e.Resend?) && Enabled(m, e) }

  function MailOf(m: Mb, e: Event): Mail
    requires Sending(m, e)
  {
    if e.Send? then e.mail else PcOf(m, e.t).mail
  }

  /** A send stores its mail exactly when there is room, gives up exactly when there is none and it may not wait,
      and otherwise waits with its mail; what that does to the mails, the lists and every thread. */
  lemma SendExactly(m: Mb, e: Event, u: Tid)
    requires Inv(m) && Sending(m, e)
    ensures var (m', o) := Do(m, e);
      && (o == Sent <==> |m.mails| < m.size)
      && (o == Full <==> |m.mails| == m.size && !e.mayWait)
      && (o == Blocked <==> |m.mails| == m.size && e.mayWait)
      && m'.mails == (if o == Sent then m.mails + [MailOf(m, e)] else m.mails)
      && m'.size == m.size && m'.flag == m.flag && m'.prio == m.prio
    ensures var (m', o) := Do(m, e);
      && PcOf(m', e.t) == (if o == Blocked then SendWait(MailOf(m, e)) else Idle)
      && (u in m'.senders <==> u in m.senders || (o == Blocked && u == e.t))
      && (u in m'.receivers <==> u in m.receivers && !(o == Sent && u == m.receivers[0]))
      && (u != e.t ==> PcOf(m', u) == if o == Sent && u in m.receivers && u == m.receivers[0] then RecvWoken else PcOf(m, u))
  {
    SuspendElems(m.senders, e.t, m.prio, m.flag);
    if m.receivers != [] {
      assert m.receivers[0] in m.receivers;
      UnlinkHead(m.receivers);
      assert m.receivers == [m.receivers[0]] + m.receivers[1..];
    }
  }

  /** A receive takes the oldest mail exactly when there is one, gives up exactly when there is none and it may
      not wait, and otherwise waits; a sender that it wakes keeps its mail. */
  lemma RecvExactly(m: Mb, e: Event, u: Tid)
    requires Inv(m) && (e.Recv? || e.Rerecv?) && Enabled(m, e)
    ensures var (m', o) := Do(m, e);
      && (o.Received? <==> m.mails != [])
      && (o == Empty <==> m.mails == [] && !e.mayWait)
      && (o == Blocked <==> m.mails == [] && e.mayWait)
      && (if o.Received? then m.mails == [o.mail] + m'.mails else m'.mails == m.mails)
      && m'.size == m.size && m'.flag == m.flag && m'.prio == m.prio
    ensures var (m', o) := Do(m, e);
      && PcOf(m', e.t) == (if o == Blocked then RecvWait else Idle)
      && (u in m'.receivers <==> u in m.receivers || (o == Blocked && u == e.t))
      && (u in m'.senders <==> u in m.senders && !(o.Received? && u == m.senders[0]))
      && (u != e.t ==>
            PcOf(m', u) == if o.Received? && u in m.senders && u == m.senders[0] then SendWoken(PcOf(m, u).mail) else PcOf(m, u))
  {
    SuspendElems(m.receivers, e.t, m.prio, m.flag);
    if m.senders != [] {
      assert m.senders[0] in m.senders;
      UnlinkHead(m.senders);
      assert m.senders == [m.senders[0]] + m.senders[1..];
    }
  }

  /** A timeout ends the wait of that thread, a reset that of all and empties the mailbox, a change of priority
      changes that priority, and none of them anything else. */
  lemma OthersExactly(m: Mb, t: Tid, p: nat, u: Tid)
    requires Inv(m)
    ensures t in m.receivers || t in m.senders ==>
      var m' := Do(m, Timeout(t)).0;
      && (u in m'.receivers <==> u in m.receivers && u != t) && (u in m'.senders <==> u in m.senders && u != t)
      && PcOf(m', u) == (if u == t then Idle else PcOf(m, u))
      && m'.(receivers := m.receivers, senders := m.senders, pc := m.pc) == m
    ensures var m' := Do(m, Reset).0;
      && m'.mails == [] && m'.receivers == [] && m'.senders == []
      && PcOf(m', u) == (if u in m.receivers || u in m.senders then Idle else PcOf(m, u))
      && m'.size == m.size && m'.flag == m.flag && m'.prio == m.prio
    ensures var m' := Do(m, SetPrio(t, p)).0;
      m'.(prio := m.prio) == m && PrioOf(m'.prio, u) == if u == t then p else PrioOf(m.prio, u)
  {
  }

  // ---------------------------------------------------------------- the mailbox object

  /** The stored mails: `entry` slots of the pool from `out` on, around its end. */
  function Contents(pool: seq<Mail>, out: nat, entry: nat): seq<Mail>
    requires entry <= |pool| && (out < |pool| || entry == 0)
    decreases entry
  {
    if entry == 0 then [] else [pool[out]] + Contents(pool, Next(out, |pool|), entry - 1)
  }

  /** The slot behind slot `i`. */
  function Next(i: nat, size: nat): (n: nat)
    ensures i < size ==> n < size
  {
    if i + 1 >= size then 0 else i + 1
  }

  /** The slot `k` places behind slot `i`. */
  function Slot(i: nat, k: nat, size: nat): nat {
    if i + k >= size then i + k - size else i + k
  }

  lemma {:induction false} ContentsAt(pool: seq<Mail>, out: nat, entry: nat, k: nat)
    requires out < |pool| && entry <= |pool| && k < entry
    ensures |Contents(pool, out, entry)| == entry
    ensures Slot(out, k, |pool|) < |pool| && Contents(pool, out, entry)[k] == pool[Slot(out, k, |pool|)]
    decreases entry
  {
    if k > 0 {
      ContentsAt(pool, Next(out, |pool|), entry - 1, k - 1);
    } else if entry > 1 {
      ContentsAt(pool, Next(out, |pool|), entry - 1, 0);
    }
  }

  lemma ContentsLen(pool: seq<Mail>, out: nat, entry: nat)
    requires entry <= |pool| && (out < |pool| || entry == 0)
    ensures |Contents(pool, out, entry)| == entry
  {
    if entry > 0 { ContentsAt(pool, out, entry, 0); }
  }

  /** Writing the slot behind the last stored mail appends to the contents. */
  lemma StoreAppends(pool: seq<Mail>, out: nat, entry: nat, mail: Mail)
    requires out < |pool| && entry < |pool|
    ensures Slot(out, entry, |pool|) < |pool|
    ensures Contents(pool[Slot(out, entry, |pool|) := mail], out, entry + 1) == Contents(pool, out, entry) + [mail]
  {
    var pool' := pool[Slot(out, entry, |pool|) := mail];
    var a, b := Contents(pool', out, entry + 1), Contents(pool, out, entry) + [mail];
    ContentsLen(pool', out, entry + 1);
    ContentsLen(pool, out, entry);
    forall k | 0 <= k <= entry
      ensures a[k] == b[k]
    {
      ContentsAt(pool', out, entry + 1, k);
      if k < entry { ContentsAt(pool, out, entry, k); }
    }
  }

  /** The invariant; the methods below look inside only through SoundIs. */
  ghost predicate Sound(m: Mb) { forall x: Mb {:trigger Seen(x)} :: x == m && Seen(x) ==> Inv(x) }

  lemma SoundIs(m: Mb)
    requires Sound(m)
    ensures Inv(m)
  {
    assert Seen(m);
  }

  lemma SendSound(m: Mb, t: Tid, mail: Mail, mayWait: bool)
    requires Sound(m) && MaySend(m, t)
    ensures Sound(SendRegion(m, t, mail, mayWait).0) && |m.mails| <= m.size
  {
    SoundIs(m);
    if |m.mails| == m.size { SendBlocks(m, t, mail, mayWait); } else { SendStores(m, t, mail, mayWait); }
  }

  lemma RecvSound(m: Mb, t: Tid, mayWait: bool)
    requires Sound(m) && MayRecv(m, t)
    ensures Sound(RecvRegion(m, t, mayWait).0)
  {
    SoundIs(m);
    if m.mails == [] { RecvBlocks(m, t, mayWait); } else { RecvTakes(m, t, mayWait); }
  }

  lemma StepSound(m: Mb, e: Event)
    requires Sound(m) && Enabled(m, e)
    ensures Sound(Do(m, e).0)
  {
    SoundIs(m);
    StepKeepsInv(m, e);
  }

  class MailboxObject {
    const size: nat
    const flag: Flag
    var pool: array<Mail>             // msg_pool
    var entry: nat
    var inOffset: nat
    var outOffset: nat
    var receivers: seq<Tid>           // parent.suspend_thread
    var senders: seq<Tid>             // suspend_sender_thread
    var prio: map<Tid, nat>           // current_priority of the threads
    ghost var pc: map<Tid, Pc>

    ghost predicate Valid()
      reads this, pool
    {
      RingOk() && Sound(Abs())
    }

    /** The offsets delimit the stored mails. */
    ghost predicate RingOk()
      reads this, pool
    {
      && pool.Length == size
      && entry <= size
      && (if size == 0 then inOffset == outOffset == 0
          else outOffset < size && inOffset == Slot(outOffset, entry, size))
    }

    ghost function Mails(): seq<Mail>
      reads this`pool, this`outOffset, this`entry, pool
    {
      if entry <= pool.Length && (outOffset < pool.Length || entry == 0) then Contents(pool[..], outOffset, entry) else []
    }

    /** The mailbox as the protocol sees it. */
    ghost function Abs(): Mb
      reads this, pool
    {
      Mb(size, flag, prio, Mails(), receivers, senders, pc)
    }

    constructor (pool: array<Mail>, flag: Flag, prio: map<Tid, nat>)
      ensures Valid() && this.pool == pool
      ensures Abs() == Init(pool.Length, flag, prio)
    {
      this.size := pool.Length;
      this.flag := flag;
      this.pool := pool;
      this.prio := prio;
      entry, inOffset, outOffset := 0, 0, 0;
      receivers, senders := [], [];
      pc := map[];
    }

    /** rt_ipc_list_suspend on one of the two lists. */
    method Enlist(list: seq<Tid>, t: Tid) returns (r: seq<Tid>)
      ensures r == Suspend(list, t, prio, flag)
    {
      match flag
      case Fifo => r := list + [t];
      case Prio =>
        var n := FindSpot(list, prio, t);
        r := list[..n] + [t] + list[n..];
    }

    /** Store a mail behind the others. */
    method Put(mail: Mail)
      requires RingOk() && entry < size
      modifies this`entry, this`inOffset, pool
      ensures RingOk() && Mails() == old(Mails()) + [mail]
    {
      StoreAppends(pool[..], outOffset, entry, mail);
      ghost var p0 := pool[..];
      pool[inOffset] := mail;
      assert pool[..] == p0[inOffset := mail];
      inOffset := inOffset + 1;
      if inOffset >= size { inOffset := 0; }
      entry := entry + 1;
    }

    /** Take the oldest mail. */
    method Get() returns (mail: Mail)
      requires RingOk() && entry > 0
      modifies this`entry, this`outOffset
      ensures RingOk() && old(Mails()) != [] && mail == old(Mails())[0] && Mails() == old(Mails())[1..]
    {
      mail := pool[outOffset];
      outOffset := outOffset + 1;
      if outOffset >= size { outOffset := 0; }
      entry := entry - 1;
    }

    lemma MailsLen()
      requires RingOk()
      ensures |Mails()| == entry
    {
      ContentsLen(pool[..], outOffset, entry);
    }

    /** Resume the first suspended receiver, if any. */
    method ResumeReceiver()
      modifies this`receivers, this`pc
      ensures Abs() == WakeReceiver(old(Abs()))
    {
      if receivers != [] {
        pc := pc[receivers[0] := RecvWoken];
        receivers := receivers[1..];
      }
    }

    /** Resume the first suspended sender, if any. */
    method ResumeSender()
      modifies this`senders, this`pc
      ensures Abs() == WakeSender(old(Abs()))
    {
      if senders != [] {
        ghost var t := senders[0];
        pc := pc[t := SendWoken(if PcOf(Abs(), t).SendWait? then PcOf(Abs(), t).mail else 0)];
        senders := senders[1..];
      }
    }

    /** The loop body of rt_mb_send_wait: return, or suspend the thread. */
    method OnFull(t: Tid, mail: Mail, mayWait: bool) returns (o: Outcome)
      requires Valid() && MaySend(Abs(), t) && entry == size
      modifies this`senders, this`pc
      ensures Valid()
      ensures (Abs(), o) == SendRegion(old(Abs()), t, mail, mayWait)
    {
      MailsLen();
      SendSound(Abs(), t, mail, mayWait);
      if !mayWait {
        pc := pc[t := Idle];
        return Full;
      }
      senders := Enlist(senders, t);
      pc := pc[t := SendWait(mail)];
      o := Blocked;
    }

    /** The loop body of rt_mb_recv. */
    method OnEmpty(t: Tid, mayWait: bool) returns (o: Outcome)
      requires Valid() && MayRecv(Abs(), t) && entry == 0
      modifies this`receivers, this`pc
      ensures Valid()
      ensures (Abs(), o) == RecvRegion(old(Abs()), t, mayWait)
    {
      MailsLen();
      RecvSound(Abs(), t, mayWait);
      if !mayWait {
        pc := pc[t := Idle];
        return Empty;
      }
      receivers := Enlist(receivers, t);
      pc := pc[t := RecvWait];
      o := Blocked;
    }

    /** One pass of rt_mb_send_wait by a thread that starts, or re-checks with its pending mail. */
    method SendPass(t: Tid, mail: Mail, mayWait: bool) returns (o: Outcome)
      requires Valid() && MaySend(Abs(), t)
      modifies this`entry, this`inOffset, this`receivers, this`senders, this`pc, pool
      ensures Valid()
      ensures (Abs(), o) == SendRegion(old(Abs()), t, mail, mayWait)
    {
      ghost var m := Abs();
      MailsLen();
      if entry == size {
        o := OnFull(t, mail, mayWait);
        return;
      }
      SendSound(m, t, mail, mayWait);
      Put(mail);
      pc := pc[t := Idle];
      ResumeReceiver();
      o := Sent;
    }

    /** One pass of rt_mb_recv. */
    method RecvPass(t: Tid, mayWait: bool) returns (o: Outcome)
      requires Valid() && MayRecv(Abs(), t)
      modifies this`entry, this`outOffset, this`receivers, this`senders, this`pc
      ensures Valid()
      ensures (Abs(), o) == RecvRegion(old(Abs()), t, mayWait)
    {
      ghost var m := Abs();
      MailsLen();
      if entry == 0 {
        o := OnEmpty(t, mayWait);
        return;
      }
      RecvSound(m, t, mayWait);
      var mail := Get();
      pc := pc[t := Idle];
      ResumeSender();
      o := Received(mail);
    }

    /** rt_mb_control(RT_IPC_CMD_RESET). */
    method ResetMailbox()
      requires Valid()
      modifies this
      ensures Valid() && pool == old(pool)
      ensures Abs() == ResetStep(old(Abs()))
    {
      StepSound(Abs(), Reset);
      pc := map t | t in pc :: if t in receivers || t in senders then Idle else pc[t];
      receivers := [];
      senders := [];
      entry, inOffset, outOffset := 0, 0, 0;
    }

    /** rt_thread_timeout of a thread suspended here. */
    method ThreadTimeout(t: Tid)
      requires Valid() && Enabled(Abs(), Timeout(t))
      modifies this`receivers, this`senders, this`pc
      ensures Valid()
      ensures Abs() == TimeoutStep(old(Abs()), t)
    {
      StepSound(Abs(), Timeout(t));
      receivers := Unlink(receivers, t);
      senders := Unlink(senders, t);
      pc := pc[t := Idle];
    }
  }
}

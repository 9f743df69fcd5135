/**
  Message queues (ipc.c) as a concurrent protocol.  Sending takes a node off the free list in one
  interrupt-disabled region, fills it with interrupts enabled, and links it in a second region;
  receiving unlinks a node, copies it out, and gives it back.  Other threads run in between.
*/
module MessageQueue {
  import opened Hiding
  import opened IpcList
  import opened Lists

  type Node = nat
  type Bytes = seq<bv8>

  /** Where a thread stands in rt_mq_send, rt_mq_urgent or rt_mq_recv. */
  datatype Pc =
    | Idle
    | Filling(node: Node, buffer: Bytes, urgent: bool)   // holds a node, message not yet copied in
    | Filled(node: Node, urgent: bool)                   // message copied in, not yet linked
    | RecvWait                                           // suspended on parent.suspend_thread
    | RecvWoken                                          // resumed, has not re-checked yet
    | Copying(node: Node)                                // node unlinked, message not yet copied out
    | Copied(node: Node)                                 // message copied out, node not yet given back

  datatype Outcome = Done | Blocked | TooLong | Full | Empty | Got(message: Bytes)

  /** `data` is the message area of every node. */
  datatype Mq = Mq(max: nat, msgSize: nat, flag: Flag, prio: map<Tid, nat>, queue: seq<Node>, free: seq<Node>,
                   data: map<Node, Bytes>, receivers: seq<Tid>, pc: map<Tid, Pc>)

  function PcOf(m: Mq, t: Tid): Pc { if t in m.pc then m.pc[t] else Idle }

  function DataOf(m: Mq, n: Node): Bytes { if n in m.data then m.data[n] else [] }

  predicate Holding(c: Pc) { c.Filling? || c.Filled? || c.Copying? || c.Copied? }

  // ---------------------------------------------------------------- the steps

  /** The message area after `buffer` was copied to its start. */
  function Overwrite(old_: Bytes, buffer: Bytes): Bytes {
    if |buffer| <= |old_| then buffer + old_[|buffer|..] else buffer
  }

  function AllocRegion(m: Mq, t: Tid, buffer: Bytes, urgent: bool): (Mq, Outcome) {
    if |buffer| > m.msgSize then (m, TooLong)
    else if m.free == [] then (m, Full)
    else (m.(free := m.free[1..], pc := m.pc[t := Filling(m.free[0], buffer, urgent)]), Done)
  }

  function FillStep(m: Mq, t: Tid): Mq
    requires PcOf(m, t).Filling?
  {
    var c := PcOf(m, t);
    m.(data := m.data[c.node := Overwrite(DataOf(m, c.node), c.buffer)], pc := m.pc[t := Filled(c.node, c.urgent)])
  }

  function LinkRegion(m: Mq, t: Tid): Mq
    requires PcOf(m, t).Filled?
  {
    var c := PcOf(m, t);
    WakeReceiver(m.(queue := if c.urgent then [c.node] + m.queue else m.queue + [c.node], pc := m.pc[t := Idle]))
  }

  function WakeReceiver(m: Mq): Mq {
    if m.receivers == [] then m
    else m.(receivers := m.receivers[1..], pc := m.pc[m.receivers[0] := RecvWoken])
  }

  function RecvRegion(m: Mq, t: Tid, mayWait: bool): (Mq, Outcome) {
    if m.queue == [] then
      if mayWait
      then (m.(receivers := Suspend(m.receivers, t, m.prio, m.flag), pc := m.pc[t := RecvWait]), Blocked)
      else (m.(pc := m.pc[t := Idle]), Empty)
    else (m.(queue := m.queue[1..], pc := m.pc[t := Copying(m.queue[0])]), Done)
  }

  function Least(a: nat, b: nat): (r: nat)
    ensures r <= a && r <= b && (r == a || r == b)
  {
    if a < b then a else b
  }

  /** Copy out as many bytes as the receiver asked for, at most the message size. */
  function CopyStep(m: Mq, t: Tid, size: nat): (Mq, Outcome)
    requires PcOf(m, t).Copying?
  {
    var d := DataOf(m, PcOf(m, t).node);
    (m.(pc := m.pc[t := Copied(PcOf(m, t).node)]), Got(d[..Least(size, |d|)]))
  }

  function ReleaseRegion(m: Mq, t: Tid): Mq
    requires PcOf(m, t).Copied?
  {
    m.(free := [PcOf(m, t).node] + m.free, pc := m.pc[t := Idle])
  }

  function TimeoutStep(m: Mq, t: Tid): Mq {
    m.(receivers := Unlink(m.receivers, t), pc := m.pc[t := Idle])
  }

  function Reverse(s: seq<Node>): (r: seq<Node>)
    ensures |r| == |s|
    ensures forall x :: x in r <==> x in s
  {
    if s == [] then [] else Reverse(s[1..]) + [s[0]]
  }

  /** The nodes `q0` on their way to the free list `f0`, one by one from the front. */
  ghost predicate Moving(q: seq<Node>, f: seq<Node>, q0: seq<Node>, f0: seq<Node>) {
    NoDup(q) && (forall n :: n in q ==> n !in f && n in q0) && Reverse(q) + f == Reverse(q0) + f0
  }

  lemma MoveHead(q: seq<Node>, f: seq<Node>, q0: seq<Node>, f0: seq<Node>)
    requires Moving(q, f, q0, f0) && q != []
    ensures Moving(q[1..], [q[0]] + f, q0, f0)
    ensures q[0] !in q[1..] && q[0] !in f && q[0] in q0
  {
    assert q == [q[0]] + q[1..];
    assert Reverse(q[1..]) + ([q[0]] + f) == Reverse(q) + f;
  }

  /** rt_mq_control(RT_IPC_CMD_RESET): waiting threads return with -RT_ERROR, every queued node is freed. */
  function ResetStep(m: Mq): Mq {
    m.(queue := [], free := Reverse(m.queue) + m.free, receivers := [],
       pc := map t | t in m.pc :: if t in m.receivers then Idle else m.pc[t])
  }

  datatype Event =
    | Alloc(t: Tid, buffer: Bytes, urgent: bool)
    | Fill(t: Tid)
    | Link(t: Tid)
    | Recv(t: Tid, mayWait: bool)
    | Rerecv(t: Tid, mayWait: bool)
    | Copy(t: Tid, size: nat)
    | Release(t: Tid)
    | Timeout(t: Tid)
    | SetPrio(t: Tid, p: nat)   // a thread changes its priority, suspended here or not
    | Reset

  predicate Enabled(m: Mq, e: Event) {
    match e
    case Alloc(t, _, _) => PcOf(m, t) == Idle
    case Fill(t) => PcOf(m, t).Filling?
    case Link(t) => PcOf(m, t).Filled?
    case Recv(t, _) => PcOf(m, t) == Idle
    case Rerecv(t, _) => PcOf(m, t) == RecvWoken
    case Copy(t, _) => PcOf(m, t).Copying?
    case Release(t) => PcOf(m, t).Copied?
    case Timeout(t) => t in m.receivers
    case SetPrio(_, _) => true
    case Reset => true
  }

  function Do(m: Mq, e: Event): (Mq, Outcome)
    requires Enabled(m, e)
  {
    match e
    case Alloc(t, buffer, urgent) => AllocRegion(m, t, buffer, urgent)
    case Fill(t) => (FillStep(m, t), Done)
    case Link(t) => (LinkRegion(m, t), Done)
    case Recv(t, mayWait) => RecvRegion(m, t, mayWait)
    case Rerecv(t, mayWait) => RecvRegion(m, t, mayWait)
    case Copy(t, size) => CopyStep(m, t, size)
    case Release(t) => (ReleaseRegion(m, t), Done)
    case Timeout(t) => (TimeoutStep(m, t), Empty)
    case SetPrio(t, p) => (m.(prio := m.prio[t := p]), Done)
    case Reset => (ResetStep(m), Done)
  }

  // ---------------------------------------------------------------- the invariant

  /** Some thread holds node `n` between two regions. */
  ghost predicate Held(pc: map<Tid, Pc>, n: Node) {
    exists t :: t in pc && Holding(pc[t]) && pc[t].node == n
  }

  /** No node is in two hands. */
  ghost predicate HeldOnce(pc: map<Tid, Pc>) {
    forall t, u :: t in pc && u in pc && Holding(pc[t]) && Holding(pc[u]) && pc[t].node == pc[u].node ==> t == u
  }

  /** Every pool node is in exactly one place: the queue, the free list, or the hands of one thread. */
  ghost predicate Partition(m: Mq) {
    && NoDup(m.queue) && NoDup(m.free) && HeldOnce(m.pc)
    && (forall n :: n in m.queue ==> n !in m.free && !Held(m.pc, n))
    && (forall n :: n in m.free ==> !Held(m.pc, n))
    && (forall n: Node :: n < m.max <==> n in m.queue || n in m.free || Held(m.pc, n))
  }

  function ReceiversWoken(pc: map<Tid, Pc>): set<Tid> { set t | t in pc && pc[t].RecvWoken? }

  ghost predicate Listed(m: Mq) {
    && NoDup(m.receivers)
    && (forall t :: t in m.receivers <==> t in m.pc && m.pc[t].RecvWait?)
  }

  /** While receivers are suspended, every queued message already has a receiver on its way. */
  ghost predicate NoLostWakeup(m: Mq) {
    m.receivers != [] ==> |m.queue| <= |ReceiversWoken(m.pc)|
  }

  /** Message areas keep their size. */
  ghost predicate Sized(m: Mq) {
    && (forall n: Node :: n < m.max ==> n in m.data && |m.data[n]| == m.msgSize)
    && (forall t :: t in m.pc && m.pc[t].Filling? ==> |m.pc[t].buffer| <= m.msgSize)
  }

  ghost predicate Inv(m: Mq) {
    Partition(m) && Listed(m) && NoLostWakeup(m) && Sized(m)
  }

  // ---- who holds what after one program counter changed

  lemma HeldAfter(pc: map<Tid, Pc>, t: Tid, c: Pc, n: Node)
    requires HeldOnce(pc)
    ensures Held(pc[t := c], n) <==>
      if Holding(c) && c.node == n then true
      else Held(pc, n) && !(t in pc && Holding(pc[t]) && pc[t].node == n)
  {
    var pc' := pc[t := c];
    if Held(pc', n) {
      var u :| u in pc' && Holding(pc'[u]) && pc'[u].node == n;
      if u != t { assert u in pc && pc[u] == pc'[u]; }
    }
    if Holding(c) && c.node == n {
      assert t in pc';
    } else if Held(pc, n) && !(t in pc && Holding(pc[t]) && pc[t].node == n) {
      var u :| u in pc && Holding(pc[u]) && pc[u].node == n;
      assert u in pc' && pc'[u] == pc[u];
    }
  }

  lemma HeldOnceAfter(pc: map<Tid, Pc>, t: Tid, c: Pc)
    requires HeldOnce(pc)
    requires Holding(c) ==> forall u :: u in pc && u != t && Holding(pc[u]) ==> pc[u].node != c.node
    ensures HeldOnce(pc[t := c])
  {
  }

  lemma WokenAfter(pc: map<Tid, Pc>, t: Tid, c: Pc)
    ensures |ReceiversWoken(pc[t := c])| == |ReceiversWoken(pc)| + (if c.RecvWoken? then 1 else 0) - (if t in pc && pc[t].RecvWoken? then 1 else 0)
  {
    var a, b := ReceiversWoken(pc), ReceiversWoken(pc[t := c]);
    if c.RecvWoken? { assert b == a + {t}; } else { assert b == a - {t}; }
  }

  /** A thread that holds nothing before and after leaves the partition alone. */
  lemma PcPartition(m: Mq, t: Tid, c: Pc)
    requires Partition(m) && !Holding(PcOf(m, t)) && !Holding(c)
    ensures Partition(m.(pc := m.pc[t := c]))
  {
    forall n: Node
      ensures Held(m.pc[t := c], n) <==> Held(m.pc, n)
    {
      HeldAfter(m.pc, t, c, n);
    }
    HeldOnceAfter(m.pc, t, c);
  }

  lemma AllocPartition(m: Mq, t: Tid, buffer: Bytes, urgent: bool)
    requires Partition(m) && PcOf(m, t) == Idle && m.free != []
    ensures Partition(m.(free := m.free[1..], pc := m.pc[t := Filling(m.free[0], buffer, urgent)]))
  {
    var node, c := m.free[0], Filling(m.free[0], buffer, urgent);
    forall n: Node
      ensures Held(m.pc[t := c], n) <==> Held(m.pc, n) || n == node
    {
      HeldAfter(m.pc, t, c, n);
    }
    assert node in m.free;
    assert forall u :: u in m.pc && Holding(m.pc[u]) && m.pc[u].node == node ==> Held(m.pc, node);
    HeldOnceAfter(m.pc, t, c);
    UnlinkHead(m.free);
    assert m.free == [node] + m.free[1..];
  }

  lemma RecvPartition(m: Mq, t: Tid)
    requires Partition(m) && !Holding(PcOf(m, t)) && m.queue != []
    ensures Partition(m.(queue := m.queue[1..], pc := m.pc[t := Copying(m.queue[0])]))
  {
    var node, c := m.queue[0], Copying(m.queue[0]);
    forall n: Node
      ensures Held(m.pc[t := c], n) <==> Held(m.pc, n) || n == node
    {
      HeldAfter(m.pc, t, c, n);
    }
    assert node in m.queue;
    assert forall u :: u in m.pc && Holding(m.pc[u]) && m.pc[u].node == node ==> Held(m.pc, node);
    HeldOnceAfter(m.pc, t, c);
    UnlinkHead(m.queue);
    assert m.queue == [node] + m.queue[1..];
  }

  /** A thread gives its node to the queue or to the free list. */
  lemma GivePartition(m: Mq, t: Tid, queue: seq<Node>, free: seq<Node>)
    requires Partition(m) && Holding(PcOf(m, t))
    requires var n := PcOf(m, t).node;
      || (free == m.free && (queue == [n] + m.queue || queue == m.queue + [n]))
      || (queue == m.queue && free == [n] + m.free)
    ensures Partition(m.(queue := queue, free := free, pc := m.pc[t := Idle]))
  {
    var node := PcOf(m, t).node;
    assert Held(m.pc, node);
    forall n: Node
      ensures Held(m.pc[t := Idle], n) <==> Held(m.pc, n) && n != node
    {
      HeldAfter(m.pc, t, Idle, n);
    }
    HeldOnceAfter(m.pc, t, Idle);
  }

  /** A thread keeps its node in hand. */
  lemma KeepPartition(m: Mq, t: Tid, c: Pc)
    requires Partition(m) && Holding(PcOf(m, t)) && Holding(c) && c.node == PcOf(m, t).node
    ensures Partition(m.(pc := m.pc[t := c]))
  {
    forall n: Node
      ensures Held(m.pc[t := c], n) <==> Held(m.pc, n)
    {
      HeldAfter(m.pc, t, c, n);
    }
    HeldOnceAfter(m.pc, t, c);
  }

  lemma {:induction false} ReverseNoDup(s: seq<Node>)
    requires NoDup(s)
    ensures NoDup(Reverse(s))
  {
    if s != [] {
      ReverseNoDup(s[1..]);
      var r := Reverse(s[1..]);
      assert forall i :: 0 <= i < |r| ==> r[i] in r && r[i] in s[1..];
    }
  }

  lemma ResetPartition(m: Mq)
    requires Partition(m) && Listed(m)
    ensures Partition(ResetStep(m))
  {
    var pc := ResetStep(m).pc;
    forall n: Node
      ensures Held(pc, n) <==> Held(m.pc, n)
    {
      if Held(m.pc, n) {
        var t :| t in m.pc && Holding(m.pc[t]) && m.pc[t].node == n;
        assert t in pc && pc[t] == m.pc[t];
      }
      if Held(pc, n) {
        var t :| t in pc && Holding(pc[t]) && pc[t].node == n;
        assert t in m.pc && pc[t] == m.pc[t];
      }
    }
    ReverseNoDup(m.queue);
    NoDupConcat(Reverse(m.queue), m.free);
  }

  lemma NoDupConcat(a: seq<Node>, b: seq<Node>)
    requires NoDup(a) && NoDup(b) && forall x :: x in a ==> x !in b
    ensures NoDup(a + b)
  {
    assert forall i :: 0 <= i < |a| ==> a[i] in a;
    assert forall i :: 0 <= i < |b| ==> b[i] in b;
  }

  lemma WakeKeeps(m: Mq)
    requires Partition(m) && Listed(m) && Sized(m)
    requires m.receivers != [] ==> |m.queue| <= |ReceiversWoken(m.pc)| + 1
    ensures Inv(WakeReceiver(m))
  {
    if m.receivers != [] {
      var r := m.receivers[0];
      assert r in m.receivers;
      PcPartition(m, r, RecvWoken);
      UnlinkHead(m.receivers);
      WokenAfter(m.pc, r, RecvWoken);
    }
  }

  lemma AllocKeeps(m: Mq, t: Tid, buffer: Bytes, urgent: bool)
    requires Inv(m) && PcOf(m, t) == Idle
    ensures Inv(AllocRegion(m, t, buffer, urgent).0)
  {
    if |buffer| <= m.msgSize && m.free != [] {
      AllocPartition(m, t, buffer, urgent);
      WokenAfter(m.pc, t, Filling(m.free[0], buffer, urgent));
    }
  }

  lemma FillKeeps(m: Mq, t: Tid)
    requires Inv(m) && PcOf(m, t).Filling?
    ensures Inv(FillStep(m, t))
  {
    var c := PcOf(m, t);
    KeepPartition(m, t, Filled(c.node, c.urgent));
    WokenAfter(m.pc, t, Filled(c.node, c.urgent));
    assert Held(m.pc, c.node);
  }

  lemma LinkKeeps(m: Mq, t: Tid)
    requires Inv(m) && PcOf(m, t).Filled?
    ensures Inv(LinkRegion(m, t))
  {
    var c := PcOf(m, t);
    var queue := if c.urgent then [c.node] + m.queue else m.queue + [c.node];
    GivePartition(m, t, queue, m.free);
    WokenAfter(m.pc, t, Idle);
    WakeKeeps(m.(queue := queue, pc := m.pc[t := Idle]));
  }

  lemma RecvKeeps(m: Mq, t: Tid, mayWait: bool)
    requires Inv(m) && (PcOf(m, t) == Idle || PcOf(m, t) == RecvWoken)
    ensures Inv(RecvRegion(m, t, mayWait).0)
  {
    if m.queue == [] {
      PcPartition(m, t, if mayWait then RecvWait else Idle);
      SuspendElems(m.receivers, t, m.prio, m.flag);
      SuspendNoDup(m.receivers, t, m.prio, m.flag);
      WokenAfter(m.pc, t, if mayWait then RecvWait else Idle);
    } else {
      RecvPartition(m, t);
      WokenAfter(m.pc, t, Copying(m.queue[0]));
    }
  }

  lemma CopyReleaseKeep(m: Mq, t: Tid, size: nat)
    requires Inv(m)
    ensures PcOf(m, t).Copying? ==> Inv(CopyStep(m, t, size).0)
    ensures PcOf(m, t).Copied? ==> Inv(ReleaseRegion(m, t))
  {
    var c := PcOf(m, t);
    if c.Copying? {
      KeepPartition(m, t, Copied(c.node));
      WokenAfter(m.pc, t, Copied(c.node));
    }
    if c.Copied? {
      GivePartition(m, t, m.queue, [c.node] + m.free);
      WokenAfter(m.pc, t, Idle);
    }
  }

  lemma TimeoutKeeps(m: Mq, t: Tid)
    requires Inv(m) && t in m.receivers
    ensures Inv(TimeoutStep(m, t))
  {
    PcPartition(m, t, Idle);
    UnlinkNoDup(m.receivers, t);
    WokenAfter(m.pc, t, Idle);
  }

  /** Every step of every thread keeps the invariant. */
  lemma StepKeepsInv(m: Mq, e: Event)
    requires Inv(m) && Enabled(m, e)
    ensures Inv(Do(m, e).0)
  {
    match e
    case Alloc(t, buffer, urgent) => AllocKeeps(m, t, buffer, urgent);
    case Fill(t) => FillKeeps(m, t);
    case Link(t) => LinkKeeps(m, t);
    case Recv(t, mayWait) => RecvKeeps(m, t, mayWait);
    case Rerecv(t, mayWait) => RecvKeeps(m, t, mayWait);
    case Copy(t, size) => CopyReleaseKeep(m, t, size);
    case Release(t) => CopyReleaseKeep(m, t, 0);
    case Timeout(t) => TimeoutKeeps(m, t);
    case SetPrio(t, p) => SetPrioKeeps(m, t, p);
    case Reset => ResetPartition(m);
  }

  lemma SetPrioKeeps(m: Mq, t: Tid, p: nat)
    requires Inv(m)
    ensures Inv(m.(prio := m.prio[t := p]))
  {
  }

  // ---------------------------------------------------------------- the order of the list

  /** The wait list is ordered by urgency. */
  ghost predicate Ranked(m: Mq) { Urgency(m.receivers, m.prio) }

  /** A change of priority leaves a waiting thread between its neighbours. */
  ghost predicate Fitting(m: Mq, e: Event) { e.SetPrio? ==> Between(m.receivers, m.prio, e.t, e.p) }

  /** With RT_IPC_FLAG_PRIO a step keeps the list ordered exactly when it is not an unfitting change of
      priority. */
  lemma StepRanksExactly(m: Mq, e: Event)
    requires Inv(m) && m.flag.Prio? && Ranked(m) && Enabled(m, e)
    ensures Ranked(Do(m, e).0) <==> Fitting(m, e)
  {
    match e
    case Recv(t, _) => SuspendByUrgency(m.receivers, t, m.prio);
    case Rerecv(t, _) => SuspendByUrgency(m.receivers, t, m.prio);
    case Timeout(t) => UnlinkUrgency(m.receivers, t, m.prio);
    case SetPrio(t, p) => BetweenExactly(m.receivers, m.prio, t, p);
    case _ =>
  }

  // ---------------------------------------------------------------- the deque it implements

  /** The queued messages, front first. */
  function Messages(m: Mq): (r: seq<Bytes>)
    ensures |r| == |m.queue|
  {
    Texts(m.data, m.queue)
  }

  function Texts(data: map<Node, Bytes>, queue: seq<Node>): (r: seq<Bytes>)
    ensures |r| == |queue|
  {
    if queue == [] then [] else [if queue[0] in data then data[queue[0]] else []] + Texts(data, queue[1..])
  }

  lemma {:induction false} TextsAppend(data: map<Node, Bytes>, queue: seq<Node>, n: Node)
    ensures Texts(data, queue + [n]) == Texts(data, queue) + Texts(data, [n])
  {
    if queue != [] {
      TextsAppend(data, queue[1..], n);
      assert (queue + [n])[1..] == queue[1..] + [n];
    } else {
      assert queue + [n] == [n];
    }
  }

  lemma {:induction false} TextsFrame(data: map<Node, Bytes>, queue: seq<Node>, n: Node, text: Bytes)
    requires n !in queue
    ensures Texts(data[n := text], queue) == Texts(data, queue)
  {
    if queue != [] {
      assert queue[0] in queue;
      TextsFrame(data, queue[1..], n, text);
    }
  }

  datatype DequeOp = PushBack(message: Bytes) | PushFront(message: Bytes) | PopFront | Clear | Skip

  /** The deque operation a step stands for; only the second region of a send and the first region of a
      receive that finds a message count. */
  function OpOf(m: Mq, e: Event): DequeOp
    requires Enabled(m, e)
  {
    match e
    case Link(t) =>
      if PcOf(m, t).urgent then PushFront(DataOf(m, PcOf(m, t).node)) else PushBack(DataOf(m, PcOf(m, t).node))
    case Recv(_, _) => if m.queue == [] then Skip else PopFront
    case Rerecv(_, _) => if m.queue == [] then Skip else PopFront
    case Reset => Clear
    case _ => Skip
  }

  function Apply(op: DequeOp, s: seq<Bytes>): seq<Bytes> {
    match op
    case PushBack(x) => s + [x]
    case PushFront(x) => [x] + s
    case PopFront => if s == [] then [] else s[1..]
    case Clear => []
    case Skip => s
  }

  /** What one step does to the queued messages: a link appends or, if urgent, prepends what the sender
      filled in; a successful receive takes the front; a reset empties; nothing else touches them, not
      even writing to a node. */
  lemma StepOnMessages(m: Mq, e: Event)
    requires Inv(m) && Enabled(m, e)
    ensures Messages(Do(m, e).0) == Apply(OpOf(m, e), Messages(m))
  {
    match e
    case Fill(t) => FillHidden(m, t);
    case Link(t) => LinkShows(m, t);
    case _ =>
  }

  lemma FillHidden(m: Mq, t: Tid)
    requires Inv(m) && PcOf(m, t).Filling?
    ensures Messages(FillStep(m, t)) == Messages(m)
  {
    var c := PcOf(m, t);
    assert Held(m.pc, c.node);
    TextsFrame(m.data, m.queue, c.node, Overwrite(DataOf(m, c.node), c.buffer));
  }

  lemma LinkShows(m: Mq, t: Tid)
    requires PcOf(m, t).Filled?
    ensures Messages(LinkRegion(m, t)) == Apply(OpOf(m, Link(t)), Messages(m))
  {
    var c := PcOf(m, t);
    TextsAppend(m.data, m.queue, c.node);
    assert ([c.node] + m.queue)[1..] == m.queue;
    assert Texts(m.data, [c.node]) == [DataOf(m, c.node)];
  }

  predicate EnabledRun(m: Mq, es: seq<Event>)
    decreases |es|
  {
    es == [] || (Enabled(m, es[0]) && EnabledRun(Do(m, es[0]).0, es[1..]))
  }

  function Run(m: Mq, es: seq<Event>): Mq
    requires EnabledRun(m, es)
    decreases |es|
  {
    if es == [] then m else Run(Do(m, es[0]).0, es[1..])
  }

  lemma {:induction false} RunKeepsInv(m: Mq, es: seq<Event>)
    requires Inv(m) && EnabledRun(m, es)
    ensures Inv(Run(m, es))
    decreases |es|
  {
    if es != [] {
      StepKeepsInv(m, es[0]);
      RunKeepsInv(Do(m, es[0]).0, es[1..]);
    }
  }

  ghost predicate FittingRun(m: Mq, es: seq<Event>)
    requires EnabledRun(m, es)
    decreases |es|
  {
    es == [] || (Fitting(m, es[0]) && FittingRun(Do(m, es[0]).0, es[1..]))
  }

  /** In every run whose changes of priority fit, the list stays ordered. */
  lemma {:induction false} RunRanks(m: Mq, es: seq<Event>)
    requires Inv(m) && m.flag.Prio? && Ranked(m) && EnabledRun(m, es) && FittingRun(m, es)
    ensures Ranked(Run(m, es))
    decreases |es|
  {
    if es != [] {
      StepKeepsInv(m, es[0]);
      StepRanksExactly(m, es[0]);
      RunRanks(Do(m, es[0]).0, es[1..]);
    }
  }

  /** Not a step that `t` takes; its priority may change. */
  predicate Other(e: Event, t: Tid) { e.Reset? || e.SetPrio? || e.t != t }

  /** A step of another thread neither takes a node out of `t`'s hands nor writes to it. */
  lemma HeldNodeOneStep(m: Mq, e: Event, t: Tid)
    requires Inv(m) && Enabled(m, e) && Holding(PcOf(m, t)) && Other(e, t)
    ensures PcOf(Do(m, e).0, t) == PcOf(m, t)
    ensures DataOf(Do(m, e).0, PcOf(m, t).node) == DataOf(m, PcOf(m, t).node)
  {
    assert t !in m.receivers;
    if m.receivers != [] { assert m.receivers[0] in m.receivers; }
    if e.Fill? { assert t in m.pc && e.t in m.pc && m.pc[t].node != m.pc[e.t].node; }
  }

  /** Whatever the other threads do, a node in hand stays in hand and its message area does not change:
      what is linked is what was filled in, and what is copied out is what was at the front. */
  lemma {:induction false} HeldNodeIsStable(m: Mq, es: seq<Event>, t: Tid)
    requires Inv(m) && EnabledRun(m, es) && Holding(PcOf(m, t))
    requires forall i :: 0 <= i < |es| ==> Other(es[i], t)
    ensures PcOf(Run(m, es), t) == PcOf(m, t)
    ensures DataOf(Run(m, es), PcOf(m, t).node) == DataOf(m, PcOf(m, t).node)
    decreases |es|
  {
    if es != [] {
      StepKeepsInv(m, es[0]);
      HeldNodeOneStep(m, es[0], t);
      HeldNodeIsStable(Do(m, es[0]).0, es[1..], t);
    }
  }

  /** A whole receive: however long the receiver is preempted between unlinking and copying, it gets
      the first bytes of the message that was at the front. */
  lemma ReceiveDeliversFront(m: Mq, t: Tid, mayWait: bool, es: seq<Event>, size: nat)
    requires Inv(m) && (PcOf(m, t) == Idle || PcOf(m, t) == RecvWoken) && m.queue != []
    requires EnabledRun(RecvRegion(m, t, mayWait).0, es) && forall i :: 0 <= i < |es| ==> Other(es[i], t)
    ensures var m' := Run(RecvRegion(m, t, mayWait).0, es);
      && Enabled(m', Copy(t, size))
      && var front := Messages(m)[0]; Do(m', Copy(t, size)).1 == Got(front[..Least(size, |front|)])
  {
    RecvKeeps(m, t, mayWait);
    HeldNodeIsStable(RecvRegion(m, t, mayWait).0, es, t);
  }

  /** A whole send: whatever happens between filling and linking, the message that is appended (or,
      urgent, put in front) starts with the bytes of the buffer. */
  lemma SendAppendsBuffer(m: Mq, t: Tid, es: seq<Event>)
    requires Inv(m) && PcOf(m, t).Filling?
    requires EnabledRun(FillStep(m, t), es) && forall i :: 0 <= i < |es| ==> Other(es[i], t)
    ensures var m', c := Run(FillStep(m, t), es), PcOf(m, t);
      && Enabled(m', Link(t))
      && var after := Messages(Do(m', Link(t)).0);
        && |after| == |Messages(m')| + 1
        && (if c.urgent then after[1..] == Messages(m') else after[..|after| - 1] == Messages(m'))
        && c.buffer <= after[if c.urgent then 0 else |after| - 1]
  {
    FillKeeps(m, t);
    HeldNodeIsStable(FillStep(m, t), es, t);
    RunKeepsInv(FillStep(m, t), es);
    StepOnMessages(Run(FillStep(m, t), es), Link(t));
    assert Held(m.pc, PcOf(m, t).node);
  }

  function ApplyAll(m: Mq, es: seq<Event>, s: seq<Bytes>): seq<Bytes>
    requires EnabledRun(m, es)
    decreases |es|
  {
    if es == [] then s else ApplyAll(Do(m, es[0]).0, es[1..], Apply(OpOf(m, es[0]), s))
  }

  /** Every interleaving is a run of one deque of whole messages: the nodes that threads hold, and the
      writes to them, never show. */
  lemma {:induction false} RunIsDeque(m: Mq, es: seq<Event>)
    requires Inv(m) && EnabledRun(m, es)
    ensures Messages(Run(m, es)) == ApplyAll(m, es, Messages(m))
    decreases |es|
  {
    if es != [] {
      StepKeepsInv(m, es[0]);
      StepOnMessages(m, es[0]);
      RunIsDeque(Do(m, es[0]).0, es[1..]);
    }
  }

  // ---- the bound of the deque

  function Holders(pc: map<Tid, Pc>): set<Tid> { set t | t in pc && Holding(pc[t]) }

  function Elems(s: seq<Node>): set<Node> { set n | n in s }

  ghost function InHand(pc: map<Tid, Pc>, hs: set<Tid>): set<Node>
    requires forall t :: t in hs ==> t in pc && Holding(pc[t])
  {
    set t | t in hs && t in pc && Holding(pc[t]) :: pc[t].node
  }

  lemma {:induction false} ElemsCount(s: seq<Node>)
    requires NoDup(s)
    ensures |Elems(s)| == |s|
  {
    if s != [] {
      ElemsCount(s[1..]);
      assert s == [s[0]] + s[1..];
      assert Elems(s) == {s[0]} + Elems(s[1..]);
      assert s[0] !in s[1..];
    }
  }

  lemma {:induction false} InHandCount(pc: map<Tid, Pc>, hs: set<Tid>)
    requires HeldOnce(pc) && forall t :: t in hs ==> t in pc && Holding(pc[t])
    ensures |InHand(pc, hs)| == |hs|
    decreases |hs|
  {
    if hs != {} {
      var t :| t in hs;
      InHandCount(pc, hs - {t});
      assert InHand(pc, hs) == InHand(pc, hs - {t}) + {pc[t].node};
    }
  }

  /** The nodes of a pool of `n`. */
  function Below(n: nat): (r: set<Node>)
    ensures |r| == n && forall x: Node :: x in r <==> x < n
  {
    if n == 0 then {} else Below(n - 1) + {n - 1}
  }

  lemma InHandIsHeld(pc: map<Tid, Pc>, n: Node)
    ensures n in InHand(pc, Holders(pc)) <==> Held(pc, n)
  {
    if Held(pc, n) {
      var t :| t in pc && Holding(pc[t]) && pc[t].node == n;
      assert t in Holders(pc);
    }
  }

  lemma DisjointCount(a: set<Node>, b: set<Node>, c: set<Node>, all: set<Node>)
    requires a !! b && a !! c && b !! c && all == a + b + c
    ensures |all| == |a| + |b| + |c|
  {
  }

  /** Queued messages, free nodes and threads that hold a node add up to the pool. */
  lemma PoolCount(m: Mq)
    requires Partition(m)
    ensures |m.queue| + |m.free| + |Holders(m.pc)| == m.max
  {
    ElemsCount(m.queue);
    ElemsCount(m.free);
    InHandCount(m.pc, Holders(m.pc));
    PoolSplit(m);
    DisjointCount(Elems(m.queue), Elems(m.free), InHand(m.pc, Holders(m.pc)), Below(m.max));
  }

  lemma PoolSplit(m: Mq)
    requires Partition(m)
    ensures var q, f, h := Elems(m.queue), Elems(m.free), InHand(m.pc, Holders(m.pc));
      q !! f && q !! h && f !! h && Below(m.max) == q + f + h
  {
    var h := InHand(m.pc, Holders(m.pc));
    forall n: Node
      ensures n in h <==> Held(m.pc, n)
    {
      InHandIsHeld(m.pc, n);
    }
  }

  /** A send of an admissible length is refused exactly when the queued messages and the nodes in other
      threads' hands use up the pool. */
  lemma SendRefusedExactly(m: Mq, t: Tid, buffer: Bytes, urgent: bool)
    requires Inv(m) && PcOf(m, t) == Idle && |buffer| <= m.msgSize
    ensures AllocRegion(m, t, buffer, urgent).1 == Full <==> |m.queue| + |Holders(m.pc)| == m.max
  {
    PoolCount(m);
  }

  // ---------------------------------------------------------------- arrival order

  function Arrive(m: Mq, a: Arrivals, e: Event): Arrivals
    requires Enabled(m, e)
  {
    if Do(m, e).1.Blocked? then Arrived(a, e.t) else a
  }

  ghost predicate Served(m: Mq, a: Arrivals) { Queued(m.receivers, m.flag, m.prio, a) }

  /** A waiter whose priority changes keeps its place only between its neighbours, arrival order included. */
  ghost predicate KeepsPlace(m: Mq, a: Arrivals, e: Event) {
    m.flag.Prio? && e.SetPrio? ==> BetweenTurns(m.receivers, m.prio, a.since, e.t, e.p)
  }

  /** A step keeps priority order, and arrival order among equals, exactly under that condition. */
  lemma StepServesExactly(m: Mq, a: Arrivals, e: Event)
    requires Inv(m) && Served(m, a) && Enabled(m, e)
    ensures Served(Do(m, e).0, Arrive(m, a, e)) <==> KeepsPlace(m, a, e)
  {
    match e
    case Link(t) => LeaveQueued(m.receivers, t, m.flag, m.prio, a);
    case Recv(t, _) => JoinQueued(m.receivers, t, m.flag, m.prio, a);
    case Rerecv(t, _) => JoinQueued(m.receivers, t, m.flag, m.prio, a);
    case Timeout(t) => LeaveQueued(m.receivers, t, m.flag, m.prio, a);
    case SetPrio(t, p) => SetPrioQueued(m.receivers, m.flag, m.prio, a, t, p);
    case _ =>
  }

  ghost predicate PlacesKept(m: Mq, a: Arrivals, es: seq<Event>)
    requires EnabledRun(m, es)
    decreases |es|
  {
    es == [] || (KeepsPlace(m, a, es[0]) && PlacesKept(Do(m, es[0]).0, Arrive(m, a, es[0]), es[1..]))
  }

  function ArriveRun(m: Mq, a: Arrivals, es: seq<Event>): Arrivals
    requires EnabledRun(m, es)
    decreases |es|
  {
    if es == [] then a else ArriveRun(Do(m, es[0]).0, Arrive(m, a, es[0]), es[1..])
  }

  lemma {:induction false} RunServes(m: Mq, a: Arrivals, es: seq<Event>)
    requires Inv(m) && Served(m, a) && EnabledRun(m, es) && PlacesKept(m, a, es)
    ensures Served(Run(m, es), ArriveRun(m, a, es))
    decreases |es|
  {
    if es != [] {
      StepKeepsInv(m, es[0]);
      StepServesExactly(m, a, es[0]);
      RunServes(Do(m, es[0]).0, Arrive(m, a, es[0]), es[1..]);
    }
  }

  /** After any interleaving from a queue on which nobody waits, linking a message wakes exactly the receiver
      that is served before all the others: the first to arrive with RT_IPC_FLAG_FIFO, the most urgent and among
      equals the first with RT_IPC_FLAG_PRIO. */
  lemma WokenInTurnEver(m0: Mq, es: seq<Event>, t: Tid, r: Tid)
    requires Inv(m0) && m0.receivers == []
    requires EnabledRun(m0, es) && PlacesKept(m0, Arrivals(0, map[]), es) && Enabled(Run(m0, es), Link(t))
    ensures var m, a := Run(m0, es), ArriveRun(m0, Arrivals(0, map[]), es);
      r in m.receivers && PcOf(Do(m, Link(t)).0, r) == RecvWoken <==>
        r in m.receivers && forall w :: w in m.receivers && w != r ==> Ahead(m.flag, m.prio, a.since, r, w)
  {
    RunKeepsInv(m0, es);
    RunServes(m0, Arrivals(0, map[]), es);
    var m, a := Run(m0, es), ArriveRun(m0, Arrivals(0, map[]), es);
    if r in m.receivers { HeadIsNext(m.receivers, m.flag, m.prio, a, r); }
  }

  // ---------------------------------------------------------------- exactly what each step does

  /** The first region of a send: too long exactly beyond the message size, full exactly when queued messages and
      held nodes use up the pool, and otherwise the thread holds a free node, the buffer, and which end it is for. */
  lemma AllocExactly(m: Mq, t: Tid, buffer: Bytes, urgent: bool, n: Node)
    requires Inv(m) && Enabled(m, Alloc(t, buffer, urgent))
    ensures var (m', o) := Do(m, Alloc(t, buffer, urgent));
      && (o == TooLong <==> |buffer| > m.msgSize)
      && (o == Full <==> |buffer| <= m.msgSize && |m.queue| + |Holders(m.pc)| == m.max)
      && (o == Done <==> |buffer| <= m.msgSize && |m.queue| + |Holders(m.pc)| < m.max)
      && (o != Done ==> m' == m)
    ensures var (m', o) := Do(m, Alloc(t, buffer, urgent));
      o == Done ==>
        && PcOf(m', t).Filling? && PcOf(m', t).buffer == buffer && PcOf(m', t).urgent == urgent && PcOf(m', t).node in m.free
        && (n in m'.free <==> n in m.free && n != PcOf(m', t).node)
        && m'.(free := m.free, pc := m.pc) == m && m'.pc == m.pc[t := PcOf(m', t)]
  {
    PoolCount(m);
    if m.free != [] {
      UnlinkHead(m.free);
      assert m.free == [m.free[0]] + m.free[1..];
    }
  }

  /** Filling replaces the first bytes of that thread's node and nothing else. */
  lemma FillExactly(m: Mq, t: Tid, n: Node, i: nat)
    requires Inv(m) && Enabled(m, Fill(t))
    ensures var m', c := Do(m, Fill(t)).0, PcOf(m, t);
      && PcOf(m', t) == Filled(c.node, c.urgent) && m'.pc == m.pc[t := PcOf(m', t)]
      && (n != c.node ==> DataOf(m', n) == DataOf(m, n))
      && |DataOf(m', c.node)| == m.msgSize
      && (i < m.msgSize ==> DataOf(m', c.node)[i] == if i < |c.buffer| then c.buffer[i] else DataOf(m, c.node)[i])
      && m'.(data := m.data, pc := m.pc) == m
  {
    assert Held(m.pc, PcOf(m, t).node);
  }

  /** Steps of other threads only. */
  ghost predicate Undisturbed(m: Mq, es: seq<Event>, t: Tid) {
    EnabledRun(m, es) && forall i :: 0 <= i < |es| ==> Other(es[i], t)
  }

  /** A send that got its node still has it, its buffer and its end of the queue when it comes to filling. */
  lemma AllocThenFill(m: Mq, t: Tid, buffer: Bytes, urgent: bool, es: seq<Event>)
    requires Inv(m) && Enabled(m, Alloc(t, buffer, urgent)) && Do(m, Alloc(t, buffer, urgent)).1 == Done
    requires Undisturbed(Do(m, Alloc(t, buffer, urgent)).0, es, t)
    ensures var m1 := Run(Do(m, Alloc(t, buffer, urgent)).0, es);
      && Inv(m1) && PcOf(m1, t).Filling? && PcOf(m1, t).buffer == buffer && PcOf(m1, t).urgent == urgent
      && m1.msgSize == m.msgSize
  {
    var m0 := Do(m, Alloc(t, buffer, urgent)).0;
    StepKeepsInv(m, Alloc(t, buffer, urgent));
    AllocExactly(m, t, buffer, urgent, 0);
    HeldNodeIsStable(m0, es, t);
    RunKeepsInv(m0, es);
    RunKeepsSizes(m0, es);
  }

  /** A whole send that is not refused: whatever the other threads do between its regions, the message that it
      links starts with the bytes of its buffer, and stands at the end of the queue that it was sent to, with the
      messages that are queued by then untouched. */
  lemma SendDelivers(m: Mq, t: Tid, buffer: Bytes, urgent: bool, es: seq<Event>, es': seq<Event>)
    requires Inv(m) && Enabled(m, Alloc(t, buffer, urgent)) && |buffer| <= m.msgSize && |m.queue| + |Holders(m.pc)| < m.max
    requires Undisturbed(Do(m, Alloc(t, buffer, urgent)).0, es, t)
    requires var m1 := Run(Do(m, Alloc(t, buffer, urgent)).0, es);
      Enabled(m1, Fill(t)) ==> Undisturbed(Do(m1, Fill(t)).0, es', t)
    ensures var m1 := Run(Do(m, Alloc(t, buffer, urgent)).0, es);
      (Enabled(m1, Fill(t))
      && var m2 := Run(Do(m1, Fill(t)).0, es');
        (Enabled(m2, Link(t)) && Delivered(Messages(m2), Messages(Do(m2, Link(t)).0), buffer, urgent)))
  {
    AllocExactly(m, t, buffer, urgent, 0);
    AllocThenFill(m, t, buffer, urgent, es);
    SendAppendsBuffer(Run(Do(m, Alloc(t, buffer, urgent)).0, es), t, es');
  }

  /** One message more, at the end that was asked for, and it starts with the buffer. */
  ghost predicate Delivered(before: seq<Bytes>, after: seq<Bytes>, buffer: Bytes, urgent: bool) {
    && |after| == |before| + 1
    && (if urgent then buffer <= after[0] && after[1..] == before
        else buffer <= after[|before|] && after[..|before|] == before)
  }

  lemma {:induction false} RunKeepsSizes(m: Mq, es: seq<Event>)
    requires EnabledRun(m, es)
    ensures Run(m, es).msgSize == m.msgSize && Run(m, es).max == m.max
    decreases |es|
  {
    if es != [] { RunKeepsSizes(Do(m, es[0]).0, es[1..]); }
  }

  /** The second region of a send: its node goes to its end of the queue and the first receiver is on its way. */
  lemma LinkExactly(m: Mq, t: Tid, u: Tid)
    requires Inv(m) && Enabled(m, Link(t))
    ensures var m', c := Do(m, Link(t)).0, PcOf(m, t);
      && m'.queue == (if c.urgent then [c.node] + m.queue else m.queue + [c.node])
      && PcOf(m', t) == Idle
      && (u in m'.receivers <==> u in m.receivers && u != m.receivers[0])
      && (u != t ==> PcOf(m', u) == if u in m.receivers && u == m.receivers[0] then RecvWoken else PcOf(m, u))
      && m'.(queue := m.queue, receivers := m.receivers, pc := m.pc) == m
  {
    if m.receivers != [] {
      assert m.receivers[0] in m.receivers;
      UnlinkHead(m.receivers);
      assert m.receivers == [m.receivers[0]] + m.receivers[1..];
    }
  }

  /** The first region of a receive takes the front exactly when a message is queued, gives up exactly when none
      is and it may not wait, and otherwise waits. */
  lemma RecvExactly(m: Mq, e: Event, u: Tid)
    requires Inv(m) && (e.Recv? || e.Rerecv?) && Enabled(m, e)
    ensures var (m', o) := Do(m, e);
      && (o == Done <==> m.queue != [])
      && (o == Empty <==> m.queue == [] && !e.mayWait)
      && (o == Blocked <==> m.queue == [] && e.mayWait)
      && (o == Done ==> [PcOf(m', e.t).node] + m'.queue == m.queue)
      && (if o == Done then PcOf(m', e.t).Copying? else m'.queue == m.queue)
      && (o == Empty ==> PcOf(m', e.t) == Idle) && (o == Blocked ==> PcOf(m', e.t) == RecvWait)
    ensures var (m', o) := Do(m, e);
      && (u in m'.receivers <==> u in m.receivers || (o == Blocked && u == e.t))
      && (u != e.t ==> PcOf(m', u) == PcOf(m, u))
      && m'.(queue := m.queue, receivers := m.receivers, pc := m.pc) == m
  {
    SuspendElems(m.receivers, e.t, m.prio, m.flag);
  }

  /** Copying out hands over the first bytes, as many as asked for or the whole message; the node then goes back
      to the free list, where the next send finds it. */
  lemma CopyReleaseExactly(m: Mq, t: Tid, size: nat, u: Tid)
    requires Inv(m)
    ensures PcOf(m, t).Copying? ==>
      var (m', o) := Do(m, Copy(t, size));
      && o.Got? && |o.message| == (if size <= m.msgSize then size else m.msgSize) && o.message <= DataOf(m, PcOf(m, t).node)
      && PcOf(m', t) == Copied(PcOf(m, t).node) && (u != t ==> PcOf(m', u) == PcOf(m, u)) && m'.(pc := m.pc) == m
    ensures PcOf(m, t).Copied? ==>
      var m' := Do(m, Release(t)).0;
      && m'.free == [PcOf(m, t).node] + m.free
      && PcOf(m', t) == Idle && (u != t ==> PcOf(m', u) == PcOf(m, u)) && m'.(free := m.free, pc := m.pc) == m
  {
    if Holding(PcOf(m, t)) { assert Held(m.pc, PcOf(m, t).node); }
  }

  /** A timeout ends the wait of that thread; a reset that of all, and every queued message is gone; a change of
      priority changes that priority. */
  lemma OthersExactly(m: Mq, t: Tid, p: nat, u: Tid)
    requires Inv(m)
    ensures t in m.receivers ==>
      var m' := Do(m, Timeout(t)).0;
      && (u in m'.receivers <==> u in m.receivers && u != t)
      && PcOf(m', u) == (if u == t then Idle else PcOf(m, u))
      && m'.(receivers := m.receivers, pc := m.pc) == m
    ensures var m' := Do(m, Reset).0;
      && m'.queue == [] && m'.receivers == [] && (u in m'.free <==> u in m.free || u in m.queue)
      && PcOf(m', u) == (if u in m.receivers then Idle else PcOf(m, u))
      && m'.(queue := m.queue, free := m.free, receivers := m.receivers, pc := m.pc) == m
    ensures var m' := Do(m, SetPrio(t, p)).0;
      m'.(prio := m.prio) == m && PrioOf(m'.prio, u) == if u == t then p else PrioOf(m.prio, u)
  {
  }

  // ---------------------------------------------------------------- the message queue object

  const NIL: int := -1

  /** Following `next` from `h` visits exactly the nodes of `s`, in order, and ends at RT_NULL. */
  ghost predicate Chain(next: seq<int>, h: int, s: seq<Node>)
    decreases |s|
  {
    if s == [] then h == NIL
    else h == s[0] && s[0] < |next| && Chain(next, next[s[0]], s[1..])
  }

  /** A node's `next` may change when the node is not on the chain. */
  lemma {:induction false} ChainFrame(next: seq<int>, h: int, s: seq<Node>, n: Node, v: int)
    requires Chain(next, h, s) && n !in s && n < |next|
    ensures Chain(next[n := v], h, s)
    decreases |s|
  {
    if s != [] {
      assert s[0] in s;
      ChainFrame(next, next[s[0]], s[1..], n, v);
    }
  }

  lemma {:induction false} ChainAppend(next: seq<int>, h: int, s: seq<Node>, n: Node)
    requires Chain(next, h, s) && NoDup(s) && s != [] && n !in s
    requires n < |next| && next[n] == NIL
    ensures s[|s| - 1] < |next| && Chain(next[s[|s| - 1] := n], h, s + [n])
    decreases |s|
  {
    if |s| == 1 {
      assert Chain(next, next[s[0]], s[1..]);
      var next' := next[s[0] := n];
      assert n != s[0] && next'[n] == NIL;
      assert (s + [n])[1..] == [n];
      assert Chain(next', n, [n]);
    } else {
      assert forall x :: x in s[1..] ==> x in s;
      ChainAppend(next, next[s[0]], s[1..], n);
      assert (s + [n])[1..] == s[1..] + [n];
      assert s[1..][|s[1..]| - 1] == s[|s| - 1];
      assert s[0] != s[|s| - 1];
    }
  }

  /** The first node goes from one chain to the front of another. */
  lemma ChainMove(next: seq<int>, h: int, s: seq<Node>, f: int, free: seq<Node>)
    requires Chain(next, h, s) && Chain(next, f, free) && s != []
    requires s[0] !in s[1..] && s[0] !in free
    ensures s[0] < |next| && Chain(next[s[0] := f], next[s[0]], s[1..])
    ensures Chain(next[s[0] := f], s[0], [s[0]] + free)
  {
    ChainFrame(next, next[s[0]], s[1..], s[0], f);
    ChainFrame(next, f, free, s[0], f);
    assert ([s[0]] + free)[1..] == free;
  }

  function LastOf(s: seq<Node>): int { if s == [] then NIL else s[|s| - 1] }

  /** rt_mq_init: sizes kept in 16 bits, messages aligned to 4 bytes behind a 4-byte link. */
  function StoredSize(msgSize: nat): nat { (msgSize + 3) / 4 * 4 % 0x1_0000 }

  /** The message size is rounded up by less than a word, as long as it fits in 16 bits. */
  lemma StoredSizeExactly(msgSize: nat)
    ensures StoredSize(msgSize) % 4 == 0
    ensures msgSize <= 0xFFFC <==> msgSize <= StoredSize(msgSize) < msgSize + 4
  {
  }

  function StoredMax(poolSize: nat, msgSize: nat): nat { poolSize / (StoredSize(msgSize) + 4) % 0x1_0000 }

  /** Nodes n-1 down to 0: the order in which rt_mq_init pushed them. */
  function Down(n: nat): seq<Node> { if n == 0 then [] else [n - 1] + Down(n - 1) }

  lemma {:induction false} DownElems(n: nat)
    ensures NoDup(Down(n)) && forall x: Node :: x in Down(n) <==> x < n
  {
    if n > 0 {
      DownElems(n - 1);
      var r := Down(n - 1);
      assert forall i :: 0 <= i < |r| ==> r[i] in r;
    }
  }

  lemma InitPartition(m: Mq)
    requires m.queue == [] && m.free == Down(m.max) && m.pc == map[]
    ensures Partition(m)
  {
    DownElems(m.max);
    assert forall n: Node :: !Held(m.pc, n);
  }

  /** The invariant; the methods below look inside only through SoundIs. */
  ghost predicate Sound(m: Mq) { forall x: Mq {:trigger Seen(x)} :: x == m && Seen(x) ==> Inv(x) }

  lemma SoundIs(m: Mq)
    requires Sound(m)
    ensures Inv(m)
  {
    assert Seen(m);
  }

  lemma StepSound(m: Mq, e: Event)
    requires Sound(m) && Enabled(m, e)
    ensures Sound(Do(m, e).0)
  {
    SoundIs(m);
    StepKeepsInv(m, e);
  }

  lemma RecvSound(m: Mq, t: Tid, mayWait: bool)
    requires Sound(m) && (PcOf(m, t) == Idle || PcOf(m, t) == RecvWoken)
    ensures Sound(RecvRegion(m, t, mayWait).0) && NoDup(m.queue)
  {
    SoundIs(m);
    RecvKeeps(m, t, mayWait);
  }

  /** A node in a thread's hands is in neither list. */
  lemma InHandFacts(m: Mq, t: Tid)
    requires Sound(m) && Holding(PcOf(m, t))
    ensures var n := PcOf(m, t).node; n < m.max && n !in m.queue && n !in m.free
    ensures var n := PcOf(m, t).node; n in m.data && |m.data[n]| == m.msgSize
    ensures NoDup(m.queue) && forall n :: n in m.queue ==> n !in m.free
  {
    SoundIs(m);
    assert Held(m.pc, PcOf(m, t).node);
  }

  /** A node that is about to be appended already ends in RT_NULL. */
  ghost predicate Ended(pc: map<Tid, Pc>, next: seq<int>) {
    forall t :: t in pc && pc[t].Filled? && !pc[t].urgent && pc[t].node < |next| ==> next[pc[t].node] == NIL
  }

  lemma EndedShrinks(pc: map<Tid, Pc>, pc': map<Tid, Pc>, next: seq<int>)
    requires Ended(pc, next) && forall t :: t in pc' && pc'[t].Filled? ==> t in pc && pc[t] == pc'[t]
    ensures Ended(pc', next)
  {
  }

  class MessageQueueObject {
    const max: nat                    // max_msgs
    const msgSize: nat
    const flag: Flag
    const next: array<int>            // the link word of every pool node
    var data: map<Node, Bytes>        // the message area of every pool node
    var head: int                     // msg_queue_head
    var tail: int                     // msg_queue_tail
    var freeHead: int                 // msg_queue_free
    var entry: nat
    var receivers: seq<Tid>           // parent.suspend_thread
    var prio: map<Tid, nat>
    ghost var queue: seq<Node>
    ghost var free: seq<Node>
    ghost var pc: map<Tid, Pc>

    ghost predicate Chains()
      reads this`head, this`tail, this`freeHead, this`queue, this`free, next
    {
      && next.Length == max
      && Chain(next[..], head, queue) && Chain(next[..], freeHead, free)
      && tail == LastOf(queue)
    }

    ghost predicate Linked()
      reads this`head, this`tail, this`freeHead, this`entry, this`queue, this`free, next
    {
      Chains() && entry == |queue|
    }

    ghost predicate Valid()
      reads this, next
    {
      Sound(Abs()) && Linked() && Ended(pc, next[..])
    }

    /** The message queue as the protocol sees it. */
    ghost function Abs(): Mq
      reads this
    {
      Mq(max, msgSize, flag, prio, queue, free, data, receivers, pc)
    }

    /** rt_mq_init; `area` is what the pool holds. */
    constructor (msgSize: nat, poolSize: nat, flag: Flag, prio: map<Tid, nat>, area: map<Node, Bytes>)
      requires forall n: Node :: n < StoredMax(poolSize, msgSize) ==> n in area && |area[n]| == StoredSize(msgSize)
      ensures Valid() && fresh(next)
      ensures Abs() == Mq(StoredMax(poolSize, msgSize), StoredSize(msgSize), flag, prio, [], Down(max), area, [], map[])
    {
      this.msgSize, max := StoredSize(msgSize), StoredMax(poolSize, msgSize);
      this.flag, this.prio, data := flag, prio, area;
      next := new int[StoredMax(poolSize, msgSize)];
      head, tail, entry := NIL, NIL, 0;
      freeHead := NIL;
      receivers, queue, free, pc := [], [], [], map[];
      new;
      var temp := 0;
      while temp < max
        invariant 0 <= temp <= max && next.Length == max
        invariant free == Down(temp) && Chain(next[..], freeHead, free)
        modifies this`freeHead, this`free, next
      {
        DownElems(temp);
        ghost var links := next[..];
        ChainFrame(links, freeHead, free, temp, freeHead);
        next[temp] := freeHead;
        assert next[..] == links[temp := freeHead];
        assert ([temp] + free)[1..] == free;
        freeHead := temp;
        free := [temp] + free;
        temp := temp + 1;
      }
      InitPartition(Abs());
    }

    /** First region of rt_mq_send and rt_mq_urgent: take a node off the free list. */
    method AllocPass(t: Tid, buffer: Bytes, urgent: bool) returns (o: Outcome, msg: int)
      requires Valid() && PcOf(Abs(), t) == Idle
      modifies this`freeHead, this`free, this`pc
      ensures Valid()
      ensures (Abs(), o) == AllocRegion(old(Abs()), t, buffer, urgent)
      ensures o == Done ==> PcOf(Abs(), t).Filling? && PcOf(Abs(), t).node == msg
    {
      StepSound(Abs(), Alloc(t, buffer, urgent));
      msg := NIL;
      if |buffer| > msgSize { return TooLong, msg; }
      if freeHead == NIL { return Full, msg; }
      msg := freeHead;
      freeHead := next[msg];
      pc := pc[t := Filling(free[0], buffer, urgent)];
      free := free[1..];
      o := Done;
    }

    /** Between the regions, with interrupts enabled: fill the node. */
    method FillNode(t: Tid, msg: Node, buffer: Bytes, urgent: bool)
      requires Valid() && PcOf(Abs(), t) == Filling(msg, buffer, urgent)
      modifies this`data, this`pc, next
      ensures Valid()
      ensures Abs() == FillStep(old(Abs()), t)
    {
      StepSound(Abs(), Fill(t));
      InHandFacts(Abs(), t);
      ghost var links := next[..];
      if !urgent {
        next[msg] := NIL;
        assert next[..] == links[msg := NIL];
        ChainFrame(links, head, queue, msg, NIL);
        ChainFrame(links, freeHead, free, msg, NIL);
      }
      data := data[msg := Overwrite(data[msg], buffer)];
      pc := pc[t := Filled(msg, urgent)];
    }

    /** Link a node that ends in RT_NULL behind the tail. */
    method AppendNode(msg: Node)
      requires Linked() && NoDup(queue) && msg !in queue && msg !in free && msg < max && next[msg] == NIL
      requires forall n :: n in queue ==> n !in free
      modifies this`head, this`tail, this`entry, this`queue, next
      ensures Linked() && queue == old(queue) + [msg]
      ensures forall n :: 0 <= n < next.Length && n !in old(queue) ==> next[n] == old(next[n])
    {
      ghost var links := next[..];
      if tail != NIL {
        ChainAppend(links, head, queue, msg);
        next[tail] := msg;
        assert next[..] == links[tail := msg];
        ChainFrame(links, freeHead, free, tail, msg);
      } else {
        assert queue + [msg] == [msg] && Chain(links, NIL, []);
      }
      tail := msg;
      if head == NIL { head := msg; }
      entry := entry + 1;
      queue := queue + [msg];
    }

    /** Link a node in front of the head. */
    method PrependNode(msg: Node)
      requires Linked() && msg !in queue && msg !in free && msg < max
      modifies this`head, this`tail, this`entry, this`queue, next
      ensures Linked() && queue == [msg] + old(queue)
      ensures forall n :: 0 <= n < next.Length && n != msg ==> next[n] == old(next[n])
    {
      ghost var links := next[..];
      ChainFrame(links, head, queue, msg, head);
      ChainFrame(links, freeHead, free, msg, head);
      next[msg] := head;
      assert next[..] == links[msg := head];
      assert ([msg] + queue)[1..] == queue;
      head := msg;
      if tail == NIL { tail := msg; }
      entry := entry + 1;
      queue := [msg] + queue;
    }

    /** Unlink the head. */
    method PopNode() returns (msg: Node)
      requires Linked() && NoDup(queue) && entry > 0
      modifies this`head, this`tail, this`entry, this`queue
      ensures Linked() && old(queue) == [msg] + queue
    {
      msg := head;
      head := next[msg];
      if tail == msg { tail := NIL; }
      entry := entry - 1;
      queue := queue[1..];
    }

    /** Give a node to the free list. */
    method PushFree(msg: Node)
      requires Linked() && msg !in queue && msg !in free && msg < max
      modifies this`freeHead, this`free, next
      ensures Linked() && free == [msg] + old(free)
      ensures forall n :: 0 <= n < next.Length && n != msg ==> next[n] == old(next[n])
    {
      ghost var links := next[..];
      ChainFrame(links, head, queue, msg, freeHead);
      ChainFrame(links, freeHead, free, msg, freeHead);
      next[msg] := freeHead;
      assert next[..] == links[msg := freeHead];
      assert ([msg] + free)[1..] == free;
      freeHead := msg;
      free := [msg] + free;
    }

    /** Nodes about to be appended are in some thread's hands, so their links stay put. */
    /** After a reset the nodes in the hands of senders still end their chains. */
    lemma ResetEnds(m: Mq, links: seq<int>)
      requires Sound(m) && Ended(m.pc, links) && |links| == next.Length
      requires forall n :: 0 <= n < next.Length && n !in m.queue ==> next[n] == links[n]
      ensures Ended(ResetStep(m).pc, next[..])
    {
      EndedFrame(m, links, m.queue);
      EndedShrinks(m.pc, ResetStep(m).pc, next[..]);
    }

    lemma EndedFrame(m: Mq, links: seq<int>, n0: seq<Node>)
      requires Sound(m) && Ended(m.pc, links) && |links| == next.Length
      requires n0 == [] || n0 == m.queue
      requires forall n :: 0 <= n < next.Length && n !in n0 ==> next[n] == links[n]
      ensures Ended(m.pc, next[..])
    {
      SoundIs(m);
      forall t | t in m.pc && m.pc[t].Filled? && !m.pc[t].urgent && m.pc[t].node < next.Length
        ensures next[m.pc[t].node] == NIL
      {
        assert Held(m.pc, m.pc[t].node);
      }
    }

    /** The links of other threads' nodes stay put when a thread gives up the node it held. */
    lemma EndedGiven(m: Mq, links: seq<int>, t: Tid)
      requires Sound(m) && Ended(m.pc, links) && |links| == next.Length && Holding(PcOf(m, t))
      requires forall n :: 0 <= n < next.Length && n != PcOf(m, t).node ==> next[n] == links[n]
      ensures Ended(m.pc[t := Idle], next[..])
    {
      SoundIs(m);
      assert t in m.pc && HeldOnce(m.pc);
    }

    /** Second region of rt_mq_send. */
    method LinkTail(t: Tid, msg: Node)
      requires Valid() && PcOf(Abs(), t) == Filled(msg, false)
      modifies this`head, this`tail, this`entry, this`queue, this`receivers, this`pc, next
      ensures Valid()
      ensures Abs() == LinkRegion(old(Abs()), t)
    {
      StepSound(Abs(), Link(t));
      InHandFacts(Abs(), t);
      ghost var m, links := Abs(), next[..];
      AppendNode(msg);
      EndedFrame(m, links, m.queue);
      pc := pc[t := Idle];
      ResumeReceiver();
    }

    /** Second region of rt_mq_urgent. */
    method LinkHead(t: Tid, msg: Node)
      requires Valid() && PcOf(Abs(), t) == Filled(msg, true)
      modifies this`head, this`tail, this`entry, this`queue, this`receivers, this`pc, next
      ensures Valid()
      ensures Abs() == LinkRegion(old(Abs()), t)
    {
      StepSound(Abs(), Link(t));
      InHandFacts(Abs(), t);
      ghost var m, links := Abs(), next[..];
      PrependNode(msg);
      EndedGiven(m, links, t);
      pc := pc[t := Idle];
      ResumeReceiver();
    }

    /** Resume the first suspended receiver, if any. */
    method ResumeReceiver()
      modifies this`receivers, this`pc
      ensures Abs() == WakeReceiver(old(Abs()))
    {
      if receivers != [] {
        pc := pc[receivers[0] := RecvWoken];
        receivers := receivers[1..];
      }
    }

    /** The loop body of rt_mq_recv: return, or suspend the thread. */
    method OnEmpty(t: Tid, mayWait: bool) returns (o: Outcome)
      requires Valid() && (PcOf(Abs(), t) == Idle || PcOf(Abs(), t) == RecvWoken) && entry == 0
      modifies this`receivers, this`pc
      ensures Valid()
      ensures (Abs(), o) == RecvRegion(old(Abs()), t, mayWait)
    {
      RecvSound(Abs(), t, mayWait);
      if !mayWait {
        pc := pc[t := Idle];
        return Empty;
      }
      receivers := Enlist(t);
      pc := pc[t := RecvWait];
      o := Blocked;
    }

    /** First region of rt_mq_recv, by a thread that starts or that was resumed. */
    method RecvPass(t: Tid, mayWait: bool) returns (o: Outcome, msg: int)
      requires Valid() && (PcOf(Abs(), t) == Idle || PcOf(Abs(), t) == RecvWoken)
      modifies this`head, this`tail, this`entry, this`queue, this`receivers, this`pc
      ensures Valid()
      ensures (Abs(), o) == RecvRegion(old(Abs()), t, mayWait)
      ensures o == Done ==> PcOf(Abs(), t).Copying? && PcOf(Abs(), t).node == msg
    {
      if entry == 0 {
        msg := NIL;
        o := OnEmpty(t, mayWait);
        return;
      }
      RecvSound(Abs(), t, mayWait);
      msg := PopNode();
      pc := pc[t := Copying(msg)];
      o := Done;
    }

    /** rt_ipc_list_suspend. */
    method Enlist(t: Tid) returns (r: seq<Tid>)
      ensures r == Suspend(receivers, t, prio, flag)
    {
      match flag
      case Fifo => r := receivers + [t];
      case Prio =>
        var n := FindSpot(receivers, prio, t);
        r := receivers[..n] + [t] + receivers[n..];
    }

    /** Between the regions, with interrupts enabled: copy the message out. */
    method CopyOut(t: Tid, msg: Node, size: nat) returns (o: Outcome)
      requires Valid() && PcOf(Abs(), t) == Copying(msg)
      modifies this`pc
      ensures Valid()
      ensures (Abs(), o) == CopyStep(old(Abs()), t, size)
    {
      StepSound(Abs(), Copy(t, size));
      InHandFacts(Abs(), t);
      o := Got(data[msg][..if size > msgSize then msgSize else size]);
      pc := pc[t := Copied(msg)];
    }

    /** Second region of rt_mq_recv: give the node back. */
    method ReleasePass(t: Tid, msg: Node)
      requires Valid() && PcOf(Abs(), t) == Copied(msg)
      modifies this`freeHead, this`free, this`pc, next
      ensures Valid()
      ensures Abs() == ReleaseRegion(old(Abs()), t)
    {
      StepSound(Abs(), Release(t));
      InHandFacts(Abs(), t);
      ghost var m, links := Abs(), next[..];
      PushFree(msg);
      EndedGiven(m, links, t);
      pc := pc[t := Idle];
    }

    /** The body of the loop below. */
    method ReleaseHead()
      requires Chains() && queue != [] && queue[0] !in queue[1..] && queue[0] !in free
      modifies this`head, this`tail, this`freeHead, this`queue, this`free, next
      ensures Chains() && queue == old(queue)[1..] && free == [old(queue)[0]] + old(free)
      ensures forall n :: 0 <= n < next.Length && n != old(queue)[0] ==> next[n] == old(next[n])
    {
      var msg := head;
      ghost var links := next[..];
      ChainMove(links, head, queue, freeHead, free);
      head := next[msg];
      if tail == msg { tail := NIL; }
      next[msg] := freeHead;
      assert next[..] == links[msg := freeHead];
      freeHead := msg;
      free := [msg] + free;
      queue := queue[1..];
    }

    /** The loop of rt_mq_control(RT_IPC_CMD_RESET): every queued node goes to the free list. */
    method ReleaseQueue()
      requires Chains() && NoDup(queue) && forall n :: n in queue ==> n !in free
      modifies this`head, this`tail, this`freeHead, this`queue, this`free, this`entry, next
      ensures Linked() && Abs() == old(Abs()).(queue := [], free := Reverse(old(queue)) + old(free))
      ensures forall n :: 0 <= n < next.Length && n !in old(queue) ==> next[n] == old(next[n])
    {
      ghost var q0, f0 := queue, free;
      while head != NIL
        invariant Chains()
        invariant Moving(queue, free, q0, f0)
        invariant forall n :: 0 <= n < next.Length && n !in q0 ==> next[n] == old(next[n])
        decreases |queue|
      {
        MoveHead(queue, free, q0, f0);
        ReleaseHead();
      }
      entry := 0;
    }

    /** rt_mq_control(RT_IPC_CMD_RESET). */
    method ResetQueue()
      requires Valid()
      modifies this`head, this`tail, this`freeHead, this`queue, this`free, this`entry, this`receivers, this`pc, next
      ensures Valid()
      ensures Abs() == ResetStep(old(Abs()))
    {
      StepSound(Abs(), Reset);
      SoundIs(Abs());
      ghost var m, links := Abs(), next[..];
      ResumeAll();
      ReleaseQueue();
      ResetEnds(m, links);
      assert Abs() == ResetStep(m);
    }

    /** rt_ipc_list_resume_all. */
    method ResumeAll()
      modifies this`receivers, this`pc
      ensures Abs() == old(Abs()).(receivers := [], pc := ResetStep(old(Abs())).pc)
    {
      pc := map t | t in pc :: if t in receivers then Idle else pc[t];
      receivers := [];
    }

    /** rt_thread_timeout of a suspended receiver. */
    method ThreadTimeout(t: Tid)
      requires Valid() && t in receivers
      modifies this`receivers, this`pc
      ensures Valid()
      ensures Abs() == TimeoutStep(old(Abs()), t)
    {
      StepSound(Abs(), Timeout(t));
      receivers := Unlink(receivers, t);
      pc := pc[t := Idle];
    }
  }
}

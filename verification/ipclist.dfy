/**
  The wait list of an IPC object (rt_ipc_list_suspend, rt_ipc_list_resume in ipc.c): threads in
  arrival order, or by priority with arrival order among equals.
*/
module IpcList {
  import opened Lists

  type Tid = nat

  datatype Flag = Fifo | Prio

  function PrioOf(prio: map<Tid, nat>, t: Tid): nat { if t in prio then prio[t] else 0 }

  /** A smaller number is the more urgent priority; the list starts with the most urgent thread. */
  ghost predicate Urgency(list: seq<Tid>, prio: map<Tid, nat>) {
    forall i, j :: 0 <= i < j < |list| ==> PrioOf(prio, list[i]) <= PrioOf(prio, list[j])
  }

  /** Where a thread of priority `p` is linked in: before the first less urgent one. */
  function Spot(list: seq<Tid>, prio: map<Tid, nat>, p: nat): (n: nat)
    ensures n <= |list|
    ensures forall i :: 0 <= i < n ==> PrioOf(prio, list[i]) <= p
    ensures n < |list| ==> p < PrioOf(prio, list[n])
  {
    if list == [] || p < PrioOf(prio, list[0]) then 0 else 1 + Spot(list[1..], prio, p)
  }

  function Suspend(list: seq<Tid>, t: Tid, prio: map<Tid, nat>, flag: Flag): seq<Tid> {
    match flag
    case Fifo => list + [t]
    case Prio => var n := Spot(list, prio, PrioOf(prio, t)); list[..n] + [t] + list[n..]
  }

  lemma {:induction false} SpotUnique(list: seq<Tid>, prio: map<Tid, nat>, p: nat, n: nat)
    requires n <= |list|
    requires forall i :: 0 <= i < n ==> PrioOf(prio, list[i]) <= p
    requires n < |list| ==> p < PrioOf(prio, list[n])
    ensures Spot(list, prio, p) == n
  {
    if n > 0 { SpotUnique(list[1..], prio, p, n - 1); }
  }

  /** The search loop of rt_ipc_list_suspend. */
  method FindSpot(list: seq<Tid>, prio: map<Tid, nat>, t: Tid) returns (n: nat)
    ensures n == Spot(list, prio, PrioOf(prio, t))
  {
    n := 0;
    while n != |list|
      invariant n <= |list|
      invariant forall i :: 0 <= i < n ==> PrioOf(prio, list[i]) <= PrioOf(prio, t)
      decreases |list| - n
    {
      if PrioOf(prio, t) < PrioOf(prio, list[n]) { break; }
      n := n + 1;
    }
    SpotUnique(list, prio, PrioOf(prio, t), n);
  }

  lemma SuspendElems(list: seq<Tid>, t: Tid, prio: map<Tid, nat>, flag: Flag)
    ensures forall x :: x in Suspend(list, t, prio, flag) <==> x in list || x == t
    ensures Suspend(list, t, prio, flag) != []
  {
    var n := Spot(list, prio, PrioOf(prio, t));
    assert list == list[..n] + list[n..];
  }

  lemma SuspendNoDup(list: seq<Tid>, t: Tid, prio: map<Tid, nat>, flag: Flag)
    requires NoDup(list) && t !in list
    ensures NoDup(Suspend(list, t, prio, flag))
  {
    var n, r := Spot(list, prio, PrioOf(prio, t)), Suspend(list, t, prio, flag);
    if flag.Prio? {
      forall i, j | 0 <= i < j < |r|
        ensures r[i] != r[j]
      {
        assert i != n ==> r[i] == list[if i < n then i else i - 1];
        assert j != n ==> r[j] == list[if j < n then j else j - 1];
      }
    }
  }

  /** With RT_IPC_FLAG_PRIO the newcomer stands behind every thread of its own priority. */
  lemma SpotBehindEquals(list: seq<Tid>, prio: map<Tid, nat>, p: nat)
    requires Urgency(list, prio)
    ensures forall i :: Spot(list, prio, p) <= i < |list| ==> PrioOf(prio, list[i]) > p
  {
    var n := Spot(list, prio, p);
    forall i | n <= i < |list|
      ensures PrioOf(prio, list[i]) > p
    {
      assert n == i || PrioOf(prio, list[n]) <= PrioOf(prio, list[i]);
    }
  }

  /** With RT_IPC_FLAG_PRIO the list stays ordered by urgency. */
  lemma SuspendByUrgency(list: seq<Tid>, t: Tid, prio: map<Tid, nat>)
    requires Urgency(list, prio)
    ensures Urgency(Suspend(list, t, prio, Prio), prio)
  {
    var a, b := SpotParts(list, t, prio);
    UrgencyGlue(list, a, b, t, prio);
  }

  /** What stands before and behind the newcomer. */
  lemma SpotParts(list: seq<Tid>, t: Tid, prio: map<Tid, nat>) returns (a: seq<Tid>, b: seq<Tid>)
    requires Urgency(list, prio)
    ensures list == a + b && Suspend(list, t, prio, Prio) == a + [t] + b
    ensures forall i :: 0 <= i < |a| ==> PrioOf(prio, a[i]) <= PrioOf(prio, t)
    ensures forall i :: 0 <= i < |b| ==> PrioOf(prio, b[i]) > PrioOf(prio, t)
  {
    var n := Spot(list, prio, PrioOf(prio, t));
    SpotBehindEquals(list, prio, PrioOf(prio, t));
    a, b := list[..n], list[n..];
  }

  lemma UrgencyGlue(list: seq<Tid>, a: seq<Tid>, b: seq<Tid>, t: Tid, prio: map<Tid, nat>)
    requires list == a + b && Urgency(list, prio)
    requires forall i :: 0 <= i < |a| ==> PrioOf(prio, a[i]) <= PrioOf(prio, t)
    requires forall i :: 0 <= i < |b| ==> PrioOf(prio, b[i]) > PrioOf(prio, t)
    ensures Urgency(a + [t] + b, prio)
  {
    var r := a + [t] + b;
    forall i, j | 0 <= i < j < |r|
      ensures PrioOf(prio, r[i]) <= PrioOf(prio, r[j])
    {
      if i != |a| && j != |a| {
        var i', j' := if i < |a| then i else i - 1, if j < |a| then j else j - 1;
        assert r[i] == list[i'] && r[j] == list[j'];
      } else if j == |a| {
        assert r[i] == a[i];
      } else {
        assert r[j] == b[j - |a| - 1];
      }
    }
  }

  lemma {:induction false} UnlinkUrgency(list: seq<Tid>, t: Tid, prio: map<Tid, nat>)
    requires Urgency(list, prio)
    ensures Urgency(Unlink(list, t), prio)
  {
    if list != [] {
      UnlinkUrgency(list[1..], t, prio);
      var r := Unlink(list[1..], t);
      assert forall i :: 0 <= i < |r| ==> r[i] in r && r[i] in list[1..];
    }
  }

  // ---------------------------------------------------------------- arrival order

  /** `a` is served before `b`; `since` counts arrivals. */
  predicate Ahead(flag: Flag, prio: map<Tid, nat>, since: map<Tid, nat>, a: Tid, b: Tid) {
    var earlier := PrioOf(since, a) < PrioOf(since, b);
    if flag.Fifo? then earlier
    else PrioOf(prio, a) < PrioOf(prio, b) || (PrioOf(prio, a) == PrioOf(prio, b) && earlier)
  }

  /** Every waiter stands behind those that are served before it. */
  ghost predicate InTurn(list: seq<Tid>, flag: Flag, prio: map<Tid, nat>, since: map<Tid, nat>) {
    forall i, j :: 0 <= i < j < |list| ==> Ahead(flag, prio, since, list[i], list[j])
  }

  lemma InTurnUrgency(list: seq<Tid>, prio: map<Tid, nat>, since: map<Tid, nat>)
    requires InTurn(list, Prio, prio, since)
    ensures Urgency(list, prio)
  {
    forall i, j | 0 <= i < j < |list|
      ensures PrioOf(prio, list[i]) <= PrioOf(prio, list[j])
    {
      assert Ahead(Prio, prio, since, list[i], list[j]);
    }
  }

  lemma InTurnFrame(list: seq<Tid>, flag: Flag, prio: map<Tid, nat>, prio': map<Tid, nat>, since: map<Tid, nat>, since': map<Tid, nat>)
    requires forall x :: x in list ==> PrioOf(prio, x) == PrioOf(prio', x) && PrioOf(since, x) == PrioOf(since', x)
    ensures InTurn(list, flag, prio, since) <==> InTurn(list, flag, prio', since')
  {
    forall i, j | 0 <= i < j < |list|
      ensures Ahead(flag, prio, since, list[i], list[j]) <==> Ahead(flag, prio', since', list[i], list[j])
    {
      assert list[i] in list && list[j] in list;
    }
  }

  /** A newcomer finds its turn. */
  lemma SuspendInTurn(list: seq<Tid>, t: Tid, flag: Flag, prio: map<Tid, nat>, since: map<Tid, nat>, now: nat)
    requires InTurn(list, flag, prio, since) && t !in list
    requires forall x :: x in list ==> PrioOf(since, x) < now
    ensures InTurn(Suspend(list, t, prio, flag), flag, prio, since[t := now])
  {
    var since' := since[t := now];
    InTurnFrame(list, flag, prio, prio, since, since');
    match flag
    case Fifo => TurnGlue(list, list, [], t, flag, prio, since');
    case Prio =>
      InTurnUrgency(list, prio, since);
      SuspendInTurnPrio(list, t, prio, since', now);
  }

  lemma SuspendInTurnPrio(list: seq<Tid>, t: Tid, prio: map<Tid, nat>, since: map<Tid, nat>, now: nat)
    requires InTurn(list, Prio, prio, since) && Urgency(list, prio) && t in since && since[t] == now
    requires forall x :: x in list ==> PrioOf(since, x) < now
    ensures InTurn(Suspend(list, t, prio, Prio), Prio, prio, since)
  {
    var a, b := SpotParts(list, t, prio);
    forall i | 0 <= i < |a|
      ensures Ahead(Prio, prio, since, a[i], t)
    {
      assert a[i] in list;
    }
    TurnGlue(list, a, b, t, Prio, prio, since);
  }

  lemma TurnGlue(list: seq<Tid>, a: seq<Tid>, b: seq<Tid>, t: Tid, flag: Flag, prio: map<Tid, nat>, since: map<Tid, nat>)
    requires list == a + b && InTurn(list, flag, prio, since)
    requires forall i :: 0 <= i < |a| ==> Ahead(flag, prio, since, a[i], t)
    requires forall i :: 0 <= i < |b| ==> Ahead(flag, prio, since, t, b[i])
    ensures InTurn(a + [t] + b, flag, prio, since)
  {
    var r := a + [t] + b;
    forall i, j | 0 <= i < j < |r|
      ensures Ahead(flag, prio, since, r[i], r[j])
    {
      if i != |a| && j != |a| {
        var i', j' := if i < |a| then i else i - 1, if j < |a| then j else j - 1;
        assert r[i] == list[i'] && r[j] == list[j'];
      } else if j == |a| {
        assert r[i] == a[i];
      } else {
        assert r[j] == b[j - |a| - 1];
      }
    }
  }

  lemma {:induction false} UnlinkInTurn(list: seq<Tid>, t: Tid, flag: Flag, prio: map<Tid, nat>, since: map<Tid, nat>)
    requires InTurn(list, flag, prio, since)
    ensures InTurn(Unlink(list, t), flag, prio, since)
  {
    if list != [] {
      UnlinkInTurn(list[1..], t, flag, prio, since);
      var r := Unlink(list[1..], t);
      forall i | 0 <= i < |r|
        ensures Ahead(flag, prio, since, list[0], r[i])
      {
        assert r[i] in list[1..];
      }
    }
  }

  /** `since` numbers the waiters in the order in which they were suspended. */
  datatype Arrivals = Arrivals(now: nat, since: map<Tid, nat>)

  /** `t` is suspended now. */
  function Arrived(a: Arrivals, t: Tid): Arrivals { Arrivals(a.now + 1, a.since[t := a.now]) }

  /** The threads of a list stand in the order in which they will be served. */
  ghost predicate Queued(list: seq<Tid>, flag: Flag, prio: map<Tid, nat>, a: Arrivals) {
    && InTurn(list, flag, prio, a.since)
    && forall w :: w in list ==> PrioOf(a.since, w) < a.now
  }

  lemma JoinQueued(list: seq<Tid>, t: Tid, flag: Flag, prio: map<Tid, nat>, a: Arrivals)
    requires Queued(list, flag, prio, a) && t !in list
    ensures Queued(Suspend(list, t, prio, flag), flag, prio, Arrived(a, t))
  {
    SuspendInTurn(list, t, flag, prio, a.since, a.now);
    SuspendElems(list, t, prio, flag);
  }

  /** A thread that is suspended elsewhere changes nothing here. */
  lemma ElsewhereQueued(list: seq<Tid>, t: Tid, flag: Flag, prio: map<Tid, nat>, a: Arrivals)
    requires Queued(list, flag, prio, a) && t !in list
    ensures Queued(list, flag, prio, Arrived(a, t))
  {
    InTurnFrame(list, flag, prio, prio, a.since, Arrived(a, t).since);
  }

  lemma LeaveQueued(list: seq<Tid>, t: Tid, flag: Flag, prio: map<Tid, nat>, a: Arrivals)
    requires Queued(list, flag, prio, a)
    ensures Queued(Unlink(list, t), flag, prio, a)
    ensures list != [] ==> Queued(list[1..], flag, prio, a)
  {
    UnlinkInTurn(list, t, flag, prio, a.since);
  }

  /** The thread at the head, and no other, is served before all the others. */
  lemma HeadIsNext(list: seq<Tid>, flag: Flag, prio: map<Tid, nat>, a: Arrivals, t: Tid)
    requires Queued(list, flag, prio, a) && NoDup(list) && t in list
    ensures t == list[0] <==> forall w :: w in list && w != t ==> Ahead(flag, prio, a.since, t, w)
    ensures t in list[1..] <==> t != list[0]
  {
    var k :| 0 <= k < |list| && list[k] == t;
    if k == 0 {
      forall w | w in list && w != t
        ensures Ahead(flag, prio, a.since, t, w)
      {
        var j :| 0 <= j < |list| && list[j] == w;
        assert Ahead(flag, prio, a.since, list[0], list[j]);
      }
      assert list == [t] + list[1..];
      UnlinkHead(list);
    } else {
      assert Ahead(flag, prio, a.since, list[0], list[k]) && list[0] in list;
      assert !Ahead(flag, prio, a.since, t, list[0]);
      assert list[1..][k - 1] == t;
    }
  }

  // ---------------------------------------------------------------- a waiter changes its priority

  /** At its place in the list `t` may have priority `p` without breaking the order. */
  ghost predicate Between(list: seq<Tid>, prio: map<Tid, nat>, t: Tid, p: nat) {
    forall k :: 0 <= k < |list| && list[k] == t ==>
      && (k > 0 ==> PrioOf(prio, list[k - 1]) <= p)
      && (k + 1 < |list| ==> p <= PrioOf(prio, list[k + 1]))
  }

  /** The same, with arrival order among equals. */
  ghost predicate BetweenTurns(list: seq<Tid>, prio: map<Tid, nat>, since: map<Tid, nat>, t: Tid, p: nat) {
    forall k :: 0 <= k < |list| && list[k] == t ==>
      && (k > 0 ==> Ahead(Prio, prio[t := p], since, list[k - 1], t))
      && (k + 1 < |list| ==> Ahead(Prio, prio[t := p], since, t, list[k + 1]))
  }

  /** The neighbours decide whether the list stays ordered. */
  lemma BetweenExactly(list: seq<Tid>, prio: map<Tid, nat>, t: Tid, p: nat)
    requires NoDup(list) && Urgency(list, prio)
    ensures Urgency(list, prio[t := p]) <==> Between(list, prio, t, p)
  {
    var prio' := prio[t := p];
    if Urgency(list, prio') {
      forall k | 0 <= k < |list| && list[k] == t
        ensures k > 0 ==> PrioOf(prio, list[k - 1]) <= p
        ensures k + 1 < |list| ==> p <= PrioOf(prio, list[k + 1])
      {
        if k > 0 { assert PrioOf(prio', list[k - 1]) <= PrioOf(prio', list[k]); }
        if k + 1 < |list| { assert PrioOf(prio', list[k]) <= PrioOf(prio', list[k + 1]); }
      }
    }
    if Between(list, prio, t, p) {
      forall i, j | 0 <= i < j < |list|
        ensures PrioOf(prio', list[i]) <= PrioOf(prio', list[j])
      {
        if list[j] == t {
          assert PrioOf(prio, list[j - 1]) <= p;
          assert i < j - 1 ==> PrioOf(prio, list[i]) <= PrioOf(prio, list[j - 1]);
        } else if list[i] == t {
          assert p <= PrioOf(prio, list[i + 1]);
          assert i + 1 < j ==> PrioOf(prio, list[i + 1]) <= PrioOf(prio, list[j]);
        }
      }
    }
  }

  lemma FifoFrame(list: seq<Tid>, prio: map<Tid, nat>, prio': map<Tid, nat>, since: map<Tid, nat>)
    requires InTurn(list, Fifo, prio, since)
    ensures InTurn(list, Fifo, prio', since)
  {
    forall i, j | 0 <= i < j < |list|
      ensures Ahead(Fifo, prio', since, list[i], list[j])
    {
      assert Ahead(Fifo, prio, since, list[i], list[j]);
    }
  }

  /** Arrival order survives every change of priority; priority order exactly the fitting ones. */
  lemma SetPrioQueued(list: seq<Tid>, flag: Flag, prio: map<Tid, nat>, a: Arrivals, t: Tid, p: nat)
    requires NoDup(list) && Queued(list, flag, prio, a)
    ensures Queued(list, flag, prio[t := p], a) <==> (flag.Prio? ==> BetweenTurns(list, prio, a.since, t, p))
  {
    match flag
    case Fifo => FifoFrame(list, prio, prio[t := p], a.since);
    case Prio => BetweenTurnsExactly(list, prio, a.since, t, p);
  }

  lemma BetweenTurnsExactly(list: seq<Tid>, prio: map<Tid, nat>, since: map<Tid, nat>, t: Tid, p: nat)
    requires NoDup(list) && InTurn(list, Prio, prio, since)
    ensures InTurn(list, Prio, prio[t := p], since) <==> BetweenTurns(list, prio, since, t, p)
  {
    var prio' := prio[t := p];
    if InTurn(list, Prio, prio', since) {
      forall k | 0 <= k < |list| && list[k] == t
        ensures k > 0 ==> Ahead(Prio, prio', since, list[k - 1], t)
        ensures k + 1 < |list| ==> Ahead(Prio, prio', since, t, list[k + 1])
      {
        if k > 0 { assert Ahead(Prio, prio', since, list[k - 1], list[k]); }
        if k + 1 < |list| { assert Ahead(Prio, prio', since, list[k], list[k + 1]); }
      }
    }
    if BetweenTurns(list, prio, since, t, p) {
      forall i, j | 0 <= i < j < |list|
        ensures Ahead(Prio, prio', since, list[i], list[j])
      {
        assert Ahead(Prio, prio, since, list[i], list[j]);
        if list[j] == t {
          assert Ahead(Prio, prio', since, list[j - 1], t);
          assert i < j - 1 ==> Ahead(Prio, prio, since, list[i], list[j - 1]);
        } else if list[i] == t {
          assert Ahead(Prio, prio', since, t, list[i + 1]);
          assert i + 1 < j ==> Ahead(Prio, prio, since, list[i + 1], list[j]);
        }
      }
    }
  }
}

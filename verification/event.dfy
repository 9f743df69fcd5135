/**
  Event sets (ipc.c): threads wait for all or for any of some bits, and may clear what they receive.
  One send walks the wait list once and wakes every thread whose condition holds at its turn.
*/
module Event {
  import opened IpcList
  import opened Lists

  /** A 32-bit word, as the set of its bits: | is union, & intersection, & ~ difference, 0 the empty set. */
  type Bit = n: nat | n < 32
  type Bits = set<Bit>

  /** event_set and event_info of a thread; with RT_EVENT_FLAG_AND set, RT_EVENT_FLAG_OR is ignored. */
  datatype Want = Want(set_: Bits, all: bool, clear: bool)

  /** The condition of a waiter. */
  predicate Sat(s: Bits, w: Want) { if w.all then w.set_ * s == w.set_ else w.set_ * s != {} }

  /** What a woken thread finds in its event_set: its whole request, or the bits of it that were set. */
  function Granted(s: Bits, w: Want): Bits { if w.all then w.set_ else w.set_ * s }

  function Cleared(s: Bits, bits: Bits, clear: bool): Bits { if clear then s - bits else s }

  // ---------------------------------------------------------------- one pass over the wait list

  /** A thread that a send woke: its request, what it received, and the set at its turn. */
  datatype Grant = Grant(t: Tid, want: Want, got: Bits, before: Bits)

  datatype Pass = Pass(set_: Bits, waiters: seq<Tid>, want: map<Tid, Want>, grants: seq<Grant>)

  function WantOf(want: map<Tid, Want>, t: Tid): Want { if t in want then want[t] else Want({}, false, false) }

  /** The loop of rt_event_send. */
  function Scan(s: Bits, waiters: seq<Tid>, want: map<Tid, Want>): Pass
    decreases |waiters|
  {
    if waiters == [] then Pass(s, [], want, [])
    else
      var t := waiters[0];
      var w := WantOf(want, t);
      if Sat(s, w) then
        var got := Granted(s, w);
        var p := Scan(Cleared(s, got, w.clear), waiters[1..], want[t := w.(set_ := got)]);
        p.(grants := [Grant(t, w, got, s)] + p.grants)
      else
        var p := Scan(s, waiters[1..], want);
        p.(waiters := [t] + p.waiters)
  }

  /** Losing bits never satisfies a waiter. */
  lemma UnsatShrinks(s: Bits, s': Bits, w: Want)
    requires s' <= s && Sat(s', w)
    ensures Sat(s, w)
  {
    if w.all {
      assert w.set_ <= s' by { assert forall b :: b in w.set_ ==> b in w.set_ * s'; }
    } else {
      var b :| b in w.set_ * s';
      assert b in w.set_ * s;
    }
  }

  /** What is granted was set and is the part of the request that was set; it is not empty unless the
      request is. */
  lemma GrantMeets(s: Bits, w: Want)
    requires Sat(s, w)
    ensures Granted(s, w) <= s && Granted(s, w) == w.set_ * s
    ensures w.set_ != {} ==> Granted(s, w) != {}
  {
    assert w.set_ * s <= s;
  }

  // ---- facts about the pass

  lemma {:induction false} ScanShrinks(s: Bits, waiters: seq<Tid>, want: map<Tid, Want>)
    ensures Scan(s, waiters, want).set_ <= s
    decreases |waiters|
  {
    if waiters != [] {
      var w := WantOf(want, waiters[0]);
      if Sat(s, w) {
        var s1, want1 := Cleared(s, Granted(s, w), w.clear), want[waiters[0] := w.(set_ := Granted(s, w))];
        ScanShrinks(s1, waiters[1..], want1);
      } else {
        ScanShrinks(s, waiters[1..], want);
      }
    }
  }

  ghost predicate Distinct(grants: seq<Grant>) { forall i, j :: 0 <= i < j < |grants| ==> grants[i].t != grants[j].t }

  /** The threads left over are old waiters that got nothing; nobody is woken twice. */
  lemma {:induction false} ScanSplits(s: Bits, waiters: seq<Tid>, want: map<Tid, Want>)
    requires NoDup(waiters)
    ensures var p := Scan(s, waiters, want);
      && NoDup(p.waiters)
      && (forall t :: t in p.waiters ==> t in waiters)
      && (forall i :: 0 <= i < |p.grants| ==> p.grants[i].t in waiters && p.grants[i].t !in p.waiters)
      && Distinct(p.grants)
    decreases |waiters|
  {
    if waiters != [] {
      var t, w := waiters[0], WantOf(want, waiters[0]);
      var rest := waiters[1..];
      assert waiters == [t] + rest && t !in rest;
      if Sat(s, w) {
        ScanSplits(Cleared(s, Granted(s, w), w.clear), rest, want[t := w.(set_ := Granted(s, w))]);
      } else {
        ScanSplits(s, rest, want);
      }
    }
  }

  /** Every waiter is left over or was woken. */
  lemma {:induction false} ScanCovers(s: Bits, waiters: seq<Tid>, want: map<Tid, Want>, t: Tid)
    requires NoDup(waiters) && t in waiters && t !in Scan(s, waiters, want).waiters
    ensures var p := Scan(s, waiters, want); exists i :: 0 <= i < |p.grants| && p.grants[i].t == t
    decreases |waiters|
  {
    var u, w := waiters[0], WantOf(want, waiters[0]);
    var rest := waiters[1..];
    assert waiters == [u] + rest && u !in rest;
    var p := Scan(s, waiters, want);
    if Sat(s, w) {
      var s1, want1 := Cleared(s, Granted(s, w), w.clear), want[u := w.(set_ := Granted(s, w))];
      if t == u {
        assert p.grants[0].t == t;
      } else {
        ScanCovers(s1, rest, want1, t);
        var i :| 0 <= i < |Scan(s1, rest, want1).grants| && Scan(s1, rest, want1).grants[i].t == t;
        assert p.grants[i + 1].t == t;
      }
    } else {
      ScanCovers(s, rest, want, t);
    }
  }

  /** A pass writes only to the records of the threads it wakes. */
  lemma {:induction false} ScanWants(s: Bits, waiters: seq<Tid>, want: map<Tid, Want>, t: Tid)
    requires NoDup(waiters)
    ensures t !in waiters || t in Scan(s, waiters, want).waiters ==> WantOf(Scan(s, waiters, want).want, t) == WantOf(want, t)
    decreases |waiters|
  {
    if waiters != [] {
      var u, w := waiters[0], WantOf(want, waiters[0]);
      var rest := waiters[1..];
      assert waiters == [u] + rest && u !in rest;
      if Sat(s, w) {
        ScanWants(Cleared(s, Granted(s, w), w.clear), rest, want[u := w.(set_ := Granted(s, w))], t);
        ScanSplits(Cleared(s, Granted(s, w), w.clear), rest, want[u := w.(set_ := Granted(s, w))]);
      } else {
        ScanWants(s, rest, want, t);
      }
    }
  }

  /** No thread that stays suspended could be satisfied by what is left of the set. */
  lemma {:induction false} ScanLeavesNoneSatisfied(s: Bits, waiters: seq<Tid>, want: map<Tid, Want>)
    requires NoDup(waiters)
    ensures var p := Scan(s, waiters, want); forall t :: t in p.waiters ==> !Sat(p.set_, WantOf(want, t))
    decreases |waiters|
  {
    if waiters != [] {
      var u, w := waiters[0], WantOf(want, waiters[0]);
      var rest := waiters[1..];
      assert waiters == [u] + rest && u !in rest;
      if Sat(s, w) {
        var s1, want1 := Cleared(s, Granted(s, w), w.clear), want[u := w.(set_ := Granted(s, w))];
        ScanLeavesNoneSatisfied(s1, rest, want1);
        ScanSplits(s1, rest, want1);
        assert forall t :: t in rest ==> WantOf(want1, t) == WantOf(want, t);
      } else {
        ScanLeavesNoneSatisfied(s, rest, want);
        ScanShrinks(s, rest, want);
        var p := Scan(s, waiters, want);
        if Sat(p.set_, w) { UnsatShrinks(s, p.set_, w); }
      }
    }
  }

  /** One grant: the condition held at the thread's turn, and it received the bits of its request. */
  ghost predicate GrantAt(g: Grant, want: map<Tid, Want>) {
    g.want == WantOf(want, g.t) && Sat(g.before, g.want) && g.got == Granted(g.before, g.want)
  }

  /** A later thread finds the set without the bits that the earlier one received and cleared. */
  ghost predicate Follows(g: Grant, h: Grant) {
    h.before <= Cleared(g.before, g.got, g.want.clear)
  }

  ghost predicate GrantsOk(grants: seq<Grant>, s: Bits, want: map<Tid, Want>) {
    && (forall i :: 0 <= i < |grants| ==> GrantAt(grants[i], want) && grants[i].before <= s)
    && (forall i, j :: 0 <= i < j < |grants| ==> Follows(grants[i], grants[j]))
  }

  lemma {:induction false} ScanGrants(s: Bits, waiters: seq<Tid>, want: map<Tid, Want>)
    requires NoDup(waiters)
    ensures GrantsOk(Scan(s, waiters, want).grants, s, want)
    decreases |waiters|
  {
    if waiters != [] {
      var u, w := waiters[0], WantOf(want, waiters[0]);
      var rest := waiters[1..];
      assert waiters == [u] + rest && u !in rest;
      if Sat(s, w) {
        var got := Granted(s, w);
        var s1, want1 := Cleared(s, got, w.clear), want[u := w.(set_ := got)];
        var p, q := Scan(s, waiters, want), Scan(s1, rest, want1);
        ScanGrants(s1, rest, want1);
        ScanSplits(s1, rest, want1);
        assert p.grants[0] == Grant(u, w, got, s) && GrantAt(p.grants[0], want);
        forall i | 0 < i < |p.grants|
          ensures GrantAt(p.grants[i], want) && p.grants[i].before <= s && Follows(p.grants[0], p.grants[i])
        {
          assert p.grants[i] == q.grants[i - 1] && GrantAt(q.grants[i - 1], want1);
        }
        forall i, j | 0 < i < j < |p.grants|
          ensures Follows(p.grants[i], p.grants[j])
        {
          assert Follows(q.grants[i - 1], q.grants[j - 1]);
        }
      } else {
        ScanGrants(s, rest, want);
        assert Scan(s, waiters, want).grants == Scan(s, rest, want).grants;
      }
    }
  }

  /** Two threads woken by one send never both receive a bit that the first of them clears. */
  lemma ClearedOnce(s: Bits, waiters: seq<Tid>, want: map<Tid, Want>, i: nat, j: nat)
    requires NoDup(waiters) && i < j < |Scan(s, waiters, want).grants| && Scan(s, waiters, want).grants[i].want.clear
    ensures Scan(s, waiters, want).grants[i].got * Scan(s, waiters, want).grants[j].got == {}
  {
    ScanGrants(s, waiters, want);
    var g, h := Scan(s, waiters, want).grants[i], Scan(s, waiters, want).grants[j];
    assert GrantAt(h, want) && Follows(g, h);
    GrantMeets(h.before, h.want);
  }

  /** A woken thread finds in its record what it received. */
  lemma {:induction false} ScanRecords(s: Bits, waiters: seq<Tid>, want: map<Tid, Want>, i: nat)
    requires NoDup(waiters) && i < |Scan(s, waiters, want).grants|
    ensures var p := Scan(s, waiters, want); var g := p.grants[i]; WantOf(p.want, g.t) == g.want.(set_ := g.got)
    decreases |waiters|
  {
    if waiters != [] {
      var u, w := waiters[0], WantOf(want, waiters[0]);
      var rest := waiters[1..];
      assert waiters == [u] + rest && u !in rest;
      if Sat(s, w) {
        var s1, want1 := Cleared(s, Granted(s, w), w.clear), want[u := w.(set_ := Granted(s, w))];
        if i == 0 { ScanWants(s1, rest, want1, u); } else { ScanRecords(s1, rest, want1, i - 1); }
      } else {
        ScanRecords(s, rest, want, i);
      }
    }
  }

  // ---------------------------------------------------------------- the protocol

  /** Where a thread stands in rt_event_recv. */
  datatype Pc =
    | Idle
    | Waiting(asked: Want)                    // suspended on parent.suspend_thread
    | Woken(asked: Want, before: Bits)        // resumed by a send that found the set `before`

  datatype Outcome = Refused | Sent | Got(set_: Bits) | TimedOut | Blocked

  datatype Ev = Ev(flag: Flag, set_: Bits, waiters: seq<Tid>, want: map<Tid, Want>, prio: map<Tid, nat>, pc: map<Tid, Pc>)

  function PcOf(e: Ev, t: Tid): Pc { if t in e.pc then e.pc[t] else Idle }

  function Wake(pc: map<Tid, Pc>, grants: seq<Grant>): map<Tid, Pc>
    decreases |grants|
  {
    if grants == [] then pc else Wake(pc[grants[0].t := Woken(grants[0].want, grants[0].before)], grants[1..])
  }

  function SendStep(e: Ev, bits: Bits): (Ev, Outcome) {
    if bits == {} then (e, Refused)
    else
      var p := Scan(e.set_ + bits, e.waiters, e.want);
      (e.(set_ := p.set_, waiters := p.waiters, want := p.want, pc := Wake(e.pc, p.grants)), Sent)
  }

  function RecvStep(e: Ev, t: Tid, w: Want, mayWait: bool): (Ev, Outcome) {
    if w.set_ == {} then (e, Refused)
    else if Sat(e.set_, w) then (e.(set_ := Cleared(e.set_, w.set_, w.clear)), Got(e.set_ * w.set_))
    else if !mayWait then (e, TimedOut)
    else (e.(want := e.want[t := w], waiters := Suspend(e.waiters, t, e.prio, e.flag), pc := e.pc[t := Waiting(w)]), Blocked)
  }

  datatype Event =
    | Send(bits: Bits)
    | Recv(t: Tid, want: Want, mayWait: bool)
    | Finish(t: Tid)          // a resumed thread reads its event_set and returns
    | Timeout(t: Tid)
    | SetPrio(t: Tid, p: nat) // a thread changes its priority, suspended here or not
    | Reset

  predicate Enabled(e: Ev, a: Event) {
    match a
    case Send(_) => true
    case Recv(t, _, _) => PcOf(e, t) == Idle
    case Finish(t) => PcOf(e, t).Woken?
    case Timeout(t) => t in e.waiters
    case SetPrio(_, _) => true
    case Reset => true
  }

  function Do(e: Ev, a: Event): (Ev, Outcome)
    requires Enabled(e, a)
  {
    match a
    case Send(bits) => SendStep(e, bits)
    case Recv(t, w, mayWait) => RecvStep(e, t, w, mayWait)
    case Finish(t) => (e.(pc := e.pc[t := Idle]), Got(WantOf(e.want, t).set_))
    case Timeout(t) => (e.(waiters := Unlink(e.waiters, t), pc := e.pc[t := Idle]), TimedOut)
    case SetPrio(t, p) => (e.(prio := e.prio[t := p]), Sent)
    case Reset => (e.(set_ := {}, waiters := [], pc := map t | t in e.pc :: if t in e.waiters then Idle else e.pc[t]), Sent)
  }

  // ---------------------------------------------------------------- the invariant

  /** What the record of a thread says, given where it stands. */
  ghost predicate Recorded(set_: Bits, want: map<Tid, Want>, t: Tid, c: Pc) {
    match c
    case Idle => true
    case Waiting(asked) => WantOf(want, t) == asked && asked.set_ != {} && !Sat(set_, asked)
    case Woken(asked, before) =>
      asked.set_ != {} && Sat(before, asked) && WantOf(want, t) == asked.(set_ := Granted(before, asked))
  }

  ghost predicate Inv(e: Ev) {
    && NoDup(e.waiters)
    && (forall t :: t in e.waiters <==> PcOf(e, t).Waiting?)
    && (forall t: Tid :: Recorded(e.set_, e.want, t, PcOf(e, t)))
  }

  lemma {:induction false} WakeAt(pc: map<Tid, Pc>, grants: seq<Grant>, t: Tid)
    requires Distinct(grants)
    ensures var c, c' := if t in pc then pc[t] else Idle, if t in Wake(pc, grants) then Wake(pc, grants)[t] else Idle;
      && ((forall i :: 0 <= i < |grants| ==> grants[i].t != t) ==> c' == c)
      && (forall i :: 0 <= i < |grants| && grants[i].t == t ==> c' == Woken(grants[i].want, grants[i].before))
    decreases |grants|
  {
    if grants != [] {
      var g := grants[0];
      WakeAt(pc[g.t := Woken(g.want, g.before)], grants[1..], t);
      assert forall i :: 0 <= i < |grants| - 1 ==> grants[1..][i] == grants[i + 1];
    }
  }

  /** The list loses threads only, so it stays ordered. */
  lemma {:induction false} ScanUrgency(s: Bits, waiters: seq<Tid>, want: map<Tid, Want>, prio: map<Tid, nat>)
    requires NoDup(waiters) && Urgency(waiters, prio)
    ensures Urgency(Scan(s, waiters, want).waiters, prio)
    decreases |waiters|
  {
    if waiters != [] {
      var u, w := waiters[0], WantOf(want, waiters[0]);
      var rest := waiters[1..];
      assert waiters == [u] + rest && u !in rest;
      if Sat(s, w) {
        ScanUrgency(Cleared(s, Granted(s, w), w.clear), rest, want[u := w.(set_ := Granted(s, w))], prio);
      } else {
        ScanUrgency(s, rest, want, prio);
        ScanSplits(s, rest, want);
        var left := Scan(s, rest, want).waiters;
        assert forall i :: 0 <= i < |left| ==> left[i] in left && left[i] in rest;
      }
    }
  }

  lemma SendRecorded(e: Ev, bits: Bits, t: Tid)
    requires Inv(e) && bits != {}
    ensures var e' := SendStep(e, bits).0;
      Recorded(e'.set_, e'.want, t, PcOf(e', t)) && (t in e'.waiters <==> PcOf(e', t).Waiting?)
  {
    var p, e' := Scan(e.set_ + bits, e.waiters, e.want), SendStep(e, bits).0;
    ScanSplits(e.set_ + bits, e.waiters, e.want);
    WakeAt(e.pc, p.grants, t);
    assert Recorded(e.set_, e.want, t, PcOf(e, t));
    if t in e.waiters && t !in p.waiters {
      ScanCovers(e.set_ + bits, e.waiters, e.want, t);
      var i :| 0 <= i < |p.grants| && p.grants[i].t == t;
      ScanRecords(e.set_ + bits, e.waiters, e.want, i);
      ScanGrants(e.set_ + bits, e.waiters, e.want);
      assert GrantAt(p.grants[i], e.want);
      assert PcOf(e', t) == Woken(p.grants[i].want, p.grants[i].before);
    } else {
      ScanWants(e.set_ + bits, e.waiters, e.want, t);
      ScanLeavesNoneSatisfied(e.set_ + bits, e.waiters, e.want);
      assert PcOf(e', t) == PcOf(e, t);
    }
  }

  lemma SendKeeps(e: Ev, bits: Bits)
    requires Inv(e)
    ensures Inv(SendStep(e, bits).0)
  {
    if bits != {} {
      var e' := SendStep(e, bits).0;
      ScanSplits(e.set_ + bits, e.waiters, e.want);
      forall t: Tid
        ensures Recorded(e'.set_, e'.want, t, PcOf(e', t)) && (t in e'.waiters <==> PcOf(e', t).Waiting?)
      {
        SendRecorded(e, bits, t);
      }
    }
  }

  lemma RecvKeeps(e: Ev, t: Tid, w: Want, mayWait: bool)
    requires Inv(e) && PcOf(e, t) == Idle
    ensures Inv(RecvStep(e, t, w, mayWait).0)
  {
    var e' := RecvStep(e, t, w, mayWait).0;
    if w.set_ != {} {
      if Sat(e.set_, w) {
        forall u: Tid
          ensures Recorded(e'.set_, e'.want, u, PcOf(e', u))
        {
          assert Recorded(e.set_, e.want, u, PcOf(e, u));
          if PcOf(e, u).Waiting? && Sat(e'.set_, PcOf(e, u).asked) { UnsatShrinks(e.set_, e'.set_, PcOf(e, u).asked); }
        }
      } else if mayWait {
        SuspendElems(e.waiters, t, e.prio, e.flag);
        SuspendNoDup(e.waiters, t, e.prio, e.flag);
        forall u: Tid
          ensures Recorded(e'.set_, e'.want, u, PcOf(e', u))
        {
          assert Recorded(e.set_, e.want, u, PcOf(e, u));
        }
      }
    }
  }

  lemma OthersKeep(e: Ev, a: Event)
    requires Inv(e) && Enabled(e, a) && (a.Finish? || a.Timeout? || a.SetPrio? || a.Reset?)
    ensures Inv(Do(e, a).0)
  {
    var e' := Do(e, a).0;
    forall u: Tid
      ensures Recorded(e'.set_, e'.want, u, PcOf(e', u))
    {
      assert Recorded(e.set_, e.want, u, PcOf(e, u));
    }
    if a.Timeout? { UnlinkNoDup(e.waiters, a.t); }
  }

  lemma StepKeepsInv(e: Ev, a: Event)
    requires Inv(e) && Enabled(e, a)
    ensures Inv(Do(e, a).0)
  {
    match a
    case Send(bits) => SendKeeps(e, bits);
    case Recv(t, w, mayWait) => RecvKeeps(e, t, w, mayWait);
    case _ => OthersKeep(e, a);
  }

  /** The wait list is ordered by urgency. */
  ghost predicate Ranked(e: Ev) { Urgency(e.waiters, e.prio) }

  /** A change of priority leaves a waiting thread between its neighbours. */
  ghost predicate Fitting(e: Ev, a: Event) { a.SetPrio? ==> Between(e.waiters, e.prio, a.t, a.p) }

  /** With RT_IPC_FLAG_PRIO a step keeps the list ordered exactly when it is not an unfitting change of
      priority. */
  lemma StepRanksExactly(e: Ev, a: Event)
    requires Inv(e) && e.flag.Prio? && Ranked(e) && Enabled(e, a)
    ensures Ranked(Do(e, a).0) <==> Fitting(e, a)
  {
    match a
    case Send(bits) => if bits != {} { ScanUrgency(e.set_ + bits, e.waiters, e.want, e.prio); }
    case Recv(t, _, _) => SuspendByUrgency(e.waiters, t, e.prio);
    case Timeout(t) => UnlinkUrgency(e.waiters, t, e.prio);
    case SetPrio(t, p) => BetweenExactly(e.waiters, e.prio, t, p);
    case _ =>
  }

  // ---------------------------------------------------------------- whole runs

  predicate EnabledRun(e: Ev, acts: seq<Event>)
    decreases |acts|
  {
    acts == [] || (Enabled(e, acts[0]) && EnabledRun(Do(e, acts[0]).0, acts[1..]))
  }

  function Run(e: Ev, acts: seq<Event>): Ev
    requires EnabledRun(e, acts)
    decreases |acts|
  {
    if acts == [] then e else Run(Do(e, acts[0]).0, acts[1..])
  }

  lemma {:induction false} RunKeepsInv(e: Ev, acts: seq<Event>)
    requires Inv(e) && EnabledRun(e, acts)
    ensures Inv(Run(e, acts))
    decreases |acts|
  {
    if acts != [] {
      StepKeepsInv(e, acts[0]);
      RunKeepsInv(Do(e, acts[0]).0, acts[1..]);
    }
  }

  ghost predicate FittingRun(e: Ev, acts: seq<Event>)
    requires EnabledRun(e, acts)
    decreases |acts|
  {
    acts == [] || (Fitting(e, acts[0]) && FittingRun(Do(e, acts[0]).0, acts[1..]))
  }

  /** In every run whose changes of priority fit, the list stays ordered. */
  lemma {:induction false} RunRanks(e: Ev, acts: seq<Event>)
    requires Inv(e) && e.flag.Prio? && Ranked(e) && EnabledRun(e, acts) && FittingRun(e, acts)
    ensures Ranked(Run(e, acts))
    decreases |acts|
  {
    if acts != [] {
      StepKeepsInv(e, acts[0]);
      StepRanksExactly(e, acts[0]);
      RunRanks(Do(e, acts[0]).0, acts[1..]);
    }
  }

  /** rt_event_init. */
  function Init(flag: Flag, prio: map<Tid, nat>): Ev { Ev(flag, {}, [], map[], prio, map[]) }

  /** In every interleaving: a thread is suspended only while the event set does not meet its request. */
  lemma NoSatisfiedWaiterEver(flag: Flag, prio: map<Tid, nat>, acts: seq<Event>, t: Tid)
    requires EnabledRun(Init(flag, prio), acts)
    requires t in Run(Init(flag, prio), acts).waiters
    ensures var e := Run(Init(flag, prio), acts); !Sat(e.set_, WantOf(e.want, t))
  {
    RunKeepsInv(Init(flag, prio), acts);
    var e := Run(Init(flag, prio), acts);
    assert Recorded(e.set_, e.want, t, PcOf(e, t));
  }

  /** In every interleaving: a thread that was woken returns bits of its request, all of them if it asked
      for all, at least one otherwise, and they were set together when it was woken. */
  lemma WokenGetsWhatItAsked(flag: Flag, prio: map<Tid, nat>, acts: seq<Event>, t: Tid)
    requires EnabledRun(Init(flag, prio), acts)
    requires PcOf(Run(Init(flag, prio), acts), t).Woken?
    ensures var e := Run(Init(flag, prio), acts); var o, c := Do(e, Finish(t)).1, PcOf(e, t);
      && o.Got? && o.set_ != {} && o.set_ <= c.before && o.set_ <= c.asked.set_
      && (c.asked.all ==> o.set_ == c.asked.set_)
  {
    RunKeepsInv(Init(flag, prio), acts);
    var e := Run(Init(flag, prio), acts);
    assert Recorded(e.set_, e.want, t, PcOf(e, t));
    GrantMeets(PcOf(e, t).before, PcOf(e, t).asked);
  }

  // ---------------------------------------------------------------- arrival order

  function Arrive(e: Ev, a: Arrivals, act: Event): Arrivals
    requires Enabled(e, act)
  {
    if act.Recv? && Do(e, act).1.Blocked? then Arrived(a, act.t) else a
  }

  ghost predicate Served(e: Ev, a: Arrivals) { Queued(e.waiters, e.flag, e.prio, a) }

  /** A waiter whose priority changes keeps its place only between its neighbours, arrival order included. */
  ghost predicate KeepsPlace(e: Ev, a: Arrivals, act: Event) {
    e.flag.Prio? && act.SetPrio? ==> BetweenTurns(e.waiters, e.prio, a.since, act.t, act.p)
  }

  /** The threads that a walk leaves over keep their order. */
  lemma {:induction false} ScanQueued(s: Bits, waiters: seq<Tid>, want: map<Tid, Want>, flag: Flag, prio: map<Tid, nat>, a: Arrivals)
    requires NoDup(waiters) && Queued(waiters, flag, prio, a)
    ensures Queued(Scan(s, waiters, want).waiters, flag, prio, a)
    decreases |waiters|
  {
    if waiters != [] {
      var u, w := waiters[0], WantOf(want, waiters[0]);
      var rest := waiters[1..];
      assert waiters == [u] + rest && u !in rest;
      if Sat(s, w) {
        ScanQueued(Cleared(s, Granted(s, w), w.clear), rest, want[u := w.(set_ := Granted(s, w))], flag, prio, a);
      } else {
        ScanQueued(s, rest, want, flag, prio, a);
        ScanSplits(s, rest, want);
        var left := Scan(s, rest, want).waiters;
        forall i | 0 <= i < |left|
          ensures Ahead(flag, prio, a.since, u, left[i])
        {
          assert left[i] in rest;
        }
      }
    }
  }

  /** A step keeps priority order, and arrival order among equals, exactly under that condition. */
  lemma StepServesExactly(e: Ev, a: Arrivals, act: Event)
    requires Inv(e) && Served(e, a) && Enabled(e, act)
    ensures Served(Do(e, act).0, Arrive(e, a, act)) <==> KeepsPlace(e, a, act)
  {
    match act
    case Send(bits) => ScanQueued(e.set_ + bits, e.waiters, e.want, e.flag, e.prio, a);
    case Recv(t, _, _) => JoinQueued(e.waiters, t, e.flag, e.prio, a);
    case Timeout(t) => LeaveQueued(e.waiters, t, e.flag, e.prio, a);
    case SetPrio(t, p) => SetPrioQueued(e.waiters, e.flag, e.prio, a, t, p);
    case _ =>
  }

  ghost predicate PlacesKept(e: Ev, a: Arrivals, acts: seq<Event>)
    requires EnabledRun(e, acts)
    decreases |acts|
  {
    acts == [] || (KeepsPlace(e, a, acts[0]) && PlacesKept(Do(e, acts[0]).0, Arrive(e, a, acts[0]), acts[1..]))
  }

  function ArriveRun(e: Ev, a: Arrivals, acts: seq<Event>): Arrivals
    requires EnabledRun(e, acts)
    decreases |acts|
  {
    if acts == [] then a else ArriveRun(Do(e, acts[0]).0, Arrive(e, a, acts[0]), acts[1..])
  }

  lemma {:induction false} RunServes(e: Ev, a: Arrivals, acts: seq<Event>)
    requires Inv(e) && Served(e, a) && EnabledRun(e, acts) && PlacesKept(e, a, acts)
    ensures Served(Run(e, acts), ArriveRun(e, a, acts))
    decreases |acts|
  {
    if acts != [] {
      StepKeepsInv(e, acts[0]);
      StepServesExactly(e, a, acts[0]);
      RunServes(Do(e, acts[0]).0, Arrive(e, a, acts[0]), acts[1..]);
    }
  }

  /** In every interleaving a send walks over the waiters in the order in which they are served: by arrival with
      RT_IPC_FLAG_FIFO, by priority and then by arrival with RT_IPC_FLAG_PRIO. */
  lemma WalkedInTurnEver(flag: Flag, prio: map<Tid, nat>, acts: seq<Event>, i: nat, j: nat)
    requires EnabledRun(Init(flag, prio), acts) && PlacesKept(Init(flag, prio), Arrivals(0, map[]), acts)
    requires i < j < |Run(Init(flag, prio), acts).waiters|
    ensures var e, a := Run(Init(flag, prio), acts), ArriveRun(Init(flag, prio), Arrivals(0, map[]), acts);
      Ahead(e.flag, e.prio, a.since, e.waiters[i], e.waiters[j])
  {
    RunKeepsInv(Init(flag, prio), acts);
    RunServes(Init(flag, prio), Arrivals(0, map[]), acts);
  }

  // ---------------------------------------------------------------- exactly what each step does

  /** The condition and the grant of a waiter, in bits. */
  lemma SatExactly(s: Bits, w: Want)
    ensures Sat(s, w) <==> if w.all then forall b :: b in w.set_ ==> b in s else exists b :: b in w.set_ && b in s
    ensures Sat(s, w) ==> forall b :: b in Granted(s, w) <==> b in w.set_ && b in s
  {
    if w.all {
      if forall b :: b in w.set_ ==> b in s { assert w.set_ * s == w.set_; }
      if w.set_ * s == w.set_ { assert forall b :: b in w.set_ ==> b in w.set_ * s; }
    } else if b :| b in w.set_ && b in s {
      assert b in w.set_ * s;
    }
  }

  /** A pass over two lists, one after the other. */
  lemma {:induction false} ScanConcat(s: Bits, a: seq<Tid>, b: seq<Tid>, want: map<Tid, Want>)
    ensures var p := Scan(s, a, want); var q := Scan(p.set_, b, p.want);
      Scan(s, a + b, want) == Pass(q.set_, p.waiters + q.waiters, q.want, p.grants + q.grants)
    decreases |a|
  {
    if a == [] {
      assert a + b == b;
    } else {
      var t, w := a[0], WantOf(want, a[0]);
      assert (a + b)[1..] == a[1..] + b;
      if Sat(s, w) {
        ScanConcat(Cleared(s, Granted(s, w), w.clear), a[1..], b, want[t := w.(set_ := Granted(s, w))]);
      } else {
        ScanConcat(s, a[1..], b, want);
      }
    }
  }

  /** The walk goes down the list: the k-th thread is woken exactly if its condition holds for the set that the
      first k threads leave. */
  lemma ScanTurn(s: Bits, waiters: seq<Tid>, want: map<Tid, Want>, k: nat)
    requires NoDup(waiters) && k < |waiters|
    ensures waiters[k] !in Scan(s, waiters, want).waiters <==> Sat(Scan(s, waiters[..k], want).set_, WantOf(want, waiters[k]))
  {
    var a, b, t := waiters[..k], waiters[k..], waiters[k];
    assert waiters == a + b && t !in a && b[0] == t && t !in b[1..];
    var p := Scan(s, a, want);
    ScanConcat(s, a, b, want);
    ScanSplits(s, a, want);
    ScanWants(s, a, want, t);
    ScanSplits(p.set_, b, p.want);
    if Sat(p.set_, WantOf(want, t)) {
      var w := WantOf(want, t);
      ScanSplits(Cleared(p.set_, Granted(p.set_, w), w.clear), b[1..], p.want[t := w.(set_ := Granted(p.set_, w))]);
    }
  }

  /** Bits leave the set only into the hands of woken threads that clear. */
  lemma {:induction false} ScanLoses(s: Bits, waiters: seq<Tid>, want: map<Tid, Want>, b: Bit)
    ensures var p := Scan(s, waiters, want);
      b in p.set_ <==> b in s && forall i :: 0 <= i < |p.grants| && p.grants[i].want.clear ==> b !in p.grants[i].got
    decreases |waiters|
  {
    if waiters != [] {
      var t, w := waiters[0], WantOf(want, waiters[0]);
      if Sat(s, w) {
        var got := Granted(s, w);
        var q := Scan(Cleared(s, got, w.clear), waiters[1..], want[t := w.(set_ := got)]);
        var gs := Scan(s, waiters, want).grants;
        ScanLoses(Cleared(s, got, w.clear), waiters[1..], want[t := w.(set_ := got)], b);
        assert gs[0] == Grant(t, w, got, s);
        assert forall i :: 0 <= i < |q.grants| ==> gs[i + 1] == q.grants[i];
        assert forall i :: 0 < i < |gs| ==> gs[i] == q.grants[i - 1];
      } else {
        ScanLoses(s, waiters[1..], want, b);
      }
    }
  }

  lemma ScanWakes(s: Bits, waiters: seq<Tid>, want: map<Tid, Want>)
    requires NoDup(waiters)
    ensures var p := Scan(s, waiters, want); p.grants != [] ==> exists t :: t in waiters && t !in p.waiters
  {
    ScanSplits(s, waiters, want);
    var p := Scan(s, waiters, want);
    if p.grants != [] { assert p.grants[0].t in waiters && p.grants[0].t !in p.waiters; }
  }

  /** Every bit that is set or sent stays, unless a thread that this send wakes asked to clear and received it. */
  lemma SendExactly(e: Ev, bits: Bits, b: Bit)
    requires Inv(e)
    ensures var (e', o) := SendStep(e, bits);
      && (o == Refused <==> bits == {}) && (o == Sent <==> bits != {})
      && (o == Refused ==> e' == e)
      && (b in e'.set_ ==> b in e.set_ || b in bits)
      && (bits != {} && (b in e.set_ || b in bits) && b !in e'.set_ ==>
            exists t :: t in e.waiters && PcOf(e', t).Woken? && PcOf(e', t).asked.clear && b in WantOf(e'.want, t).set_)
      && (bits != {} && (forall t :: t in e.waiters ==> t in e'.waiters) ==> e'.set_ == e.set_ + bits)
  {
    if bits != {} {
      var p, e' := Scan(e.set_ + bits, e.waiters, e.want), SendStep(e, bits).0;
      ScanLoses(e.set_ + bits, e.waiters, e.want, b);
      ScanSplits(e.set_ + bits, e.waiters, e.want);
      if b in e.set_ + bits && b !in p.set_ {
        var i :| 0 <= i < |p.grants| && p.grants[i].want.clear && b in p.grants[i].got;
        var t := p.grants[i].t;
        ScanRecords(e.set_ + bits, e.waiters, e.want, i);
        WakeAt(e.pc, p.grants, t);
        assert t in e.waiters && PcOf(e', t).Woken? && PcOf(e', t).asked.clear && b in WantOf(e'.want, t).set_;
      }
      if forall t :: t in e.waiters ==> t in e'.waiters {
        ScanWakes(e.set_ + bits, e.waiters, e.want);
        forall c: Bit
          ensures c in p.set_ <==> c in e.set_ + bits
        {
          ScanLoses(e.set_ + bits, e.waiters, e.want, c);
        }
      }
    }
  }

  /** A send touches nobody but the threads it wakes. */
  lemma SendLeavesOthers(e: Ev, bits: Bits, t: Tid)
    requires Inv(e)
    ensures var e' := SendStep(e, bits).0;
      && (t in e'.waiters ==> t in e.waiters)
      && (t !in e.waiters || t in e'.waiters ==> PcOf(e', t) == PcOf(e, t) && WantOf(e'.want, t) == WantOf(e.want, t))
      && (t in e.waiters && t !in e'.waiters ==> PcOf(e', t).Woken?)
      && e'.prio == e.prio && e'.flag == e.flag
  {
    if bits != {} {
      var p := Scan(e.set_ + bits, e.waiters, e.want);
      ScanSplits(e.set_ + bits, e.waiters, e.want);
      ScanWants(e.set_ + bits, e.waiters, e.want, t);
      WakeAt(e.pc, p.grants, t);
      if t in e.waiters && t !in p.waiters { ScanCovers(e.set_ + bits, e.waiters, e.want, t); }
    }
  }

  /** A receive that the set meets gets exactly the requested bits that are set, and takes exactly its request out
      of the set if it clears; one that the set does not meet waits, or gives up and changes nothing. */
  lemma RecvExactly(e: Ev, t: Tid, w: Want, mayWait: bool)
    requires Inv(e) && PcOf(e, t) == Idle
    ensures var (e', o) := RecvStep(e, t, w, mayWait);
      var met := if w.all then forall b :: b in w.set_ ==> b in e.set_ else exists b :: b in w.set_ && b in e.set_;
      && (o == Refused <==> w.set_ == {})
      && (o.Got? <==> w.set_ != {} && met)
      && (o == TimedOut <==> w.set_ != {} && !met && !mayWait)
      && (o == Blocked <==> w.set_ != {} && !met && mayWait)
      && (o.Got? ==> (forall b :: b in o.set_ <==> b in w.set_ && b in e.set_) && e'.(set_ := e.set_) == e)
      && (forall b :: b in e'.set_ <==> b in e.set_ && !(o.Got? && w.clear && b in w.set_))
      && (o == Refused || o == TimedOut ==> e' == e)
      && (o == Blocked ==> PcOf(e', t) == Waiting(w) && forall u :: u in e'.waiters <==> u in e.waiters || u == t)
      && (o == Blocked ==> forall u :: u != t ==> PcOf(e', u) == PcOf(e, u) && WantOf(e'.want, u) == WantOf(e.want, u))
  {
    SatExactly(e.set_, w);
    SuspendElems(e.waiters, t, e.prio, e.flag);
  }

  /** A woken thread returns its record; a timeout changes no bit and a reset clears all; a change of priority
      changes that priority. */
  lemma OthersExactly(e: Ev, t: Tid, p: nat, u: Tid)
    requires Inv(e)
    ensures PcOf(e, t).Woken? ==>
      var (e', o) := Do(e, Finish(t));
      && o == Got(WantOf(e.want, t).set_) && e'.(pc := e.pc) == e
      && (PcOf(e', u) == if u == t then Idle else PcOf(e, u))
    ensures t in e.waiters ==>
      var (e', o) := Do(e, Timeout(t));
      && o == TimedOut && e'.set_ == e.set_ && e'.want == e.want
      && (u in e'.waiters <==> u in e.waiters && u != t)
      && PcOf(e', u) == (if u == t then Idle else PcOf(e, u))
    ensures var e' := Do(e, SetPrio(t, p)).0;
      e'.(prio := e.prio) == e && PrioOf(e'.prio, u) == if u == t then p else PrioOf(e.prio, u)
    ensures var e' := Do(e, Reset).0;
      && e'.set_ == {} && e'.waiters == []
      && (PcOf(e', u) == if u in e.waiters then Idle else PcOf(e, u))
  {
  }

  // ---------------------------------------------------------------- the event object

  lemma {:induction false} WakeAppend(pc: map<Tid, Pc>, grants: seq<Grant>, g: Grant)
    ensures Wake(pc, grants + [g]) == Wake(pc, grants)[g.t := Woken(g.want, g.before)]
    decreases |grants|
  {
    if grants == [] {
      assert [] + [g] == [g];
    } else {
      assert (grants + [g])[1..] == grants[1..] + [g];
      WakeAppend(pc[grants[0].t := Woken(grants[0].want, grants[0].before)], grants[1..], g);
    }
  }

  /** What is left of a pass over the whole list after its first threads were seen. */
  ghost predicate Rest(whole: Pass, s: Bits, kept: seq<Tid>, ahead: seq<Tid>, want: map<Tid, Want>, grants: seq<Grant>) {
    var p := Scan(s, ahead, want);
    whole == Pass(p.set_, kept + p.waiters, p.want, grants + p.grants)
  }

  lemma RestGrant(whole: Pass, s: Bits, kept: seq<Tid>, ahead: seq<Tid>, want: map<Tid, Want>, grants: seq<Grant>)
    requires Rest(whole, s, kept, ahead, want, grants) && ahead != [] && Sat(s, WantOf(want, ahead[0]))
    ensures var t, w := ahead[0], WantOf(want, ahead[0]); var got := Granted(s, w);
      Rest(whole, Cleared(s, got, w.clear), kept, ahead[1..], want[t := w.(set_ := got)], grants + [Grant(t, w, got, s)])
  {
    var t, w := ahead[0], WantOf(want, ahead[0]);
    var got := Granted(s, w);
    var q := Scan(Cleared(s, got, w.clear), ahead[1..], want[t := w.(set_ := got)]);
    assert grants + ([Grant(t, w, got, s)] + q.grants) == (grants + [Grant(t, w, got, s)]) + q.grants;
  }

  lemma RestKeep(whole: Pass, s: Bits, kept: seq<Tid>, ahead: seq<Tid>, want: map<Tid, Want>, grants: seq<Grant>)
    requires Rest(whole, s, kept, ahead, want, grants) && ahead != [] && !Sat(s, WantOf(want, ahead[0]))
    ensures Rest(whole, s, kept + [ahead[0]], ahead[1..], want, grants)
  {
    var q := Scan(s, ahead[1..], want);
    assert kept + ([ahead[0]] + q.waiters) == (kept + [ahead[0]]) + q.waiters;
  }

  class EventObject {
    const flag: Flag
    var set_: Bits
    var waiters: seq<Tid>             // parent.suspend_thread
    var want: map<Tid, Want>          // event_set and event_info of the threads
    var prio: map<Tid, nat>
    ghost var pc: map<Tid, Pc>

    ghost predicate Valid()
      reads this
    {
      Inv(Abs())
    }

    ghost function Abs(): Ev
      reads this
    {
      Ev(flag, set_, waiters, want, prio, pc)
    }

    constructor (flag: Flag, prio: map<Tid, nat>)
      ensures Valid() && Abs() == Init(flag, prio)
    {
      this.flag, this.prio := flag, prio;
      set_, waiters, want, pc := {}, [], map[], map[];
    }

    /** The test of one waiter; what an OR waiter receives is saved in its record. */
    method Check(t: Tid) returns (status: bool)
      modifies this`want
      ensures status == Sat(set_, WantOf(old(want), t))
      ensures want == if status then old(want)[t := WantOf(old(want), t).(set_ := Granted(set_, WantOf(old(want), t)))] else old(want)
    {
      var w := WantOf(want, t);
      status := false;
      if w.all {
        if w.set_ * set_ == w.set_ {
          assert want[t := w] == want;
          status := true;
        }
      } else {
        if w.set_ * set_ != {} {
          want := want[t := w.(set_ := w.set_ * set_)];
          status := true;
        }
      }
    }

    /** rt_event_send. */
    method SendPass(bits: Bits) returns (o: Outcome)
      requires Valid()
      modifies this`set_, this`waiters, this`want, this`pc
      ensures Valid()
      ensures (Abs(), o) == SendStep(old(Abs()), bits)
    {
      SendKeeps(Abs(), bits);
      if bits == {} { return Refused; }
      set_ := set_ + bits;
      Deliver();
      o := Sent;
    }

    /** The loop of rt_event_send over the wait list. */
    method Deliver()
      modifies this`set_, this`waiters, this`want, this`pc
      ensures var p := Scan(old(set_), old(waiters), old(want));
        Abs() == old(Abs()).(set_ := p.set_, waiters := p.waiters, want := p.want, pc := Wake(old(pc), p.grants))
    {
      ghost var whole, pc0 := Scan(set_, waiters, want), pc;
      ghost var grants: seq<Grant> := [];
      var n := 0;
      assert waiters[0..] == waiters && [] + whole.waiters == whole.waiters && [] + whole.grants == whole.grants;
      while n != |waiters|
        invariant n <= |waiters|
        invariant Rest(whole, set_, waiters[..n], waiters[n..], want, grants)
        invariant pc == Wake(pc0, grants)
        decreases |waiters| - n
      {
        var t := waiters[n];
        ghost var s, want0, kept, ahead := set_, want, waiters[..n], waiters[n..];
        var status := Check(t);
        if status {
          ghost var g := Grant(t, WantOf(want0, t), Granted(s, WantOf(want0, t)), s);
          RestGrant(whole, s, kept, ahead, want0, grants);
          WakeAppend(pc0, grants, g);
          if want[t].clear { set_ := set_ - want[t].set_; }
          waiters := waiters[..n] + waiters[n + 1..];
          assert waiters[..n] == kept && waiters[n..] == ahead[1..];
          grants := grants + [g];
          pc := pc[t := Woken(g.want, s)];
        } else {
          RestKeep(whole, s, kept, ahead, want0, grants);
          n := n + 1;
          assert waiters[..n] == kept + [t] && waiters[n..] == ahead[1..];
        }
      }
      assert waiters[n..] == [] && waiters[..n] == waiters;
      assert grants + [] == grants && waiters + [] == waiters;
    }

    /** rt_event_recv by thread `t`, up to the point where it returns or is suspended. */
    method RecvPass(t: Tid, w: Want, mayWait: bool) returns (o: Outcome)
      requires Valid() && PcOf(Abs(), t) == Idle
      modifies this`set_, this`waiters, this`want, this`pc
      ensures Valid()
      ensures (Abs(), o) == RecvStep(old(Abs()), t, w, mayWait)
    {
      RecvKeeps(Abs(), t, w, mayWait);
      if w.set_ == {} { return Refused; }
      var status := if w.all then set_ * w.set_ == w.set_ else set_ * w.set_ != {};
      assert set_ * w.set_ == w.set_ * set_;
      if status {
        o := Got(set_ * w.set_);
        if w.clear { set_ := set_ - w.set_; }
      } else if !mayWait {
        o := TimedOut;
      } else {
        want := want[t := w];
        waiters := Enlist(t);
        pc := pc[t := Waiting(w)];
        o := Blocked;
      }
    }

    /** rt_ipc_list_suspend. */
    method Enlist(t: Tid) returns (r: seq<Tid>)
      ensures r == Suspend(waiters, t, prio, flag)
    {
      match flag
      case Fifo => r := waiters + [t];
      case Prio =>
        var n := FindSpot(waiters, prio, t);
        r := waiters[..n] + [t] + waiters[n..];
    }

    /** The end of rt_event_recv in a thread that was resumed. */
    method FinishRecv(t: Tid) returns (o: Outcome)
      requires Valid() && PcOf(Abs(), t).Woken?
      modifies this`pc
      ensures Valid()
      ensures (Abs(), o) == Do(old(Abs()), Finish(t))
    {
      OthersKeep(Abs(), Finish(t));
      o := Got(WantOf(want, t).set_);
      pc := pc[t := Idle];
    }

    /** rt_event_control(RT_IPC_CMD_RESET). */
    method ResetEvent()
      requires Valid()
      modifies this`set_, this`waiters, this`pc
      ensures Valid()
      ensures Abs() == Do(old(Abs()), Reset).0
    {
      OthersKeep(Abs(), Reset);
      pc := map t | t in pc :: if t in waiters then Idle else pc[t];
      waiters := [];
      set_ := {};
    }

    /** rt_thread_timeout of a suspended receiver. */
    method ThreadTimeout(t: Tid)
      requires Valid() && t in waiters
      modifies this`waiters, this`pc
      ensures Valid()
      ensures Abs() == Do(old(Abs()), Timeout(t)).0
    {
      OthersKeep(Abs(), Timeout(t));
      waiters := Unlink(waiters, t);
      pc := pc[t := Idle];
    }
  }
}

/**
  The scheduler's own data (scheduler.c, thread.c): the 32-bit ready group, and the thread nodes and
  list heads linked through one link memory.  Every method does what the step of module Scheduler says.
*/
module Dispatcher {
  import opened Bits
  import opened Hiding
  import opened IpcList
  import opened Lists
  import opened Rings
  import opened Scheduler

  /** A list head, or the tlist node inside a thread. */
  datatype Node = Head(r: RingId) | Of(t: Tid)

  /** The rings of the link memory: the lists, and the nodes of threads that are in no list. */
  datatype Key = Listed(r: RingId) | Alone(t: Tid)

  function Nodes(list: seq<Tid>): (r: seq<Node>)
    ensures |r| == |list| && forall i :: 0 <= i < |r| ==> r[i] == Of(list[i])
  {
    if list == [] then [] else [Of(list[0])] + Nodes(list[1..])
  }

  function RingOf(r: RingId, list: seq<Tid>): (c: seq<Node>)
    ensures |c| == |list| + 1 && c[0] == Head(r) && forall i :: 0 <= i < |list| ==> c[i + 1] == Of(list[i])
  {
    [Head(r)] + Nodes(list)
  }

  predicate InRing(rings: map<RingId, seq<Tid>>, r: RingId, t: Tid) { r in rings && t in rings[r] }

  ghost predicate Loose(rings: map<RingId, seq<Tid>>, t: Tid) { forall r :: !InRing(rings, r, t) }

  type Fam = map<Key, seq<Node>>

  /** The family is exactly the lists, and the loose threads one by one. */
  ghost predicate Covers(fam: Fam, rings: map<RingId, seq<Tid>>, tids: set<Tid>) {
    CoversLists(fam, rings) && CoversLoose(fam, rings, tids)
  }

  ghost predicate CoversLists(fam: Fam, rings: map<RingId, seq<Tid>>) {
    && (forall r :: r in rings ==> Listed(r) in fam && fam[Listed(r)] == RingOf(r, rings[r]))
    && (forall r :: Listed(r) in fam ==> r in rings)
  }

  ghost predicate CoversLoose(fam: Fam, rings: map<RingId, seq<Tid>>, tids: set<Tid>) {
    && (forall t :: Alone(t) in fam <==> t in tids && Loose(rings, t))
    && (forall t :: Alone(t) in fam ==> fam[Alone(t)] == [Of(t)])
  }

  /** The links thread every list and every loose node.  Proofs look inside only through LookIn. */
  ghost predicate Threaded(next: map<Node, Node>, prev: map<Node, Node>, fam: Fam, rings: map<RingId, seq<Tid>>, tids: set<Tid>) {
    forall f: Fam {:trigger Seen(f)} :: f == fam && Seen(f) ==> Family(next, prev, f) && Covers(f, rings, tids)
  }

  lemma LookIn(next: map<Node, Node>, prev: map<Node, Node>, fam: Fam, rings: map<RingId, seq<Tid>>, tids: set<Tid>)
    requires Threaded(next, prev, fam, rings, tids)
    ensures Family(next, prev, fam) && Covers(fam, rings, tids)
  {
    assert Seen(fam);
  }

  // ---------------------------------------------------------------- linking a thread in

  /** The node behind which a thread is linked in. */
  function Behind(r: RingId, a: seq<Tid>): Node { if a == [] then Head(r) else Of(a[|a| - 1]) }

  lemma InsertedRing(r: RingId, a: seq<Tid>, b: seq<Tid>, t: Tid)
    ensures RingOf(r, a + b)[|a|] == Behind(r, a)
    ensures Inserted(RingOf(r, a + b), |a|, Of(t)) == RingOf(r, a + [t] + b)
  {
    NodesConcat(a, b);
    NodesConcat(a, [t]);
    NodesConcat(a + [t], b);
    assert Nodes([t]) == [Of(t)];
    InsertedBetween(Head(r), Nodes(a), Nodes(b), Of(t));
  }

  lemma InsertedBetween(h: Node, a: seq<Node>, b: seq<Node>, n: Node)
    ensures Inserted([h] + (a + b), |a|, n) == [h] + (a + [n] + b)
    ensures ([h] + (a + b))[|a|] == if a == [] then h else a[|a| - 1]
  {
    var c := [h] + (a + b);
    assert c[..|a| + 1] == [h] + a && c[|a| + 1..] == b;
  }

  lemma NodesConcat(a: seq<Tid>, b: seq<Tid>)
    ensures Nodes(a + b) == Nodes(a) + Nodes(b)
  {
  }

  /** A family without one of its rings. */
  lemma SubFamily(next: map<Node, Node>, prev: map<Node, Node>, fam: Fam, k: Key)
    requires Family(next, prev, fam)
    ensures Family(next, prev, fam - {k})
  {
  }

  lemma LooseLinked(rings: map<RingId, seq<Tid>>, r: RingId, list: seq<Tid>, t: Tid, u: Tid)
    requires r in rings && forall x :: x in list <==> x in rings[r] || x == t
    ensures Loose(rings[r := list], u) <==> Loose(rings, u) && u != t
  {
    var rings' := rings[r := list];
    if Loose(rings', u) {
      forall q ensures !InRing(rings, q, u) { assert !InRing(rings', q, u); }
      assert !InRing(rings', r, u);
    }
    if Loose(rings, u) && u != t {
      forall q ensures !InRing(rings', q, u) { assert !InRing(rings, q, u); }
    }
  }

  lemma CoversLinked(fam: Fam, rings: map<RingId, seq<Tid>>, tids: set<Tid>, r: RingId, list: seq<Tid>, t: Tid)
    requires Covers(fam, rings, tids) && r in rings && Loose(rings, t) && t in tids
    requires forall x :: x in list <==> x in rings[r] || x == t
    ensures Covers((fam - {Alone(t)})[Listed(r) := RingOf(r, list)], rings[r := list], tids)
  {
    CoversLooseLinked(fam, rings, tids, r, list, t);
  }

  lemma CoversLooseLinked(fam: Fam, rings: map<RingId, seq<Tid>>, tids: set<Tid>, r: RingId, list: seq<Tid>, t: Tid)
    requires CoversLoose(fam, rings, tids) && r in rings
    requires forall x :: x in list <==> x in rings[r] || x == t
    ensures CoversLoose((fam - {Alone(t)})[Listed(r) := RingOf(r, list)], rings[r := list], tids)
  {
    forall u: Tid
      ensures Loose(rings[r := list], u) <==> Loose(rings, u) && u != t
    {
      LooseLinked(rings, r, list, t, u);
    }
  }

  lemma LinkIn(next: map<Node, Node>, prev: map<Node, Node>, fam: Fam, rings: map<RingId, seq<Tid>>, tids: set<Tid>,
               r: RingId, a: seq<Tid>, b: seq<Tid>, t: Tid)
    requires Threaded(next, prev, fam, rings, tids) && r in rings && rings[r] == a + b && t in tids && Loose(rings, t)
    ensures var l := Behind(r, a);
      && l in next
      && Threaded(LinkNext(next, l, Of(t)), LinkPrev(next, prev, l, Of(t)),
                  (fam - {Alone(t)})[Listed(r) := RingOf(r, a + [t] + b)], rings[r := a + [t] + b], tids)
  {
    LookIn(next, prev, fam, rings, tids);
    var fam1 := fam - {Alone(t)};
    SubFamily(next, prev, fam, Alone(t));
    assert Alone(t) in fam && Of(t) in fam[Alone(t)];
    assert Rings.Fresh(fam1, Of(t));
    InsertedRing(r, a, b, t);
    LinkFamily(next, prev, fam1, Listed(r), |a|, Of(t));
    assert forall x :: x in a + [t] + b <==> x in rings[r] || x == t;
    CoversLinked(fam, rings, tids, r, a + [t] + b, t);
  }

  // ---------------------------------------------------------------- taking a thread out

  lemma DroppedFrom(r: RingId, a: seq<Tid>, t: Tid, b: seq<Tid>)
    ensures Dropped(RingOf(r, a + [t] + b), |a| + 1) == RingOf(r, a + b)
  {
    NodesConcat(a, b);
    NodesConcat(a, [t]);
    NodesConcat(a + [t], b);
    assert Nodes([t]) == [Of(t)];
    DroppedBetween(Head(r), Nodes(a), Of(t), Nodes(b));
  }

  lemma DroppedBetween(h: Node, a: seq<Node>, n: Node, b: seq<Node>)
    ensures Dropped([h] + (a + [n] + b), |a| + 1) == [h] + (a + b)
  {
    var c := [h] + (a + [n] + b);
    assert c[..|a| + 1] == [h] + a && c[|a| + 2..] == b;
  }

  /** A duplicate-free list around one of its elements. */
  lemma Around(list: seq<Tid>, t: Tid) returns (a: seq<Tid>, b: seq<Tid>)
    requires NoDup(list) && t in list
    ensures list == a + [t] + b && t !in a && t !in b
  {
    var i :| 0 <= i < |list| && list[i] == t;
    a, b := list[..i], list[i + 1..];
  }

  lemma LooseUnlinked(rings: map<RingId, seq<Tid>>, t: Tid, u: Tid)
    ensures Loose(Without(rings, t), u) <==> Loose(rings, u) || u == t
  {
    var rings' := Without(rings, t);
    if Loose(rings', u) && u != t {
      forall q ensures !InRing(rings, q, u) { assert !InRing(rings', q, u); }
    }
    if Loose(rings, u) || u == t {
      forall q ensures !InRing(rings', q, u) { assert u != t ==> !InRing(rings, q, u); }
    }
  }

  lemma CoversUnlinked(fam: Fam, rings: map<RingId, seq<Tid>>, tids: set<Tid>, r: RingId, t: Tid)
    requires Covers(fam, rings, tids) && Shape(rings) && InRing(rings, r, t) && t in tids
    ensures Covers(fam[Listed(r) := RingOf(r, Unlink(rings[r], t))][Alone(t) := [Of(t)]], Without(rings, t), tids)
  {
    var fam' := fam[Listed(r) := RingOf(r, Unlink(rings[r], t))][Alone(t) := [Of(t)]];
    ListsUnlinked(fam, rings, r, t, fam');
    LooseCovered(fam, rings, tids, r, t, fam');
  }

  lemma LooseCovered(fam: Fam, rings: map<RingId, seq<Tid>>, tids: set<Tid>, r: RingId, t: Tid, fam': Fam)
    requires CoversLoose(fam, rings, tids) && t in tids
    requires fam' == fam[Listed(r) := RingOf(r, if r in rings then Unlink(rings[r], t) else [])][Alone(t) := [Of(t)]]
    ensures CoversLoose(fam', Without(rings, t), tids)
  {
    forall u: Tid
      ensures Loose(Without(rings, t), u) <==> Loose(rings, u) || u == t
    {
      LooseUnlinked(rings, t, u);
    }
  }

  lemma ListsUnlinked(fam: Fam, rings: map<RingId, seq<Tid>>, r: RingId, t: Tid, fam': Fam)
    requires CoversLists(fam, rings) && Shape(rings) && InRing(rings, r, t)
    requires fam' == fam[Listed(r) := RingOf(r, Unlink(rings[r], t))][Alone(t) := [Of(t)]]
    ensures CoversLists(fam', Without(rings, t))
  {
    forall q | q in rings
      ensures Listed(q) in fam' && fam'[Listed(q)] == RingOf(q, Without(rings, t)[q])
    {
      ListUnlinked(fam, rings, r, t, fam', q);
    }
  }

  lemma ListUnlinked(fam: Fam, rings: map<RingId, seq<Tid>>, r: RingId, t: Tid, fam': Fam, q: RingId)
    requires Shape(rings) && InRing(rings, r, t) && q in rings && Listed(q) in fam && fam[Listed(q)] == RingOf(q, rings[q])
    requires fam' == fam[Listed(r) := RingOf(r, Unlink(rings[r], t))][Alone(t) := [Of(t)]]
    ensures Listed(q) in fam' && fam'[Listed(q)] == RingOf(q, Without(rings, t)[q])
  {
    if q != r { OtherUnchanged(rings, r, q, t); }
  }

  lemma OtherUnchanged(rings: map<RingId, seq<Tid>>, r: RingId, q: RingId, t: Tid)
    requires Shape(rings) && InRing(rings, r, t) && q in rings && q != r
    ensures Without(rings, t)[q] == rings[q]
  {
    assert t !in rings[q];
    UnlinkAbsent(rings[q], t);
  }

  /** A node linked to itself may join the family. */
  lemma AddAlone(next: map<Node, Node>, prev: map<Node, Node>, fam: Fam, t: Tid)
    requires Family(next, prev, fam) && Rings.Fresh(fam, Of(t)) && Of(t) in next && Of(t) in prev
    requires next[Of(t)] == Of(t) && prev[Of(t)] == Of(t)
    ensures Family(next, prev, fam[Alone(t) := [Of(t)]])
  {
    assert RingAt(next, prev, [Of(t)], 0);
    assert IsRing(next, prev, [Of(t)]);
  }

  lemma FamilyTakeOut(next: map<Node, Node>, prev: map<Node, Node>, fam: Fam, r: RingId, list: seq<Tid>, t: Tid)
    requires Family(next, prev, fam) && Listed(r) in fam && fam[Listed(r)] == RingOf(r, list) && NoDup(list) && t in list
    ensures Of(t) in next && Of(t) in prev
    ensures Family(UnlinkNext(next, prev, Of(t))[Of(t) := Of(t)], UnlinkPrev(next, prev, Of(t))[Of(t) := Of(t)],
                   fam[Listed(r) := RingOf(r, Unlink(list, t))][Alone(t) := [Of(t)]])
  {
    var a, b := Around(list, t);
    UnlinkMid(a, t, b);
    DroppedFrom(r, a, t, b);
    assert RingOf(r, list)[|a| + 1] == Of(list[|a|]);
    UnlinkFamily(next, prev, fam, Listed(r), |a| + 1, Of(t), Of(t));
    var next', prev' := UnlinkNext(next, prev, Of(t))[Of(t) := Of(t)], UnlinkPrev(next, prev, Of(t))[Of(t) := Of(t)];
    AddAlone(next', prev', fam[Listed(r) := RingOf(r, Unlink(list, t))], t);
  }

  lemma TakeOut(next: map<Node, Node>, prev: map<Node, Node>, fam: Fam, rings: map<RingId, seq<Tid>>, tids: set<Tid>,
                r: RingId, t: Tid)
    requires Threaded(next, prev, fam, rings, tids) && Shape(rings) && InRing(rings, r, t) && t in tids
    ensures Of(t) in next && Of(t) in prev
    ensures Threaded(UnlinkNext(next, prev, Of(t))[Of(t) := Of(t)], UnlinkPrev(next, prev, Of(t))[Of(t) := Of(t)],
                     fam[Listed(r) := RingOf(r, Unlink(rings[r], t))][Alone(t) := [Of(t)]], Without(rings, t), tids)
  {
    LookIn(next, prev, fam, rings, tids);
    FamilyTakeOut(next, prev, fam, r, rings[r], t);
    CoversUnlinked(fam, rings, tids, r, t);
  }

  /** Taking a loose thread out of its list of one changes nothing. */
  lemma TakeOutLoose(next: map<Node, Node>, prev: map<Node, Node>, fam: Fam, rings: map<RingId, seq<Tid>>, tids: set<Tid>, t: Tid)
    requires Threaded(next, prev, fam, rings, tids) && Loose(rings, t) && t in tids
    ensures Of(t) in next && Of(t) in prev && Without(rings, t) == rings
    ensures UnlinkNext(next, prev, Of(t))[Of(t) := Of(t)] == next && UnlinkPrev(next, prev, Of(t))[Of(t) := Of(t)] == prev
  {
    LookIn(next, prev, fam, rings, tids);
    assert Alone(t) in fam && fam[Alone(t)] == [Of(t)];
    RemoveAloneIsNoop(next, prev, Of(t));
    forall r | r in rings
      ensures Unlink(rings[r], t) == rings[r]
    {
      assert !InRing(rings, r, t);
      UnlinkAbsent(rings[r], t);
    }
  }

  /** rt_list_init of a node that is in no ring. */
  lemma InitRing(next: map<Node, Node>, prev: map<Node, Node>, fam: Fam, k: Key, n: Node)
    requires Family(next, prev, fam) && Rings.Fresh(fam, n)
    ensures Family(next[n := n], prev[n := n], fam[k := [n]])
  {
    var next', prev', fam' := next[n := n], prev[n := n], fam[k := [n]];
    assert RingAt(next', prev', [n], 0);
    forall o | o in fam' && o != k
      ensures IsRing(next', prev', fam'[o])
    {
      RingFrame(next, prev, next', prev', fam[o]);
    }
  }

  lemma NewList(next: map<Node, Node>, prev: map<Node, Node>, fam: Fam, rings: map<RingId, seq<Tid>>, tids: set<Tid>, r: RingId)
    requires Threaded(next, prev, fam, rings, tids) && r !in rings
    ensures Threaded(next[Head(r) := Head(r)], prev[Head(r) := Head(r)], fam[Listed(r) := [Head(r)]], rings[r := []], tids)
  {
    LookIn(next, prev, fam, rings, tids);
    HeadsApart(fam, rings, tids, r);
    InitRing(next, prev, fam, Listed(r), Head(r));
    assert RingOf(r, []) == [Head(r)];
    var rings' := rings[r := []];
    forall u: Tid
      ensures Loose(rings', u) <==> Loose(rings, u)
    {
      forall q ensures InRing(rings', q, u) <==> InRing(rings, q, u) { }
      if Loose(rings', u) { forall q ensures !InRing(rings, q, u) { assert !InRing(rings', q, u); } }
    }
  }

  /** A list that does not exist yet has a head that is in no ring. */
  lemma HeadsApart(fam: Fam, rings: map<RingId, seq<Tid>>, tids: set<Tid>, r: RingId)
    requires Covers(fam, rings, tids) && r !in rings
    ensures Rings.Fresh(fam, Head(r))
  {
    forall k | k in fam
      ensures Head(r) !in fam[k]
    {
      match k
      case Listed(q) => assert fam[k] == RingOf(q, rings[q]);
      case Alone(_) =>
    }
  }

  lemma CreateNode(next: map<Node, Node>, prev: map<Node, Node>, fam: Fam, rings: map<RingId, seq<Tid>>, tids: set<Tid>, t: Tid)
    requires Threaded(next, prev, fam, rings, tids) && t !in tids && forall r, u :: InRing(rings, r, u) ==> u in tids
    ensures Threaded(next[Of(t) := Of(t)], prev[Of(t) := Of(t)], fam[Alone(t) := [Of(t)]], rings, tids + {t})
  {
    LookIn(next, prev, fam, rings, tids);
    forall k | k in fam
      ensures Of(t) !in fam[k]
    {
      match k
      case Listed(q) => assert fam[k] == RingOf(q, rings[q]); assert !InRing(rings, q, t);
      case Alone(_) =>
    }
    InitRing(next, prev, fam, Alone(t), Of(t));
    assert Loose(rings, t) by { forall r ensures !InRing(rings, r, t) { } }
  }

  /** The node in front of which a thread is linked in, and its predecessor. */
  function InFrontOf(r: RingId, b: seq<Tid>): Node { if b == [] then Head(r) else Of(b[0]) }

  lemma BeforeAt(next: map<Node, Node>, prev: map<Node, Node>, r: RingId, a: seq<Tid>, b: seq<Tid>)
    requires IsRing(next, prev, RingOf(r, a + b))
    ensures var at, l := InFrontOf(r, b), Behind(r, a);
      at in prev && prev[at] == l && l in next && next[l] == at
  {
    var c := RingOf(r, a + b);
    assert RingAt(next, prev, c, |a|);
    assert RingAt(next, prev, c, if b == [] then 0 else |a| + 1);
    if a != [] { assert c[|a|] == Of((a + b)[|a| - 1]); }
    if b != [] { assert c[|a| + 1] == Of((a + b)[|a|]); }
  }

  /** A list and its length, as the list operations see them. */
  lemma ListRing(next: map<Node, Node>, prev: map<Node, Node>, fam: Fam, rings: map<RingId, seq<Tid>>, tids: set<Tid>, r: RingId)
    requires Threaded(next, prev, fam, rings, tids) && r in rings
    ensures IsRing(next, prev, RingOf(r, rings[r]))
    ensures Head(r) in next && next[Head(r)] == (if rings[r] == [] then Head(r) else Of(rings[r][0]))
  {
    LookIn(next, prev, fam, rings, tids);
    assert Listed(r) in fam;
    assert RingAt(next, prev, RingOf(r, rings[r]), 0);
  }

  /** A listed thread has the same node on both sides exactly when it is alone in its list. */
  lemma AloneInList(next: map<Node, Node>, prev: map<Node, Node>, fam: Fam, rings: map<RingId, seq<Tid>>, tids: set<Tid>,
                    r: RingId, t: Tid)
    requires Threaded(next, prev, fam, rings, tids) && InRing(rings, r, t)
    ensures Of(t) in next && Of(t) in prev && (next[Of(t)] != prev[Of(t)] <==> |rings[r]| >= 2)
  {
    LookIn(next, prev, fam, rings, tids);
    assert Listed(r) in fam;
    var c := RingOf(r, rings[r]);
    var i :| 0 <= i < |rings[r]| && rings[r][i] == t;
    assert RingAt(next, prev, c, i + 1);
    var x, y := Succ(i + 1, |c|), Pred(i + 1, |c|);
    assert x != y <==> |c| >= 3;
    assert x < y ==> c[x] != c[y];
    assert y < x ==> c[y] != c[x];
  }

  // ---------------------------------------------------------------- the invariant, as the methods use it

  /** The invariant of module Scheduler; the methods below look inside only through SoundIs. */
  ghost predicate Sound(s: Sched) { forall x: Sched {:trigger Seen(x)} :: x == s && Seen(x) ==> Inv(x) }

  lemma SoundIs(s: Sched)
    requires Sound(s)
    ensures Inv(s)
  {
    assert Seen(s);
  }

  lemma SoundShape(s: Sched, t: Tid)
    requires Sound(s) && t in s.thr
    ensures Shape(s.rings) && ReadyRing(s.thr[t].prio) in s.rings
    ensures Loose(Without(s.rings, t), t) && ReadyRing(s.thr[t].prio) in Without(s.rings, t)
  {
    SoundIs(s);
    LooseUnlinked(s.rings, t, t);
  }

  lemma StepSound(s: Sched, e: Event)
    requires Sound(s) && Enabled(s, e)
    ensures (SoundIs(s); Sound(Do(s, e)))
  {
    SoundIs(s);
    StepKeepsInv(s, e);
  }

  lemma ThenSound(s: Sched)
    requires Sound(s)
    ensures Sound(Then(s)) && (s.current.Runs? ==> CanSchedule(s) && Then(s) == Schedule(s))
  {
    SoundIs(s);
    ThenKeeps(s);
    if s.current.Runs? { ScheduleKeeps(s); }
  }

  lemma SuspendSound(s: Sched, t: Tid)
    requires Sound(s) && t in s.thr && !(s.current.Runs? && t == s.idle)
    ensures Sound(Scheduler.Suspend(s, t))
  {
    SoundIs(s);
    SuspendKeeps(s, t);
  }

  lemma WaitSound(s: Sched, t: Tid, id: nat, i: nat)
    requires Sound(s) && Enabled(s, Wait(t, id, i))
    ensures Sound(SuspendOn(s, t, id, i)) && WaitRing(id) in s.rings && i <= |s.rings[WaitRing(id)]|
    ensures WaitRing(id) in Scheduler.Suspend(s, t).rings && Scheduler.Suspend(s, t).rings[WaitRing(id)] == s.rings[WaitRing(id)]
    ensures Loose(Scheduler.Suspend(s, t).rings, t)
  {
    SoundIs(s);
    SuspendOnKeeps(s, t, id, i);
    assert Placed(s.thr[t], s.rings, t);
    UnlinkAbsent(s.rings[WaitRing(id)], t);
    LooseUnlinked(s.rings, t, t);
  }

  lemma ResumeSound(s: Sched, t: Tid)
    requires Sound(s) && t in s.thr
    ensures Sound(Resume(s, t))
  {
    SoundIs(s);
    ResumeKeeps(s, t);
  }

  lemma StartedSound(s: Sched, t: Tid)
    requires Sound(s) && t in s.thr && s.thr[t].stat == Initial
    ensures Sound(SetStat(SetPrio(s, t, s.thr[t].initPrio), t, Suspended)) && Sound(Started(s, t))
  {
    SoundIs(s);
    StartedKeeps(s, t);
    assert Sliced(s.thr[t]);
    LooseIsOut(s, t);
    var s1 := SetStat(SetPrio(s, t, s.thr[t].initPrio), t, Suspended);
    SettleKeeps(s, t, s1.thr[t]);
    assert s1 == s.(thr := s.thr[t := s1.thr[t]]);
  }

  lemma ChangePrioSound(s: Sched, t: Tid, p: Priority)
    requires Sound(s) && t in s.thr
    ensures Sound(ChangePrio(s, t, p))
    ensures ReadyRing(p) in s.rings && ReadyRing(p) in Without(s.rings, t)
  {
    SoundIs(s);
    ChangePrioKeeps(s, t, p);
  }

  lemma BootSound(idle: Tid)
    ensures Sound(Boot(idle))
  {
    BootInv(idle);
  }

  lemma YieldedSound(s: Sched)
    requires Sound(s) && s.current.Runs? && s.current.tid in s.thr
    ensures Sound(Yielded(s))
  {
    SoundIs(s);
    YieldedKeeps(s);
  }

  lemma LockSound(s: Sched)
    requires Sound(s)
    ensures forall n: int :: Sound(s.(lockNest := n))
  {
    SoundIs(s);
  }

  lemma ReadyListed(s: Sched, t: Tid)
    requires Sound(s) && t in s.thr && s.thr[t].stat == Ready
    ensures InRing(s.rings, ReadyRing(s.thr[t].prio), t)
  {
    SoundIs(s);
    assert Placed(s.thr[t], s.rings, t);
  }

  lemma ExitedSound(s: Sched, detach: bool)
    requires Sound(s) && Enabled(s, Exit(detach))
    ensures Sound(Exited(s, detach)) && DefunctRing in s.rings && DefunctRing in Without(s.rings, s.current.tid)
  {
    SoundIs(s);
    ExitedKeeps(s, detach);
  }

  lemma SliceTickSound(s: Sched)
    requires Sound(s) && s.current.Runs?
    ensures s.current.tid in s.thr && s.thr[s.current.tid].remaining > 0 && Sound(SliceTick(s))
  {
    SoundIs(s);
    SliceTickKeeps(s);
  }

  lemma CreateSound(s: Sched, t: Tid, p: Priority, slice: nat)
    requires Sound(s) && t !in s.thr && slice > 0
    ensures Sound(s.(thr := s.thr[t := Thread(Initial, p, p, slice, slice)]))
    ensures forall r, u :: InRing(s.rings, r, u) ==> u in s.thr
  {
    SoundIs(s);
    CreateKeeps(s, t, p, slice);
  }

  lemma NewListSound(s: Sched, id: nat)
    requires Sound(s) && WaitRing(id) !in s.rings
    ensures Sound(s.(rings := s.rings[WaitRing(id) := []]))
  {
    SoundIs(s);
    InitListKeeps(s, id);
  }

  /** Where __rt_ffs and the priority table lead. */
  lemma FindsFirst(s: Sched, group: bv32)
    requires Sound(s) && Shows(group, s.bits) && s.idle in s.thr && s.thr[s.idle].stat == Ready
    ensures group != 0 && 1 <= Ffs(group) <= 32 && Ffs(group) - 1 == Least(s.bits, 0)
    ensures ReadyRing(Least(s.bits, 0)) in s.rings && s.rings[ReadyRing(Least(s.bits, 0))] != []
    ensures s.rings[ReadyRing(Least(s.bits, 0))][0] == FirstOf(s)
  {
    SoundIs(s);
    FirstHeads(s);
    ShowsAre(group, s.bits);
    FfsIsLeast(group, Least(s.bits, 0));
  }

  lemma IdleReady(s: Sched)
    requires Sound(s) && s.current.Runs?
    ensures s.current.tid in s.thr && s.idle in s.thr && s.thr[s.idle].stat == Ready
  {
    SoundIs(s);
  }

  // ---------------------------------------------------------------- the scheduler object

  class SchedulerObject {
    const idle: Tid
    const links: Links<Node>
    var group: bv32                   // rt_thread_ready_priority_group
    var thr: map<Tid, Thread>
    var mask: map<Tid, bv32>          // number_mask of the threads
    var current: Current              // rt_current_thread
    var currentPrio: Priority         // rt_current_priority
    var lockNest: int                 // rt_scheduler_lock_nest
    ghost var rings: map<RingId, seq<Tid>>
    ghost var fam: Fam
    ghost var bits: iset<Priority>

    ghost predicate Linked()
      reads this`thr, this`rings, this`fam, links
    {
      Threaded(links.next, links.prev, fam, rings, thr.Keys)
    }

    ghost predicate GroupIs()
      reads this`group, this`bits
    {
      Shows(group, bits)
    }

    /** number_mask of every thread that was started stands for its current priority. */
    ghost predicate Masks()
      reads this`thr, this`mask
    {
      forall t :: t in thr ==> t in mask && (thr[t].stat != Initial ==> Stands(mask[t], thr[t].prio))
    }

    ghost predicate Valid()
      reads this, links
    {
      Sound(Abs()) && Linked() && GroupIs() && Masks()
    }

    /** The scheduler as module Scheduler sees it. */
    ghost function Abs(): Sched
      reads this
    {
      Sched(thr, rings, bits, current, currentPrio, lockNest, idle)
    }

    /** rt_system_scheduler_init. */
    constructor (idle: Tid)
      ensures Valid() && Abs() == Boot(idle)
    {
      this.idle := idle;
      links := new Links<Node>();
      lockNest, currentPrio, current, group := 0, 31, Nobody, 0;
      thr, mask, rings, fam, bits := map[], map[], map[], map[], iset{};
      new;
      AddLists();
      BootSound(idle);
      ZeroIsEmpty();
      assert Abs() == Boot(idle);
    }

    /** The loop of rt_system_scheduler_init. */
    method AddLists()
      requires Linked() && rings == map[]
      modifies this`rings, this`fam, links
      ensures Linked() && rings == EmptyRings(31)
    {
      AddList(DefunctRing);
      var offset: bv8 := 0;
      while offset < 32
        invariant offset <= 32 && Linked()
        invariant offset == 0 ==> rings == map[DefunctRing := []]
        invariant offset > 0 ==> rings == EmptyRings(offset - 1)
        decreases 32 - offset
      {
        if offset > 0 { EmptyRingsAre(offset - 1); }
        AddList(ReadyRing(offset));
        offset := offset + 1;
      }
    }

    /** rt_list_init of a list head. */
    method AddList(r: RingId)
      requires Linked() && r !in rings
      modifies this`rings, this`fam, links
      ensures Linked() && rings == old(rings)[r := []]
    {
      NewList(links.next, links.prev, fam, rings, thr.Keys, r);
      links.Init(Head(r));
      fam := fam[Listed(r) := [Head(r)]];
      rings := rings[r := []];
    }

    /** rt_list_remove of a thread's node, wherever it is. */
    method RemoveNode(t: Tid)
      requires Linked() && Shape(rings) && t in thr
      modifies this`rings, this`fam, links
      ensures Linked() && rings == Without(old(rings), t)
    {
      if r :| InRing(rings, r, t) {
        TakeOut(links.next, links.prev, fam, rings, thr.Keys, r, t);
        fam := fam[Listed(r) := RingOf(r, Unlink(rings[r], t))][Alone(t) := [Of(t)]];
      } else {
        TakeOutLoose(links.next, links.prev, fam, rings, thr.Keys, t);
      }
      links.Remove(Of(t));
      rings := Without(rings, t);
    }

    /** rt_list_insert_before. */
    method LinkBefore(ghost r: RingId, at: Node, t: Tid, ghost a: seq<Tid>, ghost b: seq<Tid>)
      requires Linked() && r in rings && rings[r] == a + b && at == InFrontOf(r, b)
      requires t in thr && Loose(rings, t)
      modifies this`rings, this`fam, links
      ensures Linked() && rings == old(rings)[r := a + [t] + b]
    {
      LinkIn(links.next, links.prev, fam, rings, thr.Keys, r, a, b, t);
      ListRing(links.next, links.prev, fam, rings, thr.Keys, r);
      BeforeAt(links.next, links.prev, r, a, b);
      LooseApart(t, r, a, b);
      links.InsertBefore(at, Of(t));
      fam := (fam - {Alone(t)})[Listed(r) := RingOf(r, a + [t] + b)];
      rings := rings[r := a + [t] + b];
    }

    lemma LooseApart(t: Tid, r: RingId, a: seq<Tid>, b: seq<Tid>)
      requires r in rings && rings[r] == a + b && Loose(rings, t)
      ensures InFrontOf(r, b) != Of(t) && Behind(r, a) != Of(t)
    {
      assert !InRing(rings, r, t);
    }

    /** Link a thread in at the end of the ring of its current priority. */
    method LinkReady(t: Tid)
      requires Linked() && t in thr && Loose(rings, t) && ReadyRing(thr[t].prio) in rings
      modifies this`rings, this`fam, links
      ensures Linked()
      ensures ReadyRing(thr[t].prio) in old(rings)
      ensures rings == old(rings)[ReadyRing(thr[t].prio) := old(rings)[ReadyRing(thr[t].prio)] + [t]]
    {
      ghost var list := rings[ReadyRing(thr[t].prio)];
      assert list == list + [] && list + [t] + [] == list + [t];
      LinkBefore(ReadyRing(thr[t].prio), Head(ReadyRing(thr[t].prio)), t, list, []);
    }

    /** rt_schedule_insert_thread. */
    method InsertThread(t: Tid)
      requires Linked() && GroupIs() && t in thr && Loose(rings, t) && ReadyRing(thr[t].prio) in rings
      requires t in mask && Stands(mask[t], thr[t].prio)
      modifies this`thr, this`rings, this`fam, this`group, this`bits, links
      ensures Linked() && GroupIs() && Abs() == Insert(old(Abs()), t)
    {
      ghost var keys := thr.Keys;
      thr := thr[t := thr[t].(stat := Ready)];
      assert thr.Keys == keys;
      LinkReady(t);
      SetGroupBit(t);
    }

    method SetGroupBit(t: Tid)
      requires GroupIs() && t in thr && t in mask && Stands(mask[t], thr[t].prio)
      modifies this`group, this`bits
      ensures GroupIs() && bits == old(bits) + iset{thr[t].prio}
    {
      GroupSet(group, bits, mask[t], thr[t].prio);
      group := group | mask[t];
      bits := bits + iset{thr[t].prio};
    }

    method ClearGroupBit(t: Tid)
      requires GroupIs() && t in thr && t in mask && Stands(mask[t], thr[t].prio)
      modifies this`group, this`bits
      ensures GroupIs() && bits == old(bits) - iset{thr[t].prio}
    {
      GroupCleared(group, bits, mask[t], thr[t].prio);
      group := group & !mask[t];
      bits := bits - iset{thr[t].prio};
    }

    /** rt_schedule_remove_thread. */
    method RemoveThread(t: Tid)
      requires Linked() && GroupIs() && Shape(rings) && t in thr && t in mask && Stands(mask[t], thr[t].prio)
      modifies this`rings, this`fam, this`group, this`bits, links
      ensures Linked() && GroupIs() && Abs() == Remove(old(Abs()), t)
    {
      RemoveNode(t);
      ghost var r := ReadyRing(thr[t].prio);
      ListRing(links.next, links.prev, fam, rings, thr.Keys, r);
      var empty := links.IsEmpty(Head(ReadyRing(thr[t].prio)), RingOf(r, rings[r]));
      if empty { ClearGroupBit(t); }
    }

    /** rt_thread_suspend. */
    method SuspendThread(t: Tid) returns (ok: bool)
      requires Valid() && t in thr && !(current.Runs? && t == idle)
      modifies this`thr, this`rings, this`fam, this`group, this`bits, links
      ensures Valid() && Abs() == Scheduler.Suspend(old(Abs()), t) && ok == (old(thr)[t].stat == Ready)
    {
      if thr[t].stat != Ready { return false; }
      SuspendSound(Abs(), t);
      SoundShape(Abs(), t);
      ghost var keys := thr.Keys;
      thr := thr[t := thr[t].(stat := Suspended)];
      assert thr.Keys == keys;
      RemoveThread(t);
      ok := true;
    }

    /** rt_ipc_list_suspend: suspend, then link in before `at`, the node the search stopped at. */
    method SuspendBefore(t: Tid, at: Node, ghost id: nat, ghost i: nat)
      requires Valid() && Enabled(Abs(), Wait(t, id, i)) && at == InFrontOf(WaitRing(id), rings[WaitRing(id)][i..])
      modifies this`thr, this`rings, this`fam, this`group, this`bits, links
      ensures Valid() && Abs() == SuspendOn(old(Abs()), t, id, i)
    {
      WaitSound(Abs(), t, id, i);
      ghost var list := rings[WaitRing(id)];
      var _ := SuspendThread(t);
      assert list == list[..i] + list[i..];
      LinkBefore(WaitRing(id), at, t, list[..i], list[i..]);
    }

    /** rt_thread_resume. */
    method ResumeThread(t: Tid) returns (ok: bool)
      requires Valid() && t in thr
      modifies this`thr, this`rings, this`fam, this`group, this`bits, links
      ensures Valid() && Abs() == Resume(old(Abs()), t) && ok == (old(thr)[t].stat == Suspended)
    {
      if thr[t].stat != Suspended { return false; }
      ResumeSound(Abs(), t);
      SoundShape(Abs(), t);
      RemoveNode(t);
      InsertThread(t);
      ok := true;
    }

    /** rt_thread_control(RT_THREAD_CTRL_CHANGE_PRIORITY). */
    method ChangePriority(t: Tid, p: Priority)
      requires Valid() && t in thr
      modifies this`thr, this`mask, this`rings, this`fam, this`group, this`bits, links
      ensures Valid() && Abs() == ChangePrio(old(Abs()), t, p)
    {
      ChangePrioSound(Abs(), t, p);
      if thr[t].stat == Ready {
        SoundShape(Abs(), t);
        RemoveThread(t);
        AssignPriority(t, p);
        InsertThread(t);
      } else {
        AssignPriority(t, p);
      }
    }

    /** current_priority and number_mask. */
    method AssignPriority(t: Tid, p: Priority)
      requires Linked() && Masks() && t in thr
      modifies this`thr, this`mask
      ensures Linked() && Masks() && Abs() == SetPrio(old(Abs()), t, p)
      ensures Stands(mask[t], p)
    {
      ghost var keys := thr.Keys;
      thr := thr[t := thr[t].(prio := p)];
      mask := mask[t := Mask(p)];
      StandsFor(Mask(p), p);
      assert thr.Keys == keys;
    }

    /** The thread that rt_schedule and rt_system_scheduler_start switch to. */
    method FindFirst() returns (p: Priority, to: Tid)
      requires Valid() && idle in thr && thr[idle].stat == Ready
      ensures p == Least(bits, 0) && to == FirstOf(Abs())
    {
      FindsFirst(Abs(), group);
      p := Ffs(group) - 1;
      ListRing(links.next, links.prev, fam, rings, thr.Keys, ReadyRing(p));
      to := links.next[Head(ReadyRing(p))].t;
    }

    /** rt_schedule. */
    method Reschedule()
      requires Valid() && current.Runs?
      modifies this`current, this`currentPrio
      ensures Valid() && Abs() == Then(old(Abs()))
    {
      ThenSound(Abs());
      IdleReady(Abs());
      if lockNest == 0 {
        var p, to := FindFirst();
        if current != Runs(to) {
          currentPrio := p;
          current := Runs(to);
        }
      }
    }

    /** rt_system_scheduler_start. */
    method StartScheduler()
      requires Valid() && Enabled(Abs(), Start)
      modifies this`current
      ensures Valid() && Abs() == old(Abs()).(current := Runs(FirstOf(old(Abs()))))
    {
      StepSound(Abs(), Start);
      var _, to := FindFirst();
      current := Runs(to);
    }

    /** rt_thread_startup. */
    method StartThread(t: Tid)
      requires Valid() && t in thr && thr[t].stat == Initial
      modifies this`thr, this`mask, this`rings, this`fam, this`group, this`bits, this`current, this`currentPrio, links
      ensures Valid() && Abs() == Then(Started(old(Abs()), t))
    {
      StartedSound(Abs(), t);
      AssignPriority(t, thr[t].initPrio);
      ghost var keys := thr.Keys;
      thr := thr[t := thr[t].(stat := Suspended)];
      assert thr.Keys == keys;
      var _ := ResumeThread(t);
      if current.Runs? { Reschedule(); }
    }

    /** rt_thread_timeout. */
    method ThreadTimeout(t: Tid)
      requires Valid() && Enabled(Abs(), Timeout(t))
      modifies this`thr, this`rings, this`fam, this`group, this`bits, this`current, this`currentPrio, links
      ensures Valid() && Abs() == Then(Resume(old(Abs()), t))
    {
      ResumeSound(Abs(), t);
      SoundShape(Abs(), t);
      RemoveNode(t);
      InsertThread(t);
      Reschedule();
    }

    /** rt_thread_yield. */
    method YieldThread()
      requires Valid() && current.Runs?
      modifies this`rings, this`fam, this`current, this`currentPrio, links
      ensures current.Runs? && Valid()
      ensures old(current).tid in old(thr) && Abs() == DoYield(old(Abs()))
    {
      IdleReady(Abs());
      var t := current.tid;
      ghost var r := ReadyRing(thr[t].prio);
      if thr[t].stat == Ready {
        ReadyListed(Abs(), t);
        AloneInList(links.next, links.prev, fam, rings, thr.Keys, r, t);
        if links.next[Of(t)] != links.prev[Of(t)] {
          SoundShape(Abs(), t);
          YieldedSound(Abs());
          RemoveNode(t);
          LinkReady(t);
          Reschedule();
        }
      }
    }

    /** rt_list_insert_after the head of the defunct list. */
    method LinkDefunct(t: Tid)
      requires Linked() && DefunctRing in rings && t in thr && Loose(rings, t)
      modifies this`rings, this`fam, links
      ensures Linked() && DefunctRing in old(rings) && rings == old(rings)[DefunctRing := [t] + old(rings)[DefunctRing]]
    {
      ghost var list := rings[DefunctRing];
      assert [] + list == list && [] + [t] + list == [t] + list;
      LinkIn(links.next, links.prev, fam, rings, thr.Keys, DefunctRing, [], list, t);
      ListRing(links.next, links.prev, fam, rings, thr.Keys, DefunctRing);
      LooseApart(t, DefunctRing, [], list);
      links.InsertAfter(Head(DefunctRing), Of(t));
      fam := (fam - {Alone(t)})[Listed(DefunctRing) := RingOf(DefunctRing, [t] + list)];
      rings := rings[DefunctRing := [t] + list];
    }

    /** rt_thread_exit; `detach` is a static thread without cleanup. */
    method ExitThread(detach: bool)
      requires Valid() && Enabled(Abs(), Exit(detach))
      modifies this`thr, this`rings, this`fam, this`group, this`bits, this`current, this`currentPrio, links
      ensures Valid() && Abs() == Then(Exited(old(Abs()), detach))
    {
      CloseThread(detach);
      Reschedule();
    }

    /** The region of rt_thread_exit. */
    method CloseThread(detach: bool)
      requires Valid() && Enabled(Abs(), Exit(detach))
      modifies this`thr, this`rings, this`fam, this`group, this`bits, links
      ensures Valid() && Abs() == Exited(old(Abs()), detach)
    {
      ExitedSound(Abs(), detach);
      var t := current.tid;
      SoundShape(Abs(), t);
      RemoveForGood(t);
      if !detach { LinkDefunct(t); }
    }

    method RemoveForGood(t: Tid)
      requires Linked() && GroupIs() && Masks() && Shape(rings) && t in thr && thr[t].stat == Ready
      modifies this`thr, this`rings, this`fam, this`group, this`bits, links
      ensures Linked() && GroupIs() && Masks() && Abs() == SetStat(Remove(old(Abs()), t), t, Closed)
    {
      RemoveThread(t);
      ghost var keys := thr.Keys;
      thr := thr[t := thr[t].(stat := Closed)];
      assert thr.Keys == keys;
    }

    /** rt_enter_critical. */
    method EnterCriticalSection()
      requires Valid()
      modifies this`lockNest
      ensures Valid() && Abs() == old(Abs()).(lockNest := Wrap16(old(lockNest) + 1))
    {
      LockSound(Abs());
      lockNest := Wrap16(lockNest + 1);
    }

    /** rt_exit_critical. */
    method ExitCriticalSection()
      requires Valid() && current.Runs?
      modifies this`lockNest, this`current, this`currentPrio
      ensures Valid()
      ensures Abs() == DoUnlock(old(Abs()))
    {
      LockSound(Abs());
      lockNest := Wrap16(lockNest - 1);
      if lockNest <= 0 {
        lockNest := 0;
        Reschedule();
      }
    }

    /** The time slice part of rt_tick_increase. */
    method TimeSlice()
      requires Valid() && current.Runs?
      modifies this`thr, this`rings, this`fam, this`current, this`currentPrio, links
      ensures Valid() && current.Runs?
      ensures old(current).tid in old(thr) && old(thr)[old(current).tid].remaining > 0 && Abs() == DoTick(old(Abs()))
    {
      SliceTickSound(Abs());
      var t := current.tid;
      ghost var keys := thr.Keys;
      var left := thr[t].remaining - 1;
      thr := thr[t := thr[t].(remaining := if left == 0 then thr[t].slice else left)];
      assert thr.Keys == keys;
      if left == 0 { YieldThread(); }
    }

    /** _rt_thread_init, as far as the scheduler is concerned. */
    method CreateThread(t: Tid, p: Priority, slice: nat)
      requires Valid() && t !in thr && slice > 0
      modifies this`thr, this`mask, this`fam, links
      ensures Valid() && Abs() == old(Abs()).(thr := old(thr)[t := Thread(Initial, p, p, slice, slice)])
    {
      CreateSound(Abs(), t, p, slice);
      CreateNode(links.next, links.prev, fam, rings, thr.Keys, t);
      links.Init(Of(t));
      fam := fam[Alone(t) := [Of(t)]];
      ghost var keys := thr.Keys;
      thr := thr[t := Thread(Initial, p, p, slice, slice)];
      assert thr.Keys == keys + {t};
      mask := mask[t := 0];
    }

    /** rt_ipc_object_init. */
    method NewWaitList(id: nat)
      requires Valid() && WaitRing(id) !in rings
      modifies this`rings, this`fam, links
      ensures Valid() && Abs() == old(Abs()).(rings := old(rings)[WaitRing(id) := []])
    {
      NewListSound(Abs(), id);
      AddList(WaitRing(id));
    }
  }
}

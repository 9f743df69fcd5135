/** Lists without duplicates, as the intrusive lists of the kernel keep them. */
module Lists {
  ghost predicate NoDup(list: seq<nat>) { forall i, j :: 0 <= i < j < |list| ==> list[i] != list[j] }

  /** The list without `t`: what unlinking its node does, wherever it stands. */
  function Unlink(list: seq<nat>, t: nat): (r: seq<nat>)
    ensures forall x :: x in r <==> x in list && x != t
  {
    if list == [] then [] else if list[0] == t then Unlink(list[1..], t) else [list[0]] + Unlink(list[1..], t)
  }

  lemma {:induction false} UnlinkNoDup(list: seq<nat>, t: nat)
    requires NoDup(list)
    ensures NoDup(Unlink(list, t))
  {
    if list != [] {
      UnlinkNoDup(list[1..], t);
      var r := Unlink(list[1..], t);
      assert forall i :: 0 <= i < |r| ==> r[i] in r && r[i] in list[1..];
    }
  }

  /** Resuming the first thread unlinks exactly the head of a duplicate-free list. */
  lemma UnlinkHead(list: seq<nat>)
    requires NoDup(list) && list != []
    ensures Unlink(list, list[0]) == list[1..]
    ensures list[0] !in list[1..] && NoDup(list[1..])
  {
    UnlinkAbsent(list[1..], list[0]);
  }

  lemma {:induction false} UnlinkAbsent(list: seq<nat>, t: nat)
    requires t !in list
    ensures Unlink(list, t) == list
  {
    if list != [] {
      assert list[0] in list;
      UnlinkAbsent(list[1..], t);
    }
  }

  /** The others keep their order. */
  lemma {:induction false} UnlinkMid(a: seq<nat>, t: nat, b: seq<nat>)
    requires t !in a && t !in b
    ensures Unlink(a + [t] + b, t) == a + b
  {
    var list := a + [t] + b;
    if a == [] {
      assert list[1..] == b && a + b == b;
      UnlinkAbsent(b, t);
    } else {
      UnlinkMid(a[1..], t, b);
      assert list[1..] == a[1..] + [t] + b && a + b == [a[0]] + (a[1..] + b);
    }
  }
}

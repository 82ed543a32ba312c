/**
  * The array SCHEDULES of rtlora_mac.c: one schedule list per channel group, and the functions that
  * go over all of them.
  */
module Schedules {

  import opened SlotSpec
  import opened SlotList
  import opened ServerSpec

  class ScheduleArray {
    const lists: seq<SchList>

    /** All list nodes that the groups ever owned. */
    ghost var Repr: set<SchNode>

    ghost predicate Valid()
      reads this, lists, Repr
    {
      && lists != []
      && (forall i | 0 <= i < |lists| :: lists[i].Repr <= Repr && lists[i].Valid())
      && Apart(lists)
    }

    lemma {:induction false} At(k: nat)
      requires Valid() && k < |lists|
      ensures lists[k].Valid() && lists[k].AsGroup() == Groups()[k] && lists[k].Repr <= Repr
    {
    }

    /** No two groups share a list or a node. */
    static ghost predicate Apart(ls: seq<SchList>)
      reads ls
    {
      forall i, j | 0 <= i < j < |ls| :: ls[i] != ls[j] && ls[i].Repr !! ls[j].Repr
    }

    ghost function Groups(): (gs: seq<Group>)
      reads lists
      ensures |gs| == |lists|
      ensures forall i | 0 <= i < |lists| :: gs[i] == lists[i].AsGroup()
    {
      seq(|lists|, i requires 0 <= i < |lists| reads lists => lists[i].AsGroup())
    }

    /** The n lists as smInitSchedule leaves them. */
    constructor (n: nat, tot: nat)
      requires n > 0
      ensures Valid() && fresh(lists) && fresh(Repr)
      ensures Groups() == seq(n, i => Init(tot))
    {
      var ls: seq<SchList> := [];
      while |ls| < n
        invariant |ls| <= n && fresh(ls)
        invariant forall i | 0 <= i < |ls| :: ls[i].Valid() && ls[i].Repr == {} && ls[i].AsGroup() == Init(tot)
        invariant Apart(ls)
      {
        var l := new SchList(tot);
        ls := ls + [l];
      }
      lists, Repr := ls, {};
      new;
      assert Groups() == seq(n, i => Init(tot));
    }

    /** The groups after group k changed. */
    lemma {:induction false} GroupsAre(gs: seq<Group>)
      requires |gs| == |lists| && forall i | 0 <= i < |lists| :: lists[i].AsGroup() == gs[i]
      ensures Groups() == gs
    {
    }

    /** smRemoveOneNode on one of the groups. */
    method RemoveOneNode(k: nat, a: nat)
      requires Valid() && k < |lists|
      modifies lists[k], lists[k].Repr
      ensures Valid()
      ensures Groups() == old(Groups())[k := Remove(old(Groups())[k], a)]
    {
      ghost var was := Groups();
      lists[k].RemoveOneNode(a);
      GroupsAre(was[k := Remove(was[k], a)]);
    }

    /** removeNodeFromSchedule */
    method RemoveNode(a: nat)
      requires Valid()
      modifies lists, Repr
      ensures Valid()
      ensures Groups() == RemoveAll(old(Groups()), a)
    {
      ghost var was := Groups();
      var i := 0;
      while i < |lists|
        invariant i <= |lists| && Valid()
        invariant forall j | 0 <= j < |lists| :: Groups()[j] == if j < i then Remove(was[j], a) else was[j]
      {
        RemoveOneNode(i, a);
        i := i + 1;
      }
    }

    /** smClearSchedule on one of the groups. */
    method ClearOne(k: nat)
      requires Valid() && k < |lists|
      modifies lists[k]
      ensures Valid()
      ensures Groups() == old(Groups())[k := SlotSpec.Clear(old(Groups())[k])]
    {
      ghost var was := Groups();
      lists[k].ClearSchedule();
      GroupsAre(was[k := SlotSpec.Clear(was[k])]);
    }

    /** clearSchedule */
    method Clear()
      requires Valid()
      modifies lists
      ensures Valid()
      ensures Groups() == ClearAll(old(Groups()))
    {
      ghost var was := Groups();
      var i := 0;
      while i < |lists|
        invariant i <= |lists| && Valid()
        invariant forall j | 0 <= j < |lists| :: Groups()[j] == if j < i then SlotSpec.Clear(was[j]) else was[j]
      {
        ClearOne(i);
        i := i + 1;
      }
    }

    /** getIndexOfLowestLoadSch */
    method GetIndexOfLowestLoadSch() returns (index: nat)
      requires Valid()
      ensures index == LowestLoad(Groups())
    {
      index := 0;
      var minLoad := lists[0].nboAsgSlots;
      var i := 0;
      while i < |lists|
        invariant i <= |lists| && index < |lists| && minLoad == lists[index].nboAsgSlots
        invariant forall j | 0 <= j < i :: minLoad <= lists[j].nboAsgSlots
        invariant forall j | 0 <= j < index :: minLoad < lists[j].nboAsgSlots
      {
        if lists[i].nboAsgSlots < minLoad {
          minLoad := lists[i].nboAsgSlots;
          index := i;
        }
        i := i + 1;
      }
      LowestIs(Groups(), index);
    }

    static lemma {:induction false} LowestIs(gs: seq<Group>, k: nat)
      requires gs != [] && k < |gs|
      requires forall j | 0 <= j < |gs| :: gs[k].asg <= gs[j].asg
      requires forall j | 0 <= j < k :: gs[k].asg < gs[j].asg
      ensures k == LowestLoad(gs)
    {
      var m := LowestLoad(gs);
      assert gs[m].asg <= gs[k].asg <= gs[m].asg;
    }

    /** smScheduleOneNode on one of the groups. */
    method ScheduleOneNode(k: nat, e: Entry) returns (ok: bool)
      requires Valid() && k < |lists|
      modifies `Repr, lists[k], lists[k].Repr
      ensures Valid() && fresh(Repr - old(Repr))
      ensures Groups() == old(Groups())[k := ScheduleOne(old(Groups())[k], e).0]
      ensures ok == ScheduleOne(old(Groups())[k], e).1
    {
      hide ScheduleOne, SchList.Valid;
      ghost var was := Groups();
      ok := lists[k].ScheduleOneNode(e);
      Repr := Repr + lists[k].Repr;
      GroupsAre(was[k := ScheduleOne(was[k], e).0]);
    }

    /** smNodeSetNboSchDist on one of the groups. */
    method SetNboSchDist(k: nat, a: nat, d: nat)
      requires Valid() && k < |lists|
      modifies lists[k], lists[k].Repr
      ensures Valid() && lists[k].spine == old(lists[k].spine) && lists[k].Repr == old(lists[k].Repr)
      ensures Groups() == old(Groups())[k := SetDist(old(Groups())[k], a, d)]
    {
      ghost var was := Groups();
      lists[k].NodeSetNboSchDist(a, d);
      GroupsAre(was[k := SetDist(was[k], a, d)]);
    }

    /** The round of schedule() for one node: out of its old group, into the least loaded one. */
    method Place(e: Entry) returns (ok: bool)
      requires Valid()
      modifies `Repr, lists, Repr
      ensures Valid() && fresh(Repr - old(Repr))
      ensures Groups() == PlaceOne(old(Groups()), e).0
      ensures ok == PlaceOne(old(Groups()), e).1
    {
      RemoveNode(e.addr);
      var k := GetIndexOfLowestLoadSch();
      ok := ScheduleOneNode(k, e);
    }
  }
}

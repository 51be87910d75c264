/** The linked lists the kernel keeps threads on: the ready list, and the queue of every
    semaphore.  They share nothing, so each can be changed without the others. */
module ThreadLists {
  import opened Options
  import opened Lists
  import opened ListSets
  import opened Kernels

  lemma ValuesPlus(m: map<Sid, List<Tid>>, s: Sid, l: List<Tid>)
    requires s !in m
    ensures m[s := l].Values == m.Values + {l}
  {
    var m' := m[s := l];
    assert m'[s] == l;
    forall r | r in m ensures m'[r] == m[r] && m[r] in m'.Values {
      assert r in m';
    }
  }

  class Queues {
    const readyList: List<Tid>
    var waiting: map<Sid, List<Tid>>  // the queue of every semaphore

    ghost function All(): set<List<Tid>>
      reads this
    {
      {readyList} + waiting.Values
    }

    ghost function Repr(): set<object>
      reads this, All()
    {
      {this} + All() + NodesOf(All())
    }

    /** Every list is in order, and no two share anything. */
    ghost predicate Valid()
      reads Repr()
    {
      && Apart(All())
      && (forall s :: s in waiting ==> waiting[s] != readyList)
      && (forall r, s :: r in waiting && s in waiting && r != s ==> waiting[r] != waiting[s])
    }

    ghost function Ready(): seq<Tid>
      reads Repr()
    {
      readyList.Values()
    }

    ghost function Waits(): (m: map<Sid, seq<Tid>>)
      reads Repr()
    {
      map s | s in waiting :: waiting[s].Values()
    }

    constructor ()
      ensures Valid() && fresh(Repr()) && Ready() == [] && Waits() == map[]
    {
      waiting := map[];
      readyList := new List();
      new;
      assert All() == {readyList} && NodesOf(All()) == {};
    }

    /** To the end of the ready list. */
    method PutReady(t: Tid)
      requires Valid()
      modifies Repr()
      ensures Valid() && fresh(Repr() - old(Repr()))
      ensures Ready() == old(Ready()) + [t] && Waits() == old(Waits())
    {
      hide List.Values, List.Nodes, Apart;
      AppendTo(readyList, t, All());
    }

    /** Off the front of the ready list. */
    method TakeReady() returns (next: Option<Tid>)
      requires Valid()
      modifies Repr()
      ensures Valid() && fresh(Repr() - old(Repr()))
      ensures next == if old(Ready()) == [] then None else Some(old(Ready())[0])
      ensures Ready() == (if old(Ready()) == [] then [] else old(Ready())[1..]) && Waits() == old(Waits())
    {
      hide List.Values, List.Nodes, Apart;
      next := RemoveFrom(readyList, All());
    }

    /** To the end of a semaphore's queue. */
    method PutWaiting(s: Sid, t: Tid)
      requires Valid() && s in Waits()
      modifies Repr()
      ensures Valid() && fresh(Repr() - old(Repr())) && Ready() == old(Ready())
      ensures Waits() == old(Waits())[s := old(Waits())[s] + [t]]
    {
      hide List.Values, List.Nodes, Apart;
      AppendTo(waiting[s], t, All());
    }

    /** Off the front of a semaphore's queue. */
    method TakeWaiting(s: Sid) returns (next: Option<Tid>)
      requires Valid() && s in Waits()
      modifies Repr()
      ensures Valid() && fresh(Repr() - old(Repr())) && Ready() == old(Ready())
      ensures next == if old(Waits())[s] == [] then None else Some(old(Waits())[s][0])
      ensures Waits() == if next == None then old(Waits()) else old(Waits())[s := old(Waits())[s][1..]]
    {
      hide List.Values, List.Nodes, Apart;
      next := RemoveFrom(waiting[s], All());
    }

    /** An empty queue for a new semaphore. */
    method NewQueue(s: Sid)
      requires Valid() && s !in Waits()
      modifies Repr()
      ensures Valid() && fresh(Repr() - old(Repr())) && Ready() == old(Ready())
      ensures Waits() == old(Waits())[s := []]
    {
      assert s !in waiting;
      hide Queues.Valid, Queues.Waits, Queues.Repr, Queues.Ready, Queues.All, List.Values, List.Valid;
      var queue := NewList();
      Adopt(s, queue);
    }

    /** An empty list that shares nothing with the others. */
    method NewList() returns (queue: List<Tid>)
      requires Valid()
      ensures fresh(queue) && queue.Valid() && queue.Nodes() == {} && queue.Values() == [] && queue !in All()
      ensures Valid() && Repr() == old(Repr()) && Ready() == old(Ready()) && Waits() == old(Waits())
    {
      queue := new List();
    }

    method Adopt(s: Sid, queue: List<Tid>)
      requires Valid() && s !in waiting && queue !in All() && queue.Valid() && queue.Nodes() == {}
      modifies this
      ensures Valid() && Repr() == old(Repr()) + {queue} && Ready() == old(Ready())
      ensures Waits() == old(Waits())[s := queue.Values()]
    {
      hide List.Values, List.Valid;
      ApartPlus(All(), queue);
      ValuesPlus(waiting, s, queue);
      waiting := waiting[s := queue];
      assert All() == old(All()) + {queue};
    }
  }
}

/** The kernel's global variables and the routines that change them in place, each proved
    to be the step of the machine it stands for. */
module KernelMachine {
  import opened Options
  import opened ListSets
  import opened Kernels
  import opened ThreadLists

  /** The value of a semaphore, and how it came about; the source keeps the value only. */
  datatype Count = Count(value: nat, initial: nat, ps: nat, vs: nat)

  function SemsOf(counts: map<Sid, Count>, waits: map<Sid, seq<Tid>>): map<Sid, Sem> {
    map s | s in counts && s in waits ::
      Sem(counts[s].value, waits[s], counts[s].initial, counts[s].ps, counts[s].vs)
  }

  lemma NoSems()
    ensures SemsOf(map[], map[]) == map[]
  {
  }

  lemma SemsPut(counts: map<Sid, Count>, waits: map<Sid, seq<Tid>>, s: Sid, q: seq<Tid>)
    requires s in counts && s in waits
    ensures SemsOf(counts, waits[s := q]) == SemsOf(counts, waits)[s := SemsOf(counts, waits)[s].(queue := q)]
  {
  }

  lemma SemsCount(counts: map<Sid, Count>, waits: map<Sid, seq<Tid>>, s: Sid, c: Count)
    requires s in counts && s in waits
    ensures SemsOf(counts[s := c], waits) == SemsOf(counts, waits)[s := Sem(c.value, waits[s], c.initial, c.ps, c.vs)]
  {
  }

  lemma SemsNew(counts: map<Sid, Count>, waits: map<Sid, seq<Tid>>, s: Sid, initial: nat)
    requires s !in counts && s !in waits
    ensures SemsOf(counts[s := Count(initial, initial, 0, 0)], waits[s := []]) ==
            SemsOf(counts, waits)[s := Sem(initial, [], initial, 0, 0)]
  {
  }

  // ----- P and V in pieces -----

  /** The thread that has waited longest is off the queue. */
  function TakenOff(k: Kernel, s: Sid): Kernel
    requires s in k.sems && k.sems[s].queue != []
  {
    k.(sems := k.sems[s := k.sems[s].(queue := k.sems[s].queue[1..])])
  }

  function Joined(k: Kernel, s: Sid, t: Tid): Kernel
    requires s in k.sems
  {
    k.(sems := k.sems[s := k.sems[s].(queue := k.sems[s].queue + [t])])
  }

  function Given(k: Kernel, s: Sid): Kernel
    requires s in k.sems
  {
    k.(sems := k.sems[s := k.sems[s].(value := k.sems[s].value + 1, vs := k.sems[s].vs + 1)])
  }

  /** A unit is taken, and the current thread is back in its own code. */
  function Taken(k: Kernel, s: Sid): Kernel
    requires s in k.sems && k.sems[s].value > 0 && k.current in k.threads
  {
    Kernels.SetThread(k, k.current, Running, Code)
    .(sems := k.sems[s := k.sems[s].(value := k.sems[s].value - 1, ps := k.sems[s].ps + 1)], phase := Active)
  }

  lemma RunInPieces(k: Kernel, n: Tid)
    requires n in k.threads
    ensures var at := k.threads[n].at;
      var k1 := Kernels.SetThread(k.(current := n), n, Running, if at.InP? then at else Code);
      var k2 := k1.(phase := if at.InP? then Checking else Active);
      Dispatch(k.(ready := [n] + k.ready)) == if at == Fresh then k2 else Reap(k2)
  {
    assert ([n] + k.ready)[1..] == k.ready;
  }

  lemma VInPieces(k: Kernel, s: Sid)
    requires s in k.sems && (k.sems[s].queue != [] ==> k.sems[s].queue[0] in k.threads)
    ensures V(k, s) == if k.sems[s].queue == [] then Given(k, s) else Given(ReadyToRun(TakenOff(k, s), k.sems[s].queue[0]), s)
  {
  }

  lemma PInPieces(k: Kernel, s: Sid)
    requires s in k.sems && k.current in k.threads && (k.ready != [] ==> k.ready[0] in k.threads)
    ensures TryP(k, s) == if k.sems[s].value > 0 then Taken(k, s) else Kernels.Sleep(Joined(k, s, k.current), InP(s))
  {
  }

  class System {
    var threads: map<Tid, Thread>
    var deleted: set<Tid>
    var currentThread: Tid
    const lists: Queues
    var semaphores: map<Sid, Count>
    var threadToBeDestroyed: Option<Tid>
    const threadIDs: array<bool>
    var phase: Phase

    ghost function Repr(): set<object>
      reads lists.Repr()
    {
      {this, threadIDs} + lists.Repr()
    }

    ghost predicate Valid()
      reads Repr()
    {
      && lists.Valid() && this !in lists.Repr() && threadIDs !in lists.Repr()
      && semaphores.Keys == lists.Waits().Keys
    }

    /** What the variables stand for. */
    ghost function State(): Kernel
      reads Repr()
    {
      Kernel(threads, deleted, currentThread, lists.Ready(), SemsOf(semaphores, lists.Waits()),
             threadToBeDestroyed, threadIDs[..], phase)
    }

    /** Start-up: the thread that runs becomes the main thread. */
    constructor (main: Tid)
      ensures Valid() && fresh(Repr())
      ensures State() == Kernel(map[main := Thread(Running, Code, 0)], {}, main, [], map[], None,
                                seq(MAX_THREAD, i => i == 0), Active)
    {
      hide Queues.Valid, NodesOf, Queues.Ready, Queues.Waits, SemsOf;
      NoSems();
      threads, deleted, currentThread := map[main := Thread(Running, Code, 0)], {}, main;
      semaphores, threadToBeDestroyed, phase := map[], None, Active;
      threadIDs := new bool[MAX_THREAD](i => i == 0);
      lists := new Queues();
      new;
      assert lists.Valid() && lists.Ready() == [] && lists.Waits() == map[];
    }

    // ----- scheduling -----

    method SetThread(t: Tid, status: Status, at: Point)
      requires Valid() && t in threads
      modifies this`threads
      ensures Valid() && Repr() == old(Repr()) && State() == Kernels.SetThread(old(State()), t, status, at)
    {
      hide Queues.Valid, NodesOf, Queues.Ready, Queues.Waits, SemsOf;
      threads := threads[t := threads[t].(status := status, at := at)];
    }

    /** Scheduler::FindNextToRun */
    method FindNextToRun() returns (next: Option<Tid>)
      requires Valid()
      modifies lists.Repr()
      ensures Valid() && (forall o :: o in Repr() ==> o in old(Repr()) || fresh(o))
      ensures next == if old(State()).ready == [] then None else Some(old(State()).ready[0])
      ensures State() == old(State()).(ready := if old(State()).ready == [] then [] else old(State()).ready[1..])
    {
      hide Queues.Valid, NodesOf, Queues.Ready, Queues.Waits, SemsOf;
      next := lists.TakeReady();
    }

    /** Scheduler::ReadyToRun on a thread that will go on at `at`. */
    method MakeReady(t: Tid, at: Point)
      requires Valid() && t in threads
      modifies this`threads, lists.Repr()
      ensures Valid() && (forall o :: o in Repr() ==> o in old(Repr()) || fresh(o))
      ensures State() == Kernels.SetThread(old(State()), t, Ready, at).(ready := old(State()).ready + [t])
    {
      hide Queues.Valid, NodesOf, Queues.Ready, Queues.Waits, SemsOf;
      SetThread(t, Ready, at);
      PutReady(t);
    }

    method PutReady(t: Tid)
      requires Valid()
      modifies lists.Repr()
      ensures Valid() && (forall o :: o in Repr() ==> o in old(Repr()) || fresh(o))
      ensures State() == old(State()).(ready := old(State()).ready + [t])
    {
      hide Queues.Valid, NodesOf, Queues.Ready, Queues.Waits, SemsOf;
      lists.PutReady(t);
    }

    /** Scheduler::ReadyToRun */
    method ReadyToRun(t: Tid)
      requires Valid() && t in threads
      modifies this`threads, lists.Repr()
      ensures Valid() && (forall o :: o in Repr() ==> o in old(Repr()) || fresh(o))
      ensures State() == Kernels.ReadyToRun(old(State()), t)
    {
      MakeReady(t, threads[t].at);
    }

    /** The destructor of the thread that finished last.  The write to the table at the
        number of a thread that has none is left out. */
    method DeleteCarcass()
      requires Valid() && (threadToBeDestroyed.Some? ==> threadToBeDestroyed.value in threads)
      modifies this`threads, this`deleted, this`threadToBeDestroyed, threadIDs
      ensures Valid() && Repr() == old(Repr()) && State() == Reap(old(State()))
    {
      hide Queues.Valid, NodesOf, Queues.Ready, Queues.Waits, SemsOf;
      if threadToBeDestroyed.Some? {
        var x := threadToBeDestroyed.value;
        var id := threads[x].threadID;
        if 0 <= id < threadIDs.Length {
          threadIDs[id] := false;
        }
        threads := threads - {x};
        deleted := deleted + {x};
        threadToBeDestroyed := None;
      }
    }

    /** Scheduler::Run, up to where the new thread is back in its own code or in P. */
    method Run(nextThread: Tid)
      requires Valid() && nextThread in threads
      requires threadToBeDestroyed.Some? ==> threadToBeDestroyed.value in threads
      modifies this, threadIDs
      ensures Valid() && Repr() == old(Repr())
      ensures State() == Dispatch(old(State()).(ready := [nextThread] + old(State()).ready))
    {
      hide Queues.Valid, NodesOf, Queues.Ready, Queues.Waits, SemsOf;
      RunInPieces(State(), nextThread);
      hide Dispatch, Reap;
      var at := threads[nextThread].at;
      Resume(nextThread, if at.InP? then at else Code, if at.InP? then Checking else Active);
      if at != Fresh {
        DeleteCarcass();
      }
    }

    /** The thread is on the processor. */
    method Resume(t: Tid, at: Point, p: Phase)
      requires Valid() && t in threads
      modifies this`threads, this`currentThread, this`phase
      ensures Valid() && Repr() == old(Repr()) && t in old(State()).threads
      ensures State() == Kernels.SetThread(old(State()).(current := t), t, Running, at).(phase := p)
    {
      hide Queues.Valid, NodesOf, Queues.Ready, Queues.Waits, SemsOf;
      currentThread := t;
      threads := threads[t := threads[t].(status := Running, at := at)];
      phase := p;
    }

    /** Thread::Sleep, up to where another thread runs or the machine idles. */
    method Sleep(at: Point)
      requires Valid() && currentThread in threads && (State().ready != [] ==> State().ready[0] in threads)
      requires threadToBeDestroyed.Some? ==> threadToBeDestroyed.value in threads
      modifies Repr()
      ensures Valid() && (forall o :: o in Repr() ==> o in old(Repr()) || fresh(o))
      ensures State() == Kernels.Sleep(old(State()), at)
    {
      hide Queues.Valid, NodesOf, Queues.Ready, Queues.Waits, SemsOf;
      SetThread(currentThread, Blocked, at);
      ghost var k := State();
      var nextThread := FindNextToRun();
      match nextThread {
        case None =>
          phase := Idling;
        case Some(n) =>
          assert [n] + k.ready[1..] == k.ready;
          Run(n);
      }
    }

    /** A later turn of the loop in Thread::Sleep, after the machine has idled: a thread that
        a handler made ready runs. */
    method WakeFromIdle() returns (found: bool)
      requires Valid() && Placed(State()) && phase == Idling
      modifies Repr()
      ensures Valid() && (forall o :: o in Repr() ==> o in old(Repr()) || fresh(o))
      ensures found <==> old(State()).ready != []
      ensures !found ==> State() == old(State())
      ensures found ==> StepTo(old(State()), Step.Resume, State())
    {
      hide Queues.Valid, NodesOf, Queues.Ready, Queues.Waits, SemsOf;
      ghost var k := State();
      var nextThread := FindNextToRun();
      if nextThread == None {
        return false;
      }
      assert k.ready[0] in k.ready && [nextThread.value] + k.ready[1..] == k.ready;
      hide Dispatch, Fits, QueueOk, NoRepeats;
      Run(nextThread.value);
      return true;
    }

    /** Thread::Yield */
    method Yield()
      requires Valid() && Placed(State()) && phase == Active
      modifies Repr()
      ensures Valid() && (forall o :: o in Repr() ==> o in old(Repr()) || fresh(o))
      ensures StepTo(old(State()), CallYield, State())
    {
      hide Queues.Valid, NodesOf, Queues.Ready, Queues.Waits, SemsOf;
      ghost var k := State();
      if k.ready != [] { assert k.ready[0] in k.ready; }
      hide Dispatch, Fits, QueueOk, NoRepeats;
      var nextThread := FindNextToRun();
      if nextThread.Some? {
        MakeReady(currentThread, InYield);
        assert [nextThread.value] + (k.ready[1..] + [k.current]) == k.ready + [k.current];
        Run(nextThread.value);
      }
    }

    /** Thread::Finish */
    method Finish()
      requires Valid() && Placed(State()) && phase == Active
      modifies Repr()
      ensures Valid() && (forall o :: o in Repr() ==> o in old(Repr()) || fresh(o))
      ensures StepTo(old(State()), CallFinish, State())
    {
      hide Queues.Valid, NodesOf, Queues.Ready, Queues.Waits, SemsOf, Kernels.Sleep;
      ghost var k := State();
      if k.ready != [] { assert k.ready[0] in k.ready; }
      hide Fits, QueueOk, NoRepeats;
      threadToBeDestroyed := Some(currentThread);
      assert State() == k.(toBeDestroyed := Some(k.current));
      Sleep(Finished);
    }

    // ----- semaphores -----

    /** The thread goes to the end of a semaphore's queue. */
    method PutWaiting(s: Sid, t: Tid)
      requires Valid() && s in semaphores
      modifies lists.Repr()
      ensures Valid() && (forall o :: o in Repr() ==> o in old(Repr()) || fresh(o))
      ensures s in old(State()).sems && State() == Joined(old(State()), s, t)
    {
      hide Queues.Valid, NodesOf, Queues.Ready, Queues.Waits;
      SemsPut(semaphores, lists.Waits(), s, lists.Waits()[s] + [t]);
      lists.PutWaiting(s, t);
    }

    /** The thread that has waited longest comes off a semaphore's queue. */
    method TakeWaiting(s: Sid) returns (next: Option<Tid>)
      requires Valid() && s in semaphores
      modifies lists.Repr()
      ensures Valid() && (forall o :: o in Repr() ==> o in old(Repr()) || fresh(o)) && s in old(State()).sems
      ensures next == if old(State()).sems[s].queue == [] then None else Some(old(State()).sems[s].queue[0])
      ensures State() == if old(State()).sems[s].queue == [] then old(State()) else TakenOff(old(State()), s)
    {
      hide Queues.Valid, NodesOf, Queues.Ready, Queues.Waits;
      if lists.Waits()[s] != [] {
        SemsPut(semaphores, lists.Waits(), s, lists.Waits()[s][1..]);
      }
      next := lists.TakeWaiting(s);
    }

    /** The end of V */
    method Give(s: Sid)
      requires Valid() && s in semaphores
      modifies this`semaphores
      ensures Valid() && Repr() == old(Repr())
      ensures s in old(State()).sems && State() == Given(old(State()), s)
    {
      hide Queues.Valid, NodesOf, Queues.Ready, Queues.Waits;
      var c := semaphores[s];
      SemsCount(semaphores, lists.Waits(), s, c.(value := c.value + 1, vs := c.vs + 1));
      semaphores := semaphores[s := c.(value := c.value + 1, vs := c.vs + 1)];
    }

    /** The end of P */
    method Take(s: Sid)
      requires Valid() && s in semaphores && semaphores[s].value > 0 && currentThread in threads
      modifies this
      ensures Valid() && Repr() == old(Repr())
      ensures s in old(State()).sems && old(State()).sems[s].value > 0 && old(State()).current in old(State()).threads
      ensures State() == Taken(old(State()), s)
    {
      hide Queues.Valid, NodesOf, Queues.Ready, Queues.Waits;
      var c := semaphores[s];
      SemsCount(semaphores, lists.Waits(), s, c.(value := c.value - 1, ps := c.ps + 1));
      semaphores := semaphores[s := c.(value := c.value - 1, ps := c.ps + 1)];
      threads := threads[currentThread := threads[currentThread].(status := Running, at := Code)];
      phase := Active;
    }

    /** Semaphore::V */
    method V(s: Sid)
      requires Valid() && s in semaphores
      requires s in State().sems && (State().sems[s].queue != [] ==> State().sems[s].queue[0] in threads)
      modifies Repr()
      ensures Valid() && (forall o :: o in Repr() ==> o in old(Repr()) || fresh(o))
      ensures State() == Kernels.V(old(State()), s)
    {
      hide Queues.Valid, NodesOf, Queues.Ready, Queues.Waits, SemsOf, Kernels.V, Kernels.ReadyToRun, TakenOff, Given;
      VInPieces(State(), s);
      var thread := TakeWaiting(s);
      if thread.Some? {
        ReadyToRun(thread.value);
      }
      Give(s);
    }

    /** Semaphore::P from a test of the value up to the next one, or to its end. */
    method P(s: Sid)
      requires Valid() && s in semaphores && currentThread in threads
      requires State().ready != [] ==> State().ready[0] in threads
      requires threadToBeDestroyed.Some? ==> threadToBeDestroyed.value in threads
      modifies Repr()
      ensures Valid() && (forall o :: o in Repr() ==> o in old(Repr()) || fresh(o))
      ensures s in old(State()).sems && State() == TryP(old(State()), s)
    {
      assert s in State().sems && State().sems[s].value == semaphores[s].value;
      hide Queues.Valid, NodesOf, Queues.Ready, Queues.Waits, SemsOf, Kernels.Sleep, TryP, Taken;
      PInPieces(State(), s);
      if semaphores[s].value == 0 {
        PutWaiting(s, currentThread);
        Sleep(InP(s));
      } else {
        Take(s);
      }
    }

    /** Semaphore::Semaphore */
    method NewSemaphore(s: Sid, initial: nat)
      requires Valid() && Placed(State()) && phase == Active && s !in semaphores
      modifies Repr()
      ensures Valid() && (forall o :: o in Repr() ==> o in old(Repr()) || fresh(o))
      ensures StepTo(old(State()), Step.NewSemaphore(s, initial), State())
    {
      hide Queues.Valid, NodesOf, Queues.Ready, Queues.Waits, Placed;
      SemsNew(semaphores, lists.Waits(), s, initial);
      lists.NewQueue(s);
      semaphores := semaphores[s := Count(initial, initial, 0, 0)];
    }

    // ----- threads -----

    /** allocatedThreadID: takes the least free number. */
    method AllocateThreadID() returns (id: int)
      requires Valid()
      modifies threadIDs
      ensures Valid() && Repr() == old(Repr()) && id == FreeID(old(State()).threadIDs)
      ensures State() == if id == -1 then old(State()) else old(State()).(threadIDs := old(State()).threadIDs[id := true])
    {
      hide Queues.Valid, NodesOf, Queues.Ready, Queues.Waits, SemsOf;
      id := ScanIDs();
      if id != -1 {
        threadIDs[id] := true;
      }
    }

    method ScanIDs() returns (id: int)
      requires Valid()
      ensures Valid() && State() == old(State()) && Repr() == old(Repr()) && id == FreeID(threadIDs[..])
    {
      for i := 0 to threadIDs.Length
        invariant forall j :: 0 <= j < i ==> threadIDs[j]
      {
        if !threadIDs[i] {
          FreeIDUnique(threadIDs[..], i);
          return i;
        }
      }
      return -1;
    }

    /** Thread::Thread */
    method NewThread(t: Tid)
      requires Valid() && Placed(State()) && phase == Active && t !in threads && t !in deleted
      modifies this`threads, threadIDs
      ensures Valid() && Repr() == old(Repr())
      ensures StepTo(old(State()), Step.NewThread(t), State())
    {
      hide Queues.Valid, NodesOf, Queues.Ready, Queues.Waits, SemsOf, FreeID, Placed;
      var id := AllocateThreadID();
      threads := threads[t := Thread(JustCreated, Fresh, id)];
    }

    /** Thread::Fork */
    method Fork(t: Tid)
      requires Valid() && Placed(State()) && phase == Active && t in threads && threads[t].status == JustCreated
      modifies this`threads, lists.Repr()
      ensures Valid() && (forall o :: o in Repr() ==> o in old(Repr()) || fresh(o))
      ensures StepTo(old(State()), Step.Fork(t), State())
    {
      hide Queues.Valid, NodesOf, Queues.Ready, Queues.Waits, SemsOf, Placed;
      ReadyToRun(t);
    }
  }

  lemma FreeIDUnique(ids: seq<bool>, i: nat)
    requires i < |ids| && !ids[i] && forall j :: 0 <= j < i ==> ids[j]
    ensures FreeID(ids) == i
  {
    var r := FreeID(ids);
    assert r != -1;
    assert !ids[r];
  }
}

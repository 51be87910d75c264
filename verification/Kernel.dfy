/** code/threads/thread.cc, scheduler.cc and synch.cc: threads, the ready list and
    semaphores on one processor, as a machine whose steps are the stretches of
    kernel code that run with interrupts disabled. */
module Kernels {
  import opened Options

  type Tid = nat
  type Sid = nat

  const MAX_THREAD: nat := 128

  datatype Status = JustCreated | Running | Ready | Blocked

  /** Where a thread goes on when it next runs. */
  datatype Point =
    | Fresh          // at ThreadRoot: it has never run
    | Code           // in its own code
    | InYield        // behind the SWITCH of a Yield
    | InP(sem: Sid)  // behind the Sleep in the loop of P: it tests the value again
    | Finished       // behind the Sleep of Finish: it never runs again

  datatype Thread = Thread(status: Status, at: Point, threadID: int)

  /** A semaphore, with how often P and V completed on it. */
  datatype Sem = Sem(value: nat, queue: seq<Tid>, initial: nat, ps: nat, vs: nat)

  datatype Phase =
    | Active    // the current thread is in its own code, interrupts enabled
    | Checking  // the current thread just came back from Sleep inside P, interrupts disabled
    | Idling    // the current thread is in the loop of Sleep with no thread ready

  datatype Kernel = Kernel(
    threads: map<Tid, Thread>,
    deleted: set<Tid>,
    current: Tid,
    ready: seq<Tid>,
    sems: map<Sid, Sem>,
    toBeDestroyed: Option<Tid>,
    threadIDs: seq<bool>,
    phase: Phase)

  // ----- the pieces of kernel code -----

  function SetThread(k: Kernel, t: Tid, status: Status, at: Point): Kernel
    requires t in k.threads
  {
    k.(threads := k.threads[t := k.threads[t].(status := status, at := at)])
  }

  /** Scheduler::ReadyToRun */
  function ReadyToRun(k: Kernel, t: Tid): Kernel
    requires t in k.threads
  {
    SetThread(k, t, Ready, k.threads[t].at).(ready := k.ready + [t])
  }

  /** `delete threadToBeDestroyed`, as the code behind SWITCH does when it is set.  The
      destructor also writes to the table when the thread has no number; when that happens is
      the subject of KernelNumbers, and here the table then stays as it is. */
  function Reap(k: Kernel): Kernel {
    match k.toBeDestroyed
    case None => k
    case Some(x) =>
      k.(threads := k.threads - {x},
         deleted := k.deleted + {x},
         threadIDs := if x in k.threads && 0 <= k.threads[x].threadID < |k.threadIDs|
                      then k.threadIDs[k.threads[x].threadID := false] else k.threadIDs,
         toBeDestroyed := None)
  }

  /** Scheduler::Run on the front of the ready list.  A thread that has never run
      starts at ThreadRoot and so skips the code behind SWITCH. */
  function Dispatch(k: Kernel): Kernel
    requires k.ready != [] && k.ready[0] in k.threads
  {
    var n := k.ready[0];
    var at := k.threads[n].at;
    var k1 := k.(ready := k.ready[1..], current := n);
    match at
    case Fresh => SetThread(k1, n, Running, Code).(phase := Active)
    case InP(s) => Reap(SetThread(k1, n, Running, at)).(phase := Checking)
    case _ => Reap(SetThread(k1, n, Running, Code)).(phase := Active)
  }

  /** Thread::Sleep, up to the loop: the current thread is blocked at `at`, and the
      next ready thread runs if there is one. */
  function Sleep(k: Kernel, at: Point): Kernel
    requires k.current in k.threads
    requires k.ready != [] ==> k.ready[0] in k.threads
  {
    var k1 := SetThread(k, k.current, Blocked, at);
    if k.ready == [] then k1.(phase := Idling) else Dispatch(k1)
  }

  /** Semaphore::V, called by the current thread or by an interrupt handler. */
  function V(k: Kernel, s: Sid): Kernel
    requires s in k.sems && (k.sems[s].queue != [] ==> k.sems[s].queue[0] in k.threads)
  {
    var sem := k.sems[s];
    if sem.queue == [] then k.(sems := k.sems[s := sem.(value := sem.value + 1, vs := sem.vs + 1)])
    else
      ReadyToRun(k, sem.queue[0])
      .(sems := k.sems[s := sem.(value := sem.value + 1, vs := sem.vs + 1, queue := sem.queue[1..])])
  }

  /** The loop of Semaphore::P, from the test of the value: it takes a unit, or joins
      the queue and goes to sleep. */
  function TryP(k: Kernel, s: Sid): Kernel
    requires s in k.sems && k.current in k.threads
    requires k.ready != [] ==> k.ready[0] in k.threads
  {
    var sem := k.sems[s];
    if sem.value > 0 then
      SetThread(k, k.current, Running, Code)
      .(sems := k.sems[s := sem.(value := sem.value - 1, ps := sem.ps + 1)], phase := Active)
    else
      Sleep(k.(sems := k.sems[s := sem.(queue := sem.queue + [k.current])]), InP(s))
  }

  /** The least free thread number, or -1. */
  function FreeID(ids: seq<bool>): (i: int)
    ensures -1 <= i < |ids|
    ensures i >= 0 ==> !ids[i] && forall j :: 0 <= j < i ==> ids[j]
    ensures i == -1 ==> forall j :: 0 <= j < |ids| ==> ids[j]
  {
    if ids == [] then -1
    else if !ids[0] then 0
    else var r := FreeID(ids[1..]); if r == -1 then -1 else r + 1
  }

  // ----- the steps -----

  datatype Step =
    | NewThread(t: Tid)
    | NewSemaphore(s: Sid, initial: nat)
    | Fork(t: Tid)
    | CallP(s: Sid)
    | CallV(s: Sid)
    | HandlerV(s: Sid)
    | CallYield
    | CallFinish
    | Recheck
    | Resume

  /** When a step can happen.  Handlers run while the current thread has interrupts
      enabled, or while the machine idles. */
  ghost predicate Enabled(k: Kernel, step: Step) {
    match step
    case NewThread(t) => k.phase == Active && t !in k.threads && t !in k.deleted
    case NewSemaphore(s, _) => k.phase == Active && s !in k.sems
    case Fork(t) => k.phase == Active && t in k.threads && k.threads[t].status == JustCreated
    case CallP(s) => k.phase == Active && s in k.sems
    case CallV(s) => k.phase == Active && s in k.sems
    case HandlerV(s) => k.phase != Checking && s in k.sems
    case CallYield => k.phase == Active
    case CallFinish => k.phase == Active
    case Recheck => k.phase == Checking
    case Resume => k.phase == Idling && k.ready != []
  }

  /** What a step does, in a state that satisfies the invariant. */
  ghost function Do(k: Kernel, step: Step): Kernel
    requires Placed(k) && Enabled(k, step)
  {
    match step
    case NewThread(t) =>
      var id := FreeID(k.threadIDs);
      k.(threads := k.threads[t := Thread(JustCreated, Fresh, id)],
         threadIDs := if id == -1 then k.threadIDs else k.threadIDs[id := true])
    case NewSemaphore(s, initial) => k.(sems := k.sems[s := Sem(initial, [], initial, 0, 0)])
    case Fork(t) => ReadyToRun(k, t)
    case CallP(s) => TryP(k, s)
    case CallV(s) => V(k, s)
    case HandlerV(s) => V(k, s)
    case CallYield =>
      if k.ready == [] then k
      else
        // the next thread comes off the front before or after the current one goes on the end: all one here
        Dispatch(SetThread(k, k.current, Ready, InYield).(ready := k.ready + [k.current]))
    case CallFinish => Sleep(k.(toBeDestroyed := Some(k.current)), Finished)
    case Recheck => TryP(k, k.threads[k.current].at.sem)
    case Resume => Dispatch(k)
  }

  ghost predicate StepTo(k: Kernel, step: Step, k': Kernel) {
    Placed(k) && Enabled(k, step) && k' == Do(k, step)
  }

  // ----- where threads are -----

  ghost predicate NoRepeats(s: seq<Tid>) {
    forall i, j :: 0 <= i < j < |s| ==> s[i] != s[j]
  }

  /** A thread's status and point fit each other and the phase of the machine. */
  ghost predicate Fits(k: Kernel, t: Tid)
    requires t in k.threads
  {
    var th := k.threads[t];
    && (th.status == Running <==> t == k.current && k.phase != Idling)
    && (th.status == Ready <==> t in k.ready)
    && (th.status == JustCreated ==> th.at == Fresh)
    && (th.status == Running ==> if k.phase == Active then th.at == Code else th.at.InP?)
    && (th.status == Ready ==> th.at == Fresh || th.at == InYield || th.at.InP?)
    && (th.status == Blocked ==> th.at.InP? || th.at == Finished)
    && (th.at.InP? ==> th.at.sem in k.sems)
  }

  /** Every thread is in exactly the one place its status says, and lists hold
      threads that exist, once. */
  ghost predicate Placed(k: Kernel) {
    && k.current in k.threads
    && (forall t :: t in k.threads ==> Fits(k, t))
    && NoRepeats(k.ready) && (forall t :: t in k.ready ==> t in k.threads)
    && (forall s :: s in k.sems ==> QueueOk(k, s))
    && (k.toBeDestroyed.Some? ==>
          k.toBeDestroyed.value in k.threads && k.threads[k.toBeDestroyed.value].at == Finished)
    && k.threads.Keys !! k.deleted
  }

  /** The queue of a semaphore holds exactly the threads blocked in P on it. */
  ghost predicate QueueOk(k: Kernel, s: Sid)
    requires s in k.sems
  {
    && NoRepeats(k.sems[s].queue)
    && (forall t :: t in k.sems[s].queue <==>
          t in k.threads && k.threads[t].status == Blocked && k.threads[t].at == InP(s))
  }

  // ----- every step keeps threads in their places -----

  /** The processor is between threads: the old one is off, the new one not yet on. */
  ghost predicate Between(k: Kernel) {
    Placed(k.(phase := Idling))
  }

  lemma SeqFacts(s: seq<Tid>, t: Tid)
    requires NoRepeats(s)
    ensures t !in s ==> NoRepeats(s + [t])
    ensures s != [] ==> NoRepeats(s[1..]) && s[0] !in s[1..]
    ensures s != [] ==> forall x :: x in s[1..] <==> x in s && x != s[0]
  {
  }

  /** Putting the front of the ready list on the processor. */
  function Front(k: Kernel, at: Point, phase: Phase): Kernel
    requires k.ready != [] && k.ready[0] in k.threads
  {
    SetThread(k.(ready := k.ready[1..], current := k.ready[0]), k.ready[0], Running, at).(phase := phase)
  }

  lemma FrontPlaced(k: Kernel, at: Point, phase: Phase)
    requires Between(k) && k.ready != [] && phase != Idling
    requires phase == Active ==> at == Code
    requires phase == Checking ==> at.InP? && at.sem in k.sems
    ensures Placed(Front(k, at, phase))
  {
    var n := k.ready[0];
    var k' := Front(k, at, phase);
    SeqFacts(k.ready, n);
    assert Fits(k.(phase := Idling), n);
    forall t | t in k'.threads ensures Fits(k', t) {
      assert Fits(k.(phase := Idling), t);
    }
    forall s | s in k'.sems ensures QueueOk(k', s) {
      assert QueueOk(k.(phase := Idling), s);
    }
  }

  lemma ReapPlaced(k: Kernel)
    requires Placed(k) && k.phase != Idling
    ensures Placed(Reap(k))
    ensures k.toBeDestroyed.Some? ==>
      var x := k.toBeDestroyed.value; x != k.current && x !in k.ready && forall s :: s in k.sems ==> x !in k.sems[s].queue
  {
    if k.toBeDestroyed.Some? {
      var x := k.toBeDestroyed.value;
      var k' := Reap(k);
      assert Fits(k, x);
      assert Fits(k, k.current);
      forall t | t in k'.threads ensures Fits(k', t) {
        assert Fits(k, t);
      }
      forall s | s in k'.sems ensures QueueOk(k', s) {
        assert QueueOk(k, s);
      }
    }
  }

  lemma DispatchPlaced(k: Kernel)
    requires Between(k) && k.ready != []
    ensures Placed(Dispatch(k))
  {
    var n := k.ready[0];
    var at := k.threads[n].at;
    assert Fits(k.(phase := Idling), n);
    var point, phase := if at.InP? then at else Code, if at.InP? then Checking else Active;
    FrontPlaced(k, point, phase);
    ReapPlaced(Front(k, point, phase));
  }

  lemma ReadyPlaced(k: Kernel, t: Tid)
    requires Placed(k) && t in k.threads && t != k.current && t !in k.ready
    requires k.threads[t].status == JustCreated
    ensures Placed(ReadyToRun(k, t))
  {
    var k' := ReadyToRun(k, t);
    SeqFacts(k.ready, t);
    assert Fits(k, t);
    forall u | u in k'.threads ensures Fits(k', u) {
      assert Fits(k, u);
    }
    forall s | s in k'.sems ensures QueueOk(k', s) {
      assert QueueOk(k, s);
    }
  }

  lemma VPlaced(k: Kernel, s: Sid)
    requires Placed(k) && s in k.sems && k.phase != Checking
    ensures QueueOk(k, s) && Placed(V(k, s))
  {
    assert QueueOk(k, s);
    var k' := V(k, s);
    var q := k.sems[s].queue;
    if q != [] {
      var w := q[0];
      assert w in q;
      assert Fits(k, w);
      SeqFacts(k.ready, w);
      SeqFacts(q, w);
    }
    forall u | u in k'.threads ensures Fits(k', u) {
      assert Fits(k, u);
    }
    forall r | r in k'.sems ensures QueueOk(k', r) {
      assert QueueOk(k, r);
    }
  }

  /** The current thread joins the queue of a semaphore. */
  function Enqueue(k: Kernel, s: Sid): Kernel
    requires s in k.sems && k.current in k.threads
  {
    SetThread(k.(sems := k.sems[s := k.sems[s].(queue := k.sems[s].queue + [k.current])]),
              k.current, Blocked, InP(s))
  }

  lemma EnqueuePlaced(k: Kernel, s: Sid)
    requires Placed(k) && k.phase != Idling && s in k.sems
    ensures Between(Enqueue(k, s))
  {
    var k' := Enqueue(k, s).(phase := Idling);
    assert Fits(k, k.current);
    assert QueueOk(k, s);
    SeqFacts(k.sems[s].queue, k.current);
    forall u | u in k'.threads ensures Fits(k', u) {
      assert Fits(k, u);
    }
    forall r | r in k'.sems ensures QueueOk(k', r) {
      assert QueueOk(k, r);
    }
  }

  lemma FinishPlaced(k: Kernel)
    requires Placed(k) && k.phase == Active
    ensures Between(SetThread(k.(toBeDestroyed := Some(k.current)), k.current, Blocked, Finished))
  {
    var k' := SetThread(k.(toBeDestroyed := Some(k.current)), k.current, Blocked, Finished).(phase := Idling);
    assert Fits(k, k.current);
    forall u | u in k'.threads ensures Fits(k', u) {
      assert Fits(k, u);
    }
    forall r | r in k'.sems ensures QueueOk(k', r) {
      assert QueueOk(k, r);
    }
  }

  lemma YieldPlaced(k: Kernel)
    requires Placed(k) && k.phase == Active
    ensures Between(SetThread(k, k.current, Ready, InYield).(ready := k.ready + [k.current]))
  {
    var k' := SetThread(k, k.current, Ready, InYield).(ready := k.ready + [k.current], phase := Idling);
    assert Fits(k, k.current);
    SeqFacts(k.ready, k.current);
    forall u | u in k'.threads ensures Fits(k', u) {
      assert Fits(k, u);
    }
    forall r | r in k'.sems ensures QueueOk(k', r) {
      assert QueueOk(k, r);
    }
  }

  /** P takes a unit and the thread is back in its own code. */
  lemma TakePlaced(k: Kernel, s: Sid)
    requires Placed(k) && k.phase != Idling && s in k.sems && k.sems[s].value > 0
    ensures Placed(TryP(k, s))
  {
    var k' := TryP(k, s);
    assert Fits(k, k.current);
    forall u | u in k'.threads ensures Fits(k', u) {
      assert Fits(k, u);
    }
    forall r | r in k'.sems ensures QueueOk(k', r) {
      assert QueueOk(k, r);
    }
  }

  lemma TryPPlaced(k: Kernel, s: Sid)
    requires Placed(k) && k.phase != Idling && s in k.sems
    ensures Placed(TryP(k, s))
  {
    if k.sems[s].value > 0 {
      TakePlaced(k, s);
    } else {
      EnqueuePlaced(k, s);
      if k.ready != [] { DispatchPlaced(Enqueue(k, s)); }
    }
  }

  lemma NewPlaced(k: Kernel, step: Step)
    requires Placed(k) && Enabled(k, step) && (step.NewThread? || step.NewSemaphore?)
    ensures Placed(Do(k, step))
  {
    var k' := Do(k, step);
    forall u | u in k'.threads ensures Fits(k', u) {
      if u in k.threads { assert Fits(k, u); }
    }
    forall r | r in k'.sems ensures QueueOk(k', r) {
      if r in k.sems {
        assert QueueOk(k, r);
      } else {
        forall t | t in k'.threads ensures k'.threads[t].at != InP(r) {
          assert Fits(k', t) && Fits(k, t);
        }
      }
    }
  }

  /** Every step keeps every thread in exactly one place. */
  lemma StepPlaced(k: Kernel, step: Step)
    requires Placed(k) && Enabled(k, step)
    ensures Placed(Do(k, step))
  {
    match step
    case NewThread(_) => NewPlaced(k, step);
    case NewSemaphore(_, _) => NewPlaced(k, step);
    case Fork(t) => assert Fits(k, t); ReadyPlaced(k, t);
    case CallP(s) => TryPPlaced(k, s);
    case CallV(s) => VPlaced(k, s);
    case HandlerV(s) => VPlaced(k, s);
    case CallYield =>
      if k.ready != [] {
        YieldPlaced(k);
        DispatchPlaced(SetThread(k, k.current, Ready, InYield).(ready := k.ready + [k.current]));
      }
    case CallFinish =>
      FinishPlaced(k);
      if k.ready != [] {
        DispatchPlaced(SetThread(k.(toBeDestroyed := Some(k.current)), k.current, Blocked, Finished));
      }
    case Recheck => assert Fits(k, k.current); TryPPlaced(k, k.threads[k.current].at.sem);
    case Resume => DispatchPlaced(k);
  }
}

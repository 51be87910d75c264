/** code/threads/synch.cc: what P and V keep across every interleaving of threads and
    interrupt handlers. */
module KernelSems {
  import opened Options
  import opened Kernels

  // ----- semaphores: the count, and no lost wakeup -----

  /** The value is what was put in less what was taken out. */
  ghost predicate Counted(k: Kernel) {
    forall s :: s in k.sems ==> k.sems[s].value == k.sems[s].initial + k.sems[s].vs - k.sems[s].ps
  }

  /** Threads that V took off the queue of `s` and that have not tested the value since. */
  ghost function Woken(k: Kernel, s: Sid): (w: set<Tid>) {
    set t | t in k.threads && k.threads[t].at == InP(s) && k.threads[t].status != Blocked
  }

  /** While threads wait, there are no more units than woken threads on their way to
      take them. */
  ghost predicate NoLostWakeup(k: Kernel) {
    forall s :: s in k.sems && k.sems[s].queue != [] ==> k.sems[s].value <= |Woken(k, s)|
  }

  ghost predicate SemsOk(k: Kernel) {
    Counted(k) && NoLostWakeup(k)
  }

  lemma DispatchWoken(k: Kernel, s: Sid)
    requires Between(k) && k.ready != []
    ensures Dispatch(k).sems == k.sems && Woken(Dispatch(k), s) == Woken(k, s)
  {
    var n := k.ready[0];
    assert Fits(k.(phase := Idling), n);
    var k' := Dispatch(k);
    if k.toBeDestroyed.Some? {
      assert Fits(k.(phase := Idling), k.toBeDestroyed.value);
    }
    forall t ensures t in Woken(k', s) <==> t in Woken(k, s) {
    }
  }

  lemma DispatchSems(k: Kernel)
    requires Between(k) && k.ready != [] && SemsOk(k)
    ensures SemsOk(Dispatch(k))
  {
    var k' := Dispatch(k);
    forall s | s in k'.sems && k'.sems[s].queue != [] ensures k'.sems[s].value <= |Woken(k', s)| {
      DispatchWoken(k, s);
    }
    DispatchWoken(k, 0);
  }

  /** A change to threads outside P leaves the woken threads as they were. */
  lemma SameWoken(k: Kernel, k': Kernel)
    requires k'.sems == k.sems && SemsOk(k)
    requires forall s :: s in k.sems ==> Woken(k', s) == Woken(k, s)
    ensures SemsOk(k')
  {
  }

  lemma VSems(k: Kernel, s: Sid)
    requires Placed(k) && SemsOk(k) && s in k.sems && k.phase != Checking
    ensures QueueOk(k, s) && SemsOk(V(k, s))
  {
    assert QueueOk(k, s);
    var k' := V(k, s);
    var q := k.sems[s].queue;
    forall r | r in k'.sems && k'.sems[r].queue != [] ensures k'.sems[r].value <= |Woken(k', r)| {
      if q == [] {
        assert Woken(k', r) == Woken(k, r);
      } else {
        assert q[0] in q;
        if r == s {
          assert Woken(k', s) == Woken(k, s) + {q[0]};
          assert q[0] !in Woken(k, s);
        } else {
          assert Woken(k', r) == Woken(k, r);
        }
      }
    }
  }

  lemma TakeSems(k: Kernel, s: Sid)
    requires Placed(k) && SemsOk(k) && k.phase != Idling && s in k.sems && k.sems[s].value > 0
    requires k.phase == Checking ==> k.threads[k.current].at == InP(s)
    ensures SemsOk(TryP(k, s))
  {
    var k' := TryP(k, s);
    forall r | r in k'.sems && k'.sems[r].queue != [] ensures k'.sems[r].value <= |Woken(k', r)| {
      TakeWoken(k, s, r);
      if r == s && k.phase == Checking {
        OneLess(Woken(k, s), Woken(k', s), k.current);
      }
    }
  }

  lemma OneLess(w: set<Tid>, w': set<Tid>, t: Tid)
    requires t in w && w' == w - {t}
    ensures |w'| == |w| - 1
  {
  }

  /** The thread that takes a unit is no longer one of those on their way. */
  lemma TakeWoken(k: Kernel, s: Sid, r: Sid)
    requires Placed(k) && k.phase != Idling && s in k.sems && k.sems[s].value > 0
    requires k.phase == Checking ==> k.threads[k.current].at == InP(s)
    ensures k.phase == Checking && r == s ==>
      k.current in Woken(k, s) && Woken(TryP(k, s), s) == Woken(k, s) - {k.current}
    ensures k.phase == Active || r != s ==> Woken(TryP(k, s), r) == Woken(k, r)
  {
    assert Fits(k, k.current);
    var k' := TryP(k, s);
    forall t ensures t in Woken(k', r) <==> t in Woken(k, r) && !(r == s && k.phase == Checking && t == k.current) {
    }
  }

  lemma EnqueueSems(k: Kernel, s: Sid)
    requires Placed(k) && SemsOk(k) && k.phase != Idling && s in k.sems && k.sems[s].value == 0
    requires k.phase == Checking ==> k.threads[k.current].at == InP(s)
    ensures SemsOk(Enqueue(k, s))
  {
    var k' := Enqueue(k, s);
    assert Fits(k, k.current);
    forall r | r in k'.sems && k'.sems[r].queue != [] ensures k'.sems[r].value <= |Woken(k', r)| {
      if r != s {
        assert Woken(k', r) == Woken(k, r);
      }
    }
  }

  lemma TryPSems(k: Kernel, s: Sid)
    requires Placed(k) && SemsOk(k) && k.phase != Idling && s in k.sems
    requires k.phase == Checking ==> k.threads[k.current].at == InP(s)
    ensures SemsOk(TryP(k, s))
  {
    if k.sems[s].value > 0 {
      TakeSems(k, s);
    } else {
      EnqueuePlaced(k, s);
      EnqueueSems(k, s);
      var k1 := Enqueue(k, s);
      if k.ready != [] {
        DispatchSems(k1);
      } else {
        SameWoken(k1, k1.(phase := Idling));
      }
    }
  }

  lemma OffSems(k: Kernel, status: Status, at: Point)
    requires Placed(k) && SemsOk(k) && k.phase == Active && !at.InP?
    ensures SemsOk(SetThread(k, k.current, status, at))
  {
    var k' := SetThread(k, k.current, status, at);
    assert Fits(k, k.current);
    forall s | s in k.sems ensures Woken(k', s) == Woken(k, s) {
    }
  }

  lemma NewSems(k: Kernel, step: Step)
    requires Placed(k) && SemsOk(k) && Enabled(k, step)
    requires step.NewThread? || step.NewSemaphore? || step.Fork?
    ensures SemsOk(Do(k, step))
  {
    var k' := Do(k, step);
    if step.Fork? { assert Fits(k, step.t); }
    forall s | s in k.sems ensures Woken(k', s) == Woken(k, s) {
    }
  }

  lemma YieldSems(k: Kernel)
    requires Placed(k) && SemsOk(k) && k.phase == Active
    ensures SemsOk(Do(k, CallYield))
  {
    if k.ready != [] {
      YieldPlaced(k);
      OffSems(k, Ready, InYield);
      var k1 := SetThread(k, k.current, Ready, InYield);
      SameWoken(k1, k1.(ready := k.ready + [k.current]));
      DispatchSems(k1.(ready := k.ready + [k.current]));
    }
  }

  lemma FinishSems(k: Kernel)
    requires Placed(k) && SemsOk(k) && k.phase == Active
    ensures SemsOk(Do(k, CallFinish))
  {
    FinishPlaced(k);
    OffSems(k, Blocked, Finished);
    var k1 := SetThread(k.(toBeDestroyed := Some(k.current)), k.current, Blocked, Finished);
    SameWoken(SetThread(k, k.current, Blocked, Finished), k1);
    if k.ready != [] {
      DispatchSems(k1);
    } else {
      SameWoken(k1, k1.(phase := Idling));
    }
  }

  /** Every step keeps the counts and loses no wakeup. */
  lemma StepSems(k: Kernel, step: Step)
    requires Placed(k) && SemsOk(k) && Enabled(k, step)
    ensures SemsOk(Do(k, step))
  {
    match step
    case NewThread(_) => NewSems(k, step);
    case NewSemaphore(_, _) => NewSems(k, step);
    case Fork(t) => NewSems(k, step);
    case CallP(s) => TryPSems(k, s);
    case CallV(s) => VSems(k, s);
    case HandlerV(s) => VSems(k, s);
    case CallYield => YieldSems(k);
    case CallFinish => FinishSems(k);
    case Recheck =>
      assert Fits(k, k.current);
      TryPSems(k, k.threads[k.current].at.sem);
    case Resume => DispatchSems(k);
  }
}

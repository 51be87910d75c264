/** code/threads/thread.cc and scheduler.cc: when a finished thread is deleted.  The thread
    that switched to deletes it, but only behind SWITCH, where a thread that has never run
    does not come by; and the next thread that finishes takes its place. */
module KernelFates {
  import opened Options
  import opened Kernels
  import opened KernelSems
  import opened KernelIds
  import opened KernelRuns
  import opened KernelOrder

  // ----- a thread that is no longer set aside for deletion -----

  ghost predicate Forgotten(k: Kernel, x: Tid) {
    x in k.threads && k.threads[x].at == Finished && k.toBeDestroyed != Some(x)
  }

  lemma DispatchForgotten(k: Kernel, x: Tid)
    requires Between(k) && k.ready != [] && Forgotten(k, x)
    ensures Forgotten(Dispatch(k), x)
  {
    assert k.ready[0] in k.ready;
    assert Fits(k.(phase := Idling), k.ready[0]);
    assert Fits(k.(phase := Idling), x);
  }

  lemma TryPForgotten(k: Kernel, s: Sid, x: Tid)
    requires Placed(k) && k.phase != Idling && s in k.sems && Forgotten(k, x)
    ensures Forgotten(TryP(k, s), x)
  {
    assert Fits(k, k.current);
    if k.sems[s].value == 0 && k.ready != [] {
      EnqueuePlaced(k, s);
      DispatchForgotten(Enqueue(k, s), x);
    }
  }

  lemma FinishForgotten(k: Kernel, x: Tid)
    requires Placed(k) && k.phase == Active && Forgotten(k, x)
    ensures Forgotten(Do(k, CallFinish), x)
  {
    assert Fits(k, k.current);
    FinishPlaced(k);
    if k.ready != [] {
      DispatchForgotten(SetThread(k.(toBeDestroyed := Some(k.current)), k.current, Blocked, Finished), x);
    }
  }

  lemma YieldForgotten(k: Kernel, x: Tid)
    requires Placed(k) && k.phase == Active && Forgotten(k, x)
    ensures Forgotten(Do(k, CallYield), x)
  {
    assert Fits(k, k.current);
    if k.ready != [] {
      YieldPlaced(k);
      DispatchForgotten(SetThread(k, k.current, Ready, InYield).(ready := k.ready + [k.current]), x);
    }
  }

  /** A finished thread that is not the one set aside for deletion stays undeleted
      whatever happens. */
  lemma ForgottenForever(k: Kernel, step: Step, x: Tid)
    requires Placed(k) && Enabled(k, step) && Forgotten(k, x)
    ensures Forgotten(Do(k, step), x)
  {
    match step
    case CallP(s) => TryPForgotten(k, s, x);
    case Recheck => assert Fits(k, k.current); TryPForgotten(k, k.threads[k.current].at.sem, x);
    case CallYield => YieldForgotten(k, x);
    case CallFinish => FinishForgotten(k, x);
    case Resume => DispatchForgotten(k, x);
    case CallV(s) => VForgotten(k, s, x);
    case HandlerV(s) => VForgotten(k, s, x);
    case _ =>
  }

  lemma VForgotten(k: Kernel, s: Sid, x: Tid)
    requires Placed(k) && s in k.sems && Forgotten(k, x)
    ensures QueueOk(k, s) && Forgotten(V(k, s), x)
  {
    assert QueueOk(k, s);
  }

  // ----- one step -----

  /** The step switches to a thread that has run before, and so deletes. */
  ghost predicate Deletes(k: Kernel, step: Step) {
    && Dispatches(k, step) && !step.CallFinish?
    && k.ready[0] in k.threads && k.threads[k.ready[0]].at != Fresh
  }

  /** A switch deletes the thread set aside exactly when it goes to one that has run before. */
  lemma DispatchFate(k: Kernel, x: Tid)
    requires Between(k) && k.ready != [] && k.toBeDestroyed == Some(x)
    ensures k.ready[0] in k.threads
    ensures if k.threads[k.ready[0]].at == Fresh then Dispatch(k).toBeDestroyed == Some(x) && Dispatch(k).deleted == k.deleted
            else Dispatch(k).toBeDestroyed == None && Dispatch(k).deleted == k.deleted + {x}
  {
    assert k.ready[0] in k.ready;
  }

  lemma TryPFate(k: Kernel, s: Sid, x: Tid)
    requires Placed(k) && k.phase != Idling && s in k.sems && k.toBeDestroyed == Some(x)
    ensures if k.sems[s].value == 0 && k.ready != [] && k.ready[0] in k.threads && k.threads[k.ready[0]].at != Fresh
      then TryP(k, s).toBeDestroyed == None && TryP(k, s).deleted == k.deleted + {x}
      else TryP(k, s).toBeDestroyed == Some(x) && TryP(k, s).deleted == k.deleted
  {
    if k.sems[s].value == 0 && k.ready != [] {
      EnqueuePlaced(k, s);
      assert k.ready[0] in k.ready && Fits(k, k.current) && Fits(k, k.ready[0]);
      DispatchFate(Enqueue(k, s), x);
    }
  }

  lemma YieldFate(k: Kernel, x: Tid)
    requires Placed(k) && k.phase == Active && k.ready != [] && k.toBeDestroyed == Some(x)
    ensures k.ready[0] in k.threads
    ensures if k.threads[k.ready[0]].at == Fresh
      then Do(k, CallYield).toBeDestroyed == Some(x) && Do(k, CallYield).deleted == k.deleted
      else Do(k, CallYield).toBeDestroyed == None && Do(k, CallYield).deleted == k.deleted + {x}
  {
    YieldPlaced(k);
    assert k.ready[0] in k.ready && Fits(k, k.current) && Fits(k, k.ready[0]);
    DispatchFate(SetThread(k, k.current, Ready, InYield).(ready := k.ready + [k.current]), x);
  }

  /** The thread that finishes is deleted at once or set aside, and pushes out the one set
      aside before it. */
  lemma FinishFate(k: Kernel)
    requires Placed(k) && k.phase == Active
    ensures var k', x := Do(k, CallFinish), k.current;
      if k.ready != [] && k.ready[0] in k.threads && k.threads[k.ready[0]].at != Fresh
      then k'.toBeDestroyed == None && k'.deleted == k.deleted + {x}
      else k'.toBeDestroyed == Some(x) && k'.deleted == k.deleted
    ensures k.toBeDestroyed.Some? ==> k.toBeDestroyed.value != k.current && Forgotten(Do(k, CallFinish), k.toBeDestroyed.value)
  {
    FinishPlaced(k);
    assert Fits(k, k.current);
    var k1 := SetThread(k.(toBeDestroyed := Some(k.current)), k.current, Blocked, Finished);
    if k.toBeDestroyed.Some? {
      assert Forgotten(k1, k.toBeDestroyed.value);
    }
    if k.ready != [] {
      assert k.ready[0] in k.ready && Fits(k, k.ready[0]);
      DispatchFate(k1, k.current);
      if k.toBeDestroyed.Some? { DispatchForgotten(k1, k.toBeDestroyed.value); }
    }
  }

  /** What one step does to the thread set aside for deletion: the next finish loses it, a
      switch to a thread that has run before deletes it, and nothing else touches it. */
  lemma StepFate(k: Kernel, step: Step, x: Tid)
    requires Placed(k) && Enabled(k, step) && k.toBeDestroyed == Some(x)
    ensures Forgotten(Do(k, step), x) <==> step.CallFinish?
    ensures x in Do(k, step).deleted <==> Deletes(k, step)
    ensures Do(k, step).toBeDestroyed == Some(x) <==> !step.CallFinish? && !Deletes(k, step)
  {
    StepPlaced(k, step);
    assert x in k.threads && x !in k.deleted;
    if step.CallFinish? {
      FinishFate(k);
    } else {
      FateCases(k, step, x);
    }
  }

  lemma FateCases(k: Kernel, step: Step, x: Tid)
    requires Placed(k) && Enabled(k, step) && k.toBeDestroyed == Some(x) && !step.CallFinish?
    ensures if Deletes(k, step) then Do(k, step).toBeDestroyed == None && Do(k, step).deleted == k.deleted + {x}
            else Do(k, step).toBeDestroyed == Some(x) && Do(k, step).deleted == k.deleted
  {
    hide Dispatch, TryP, Forgotten;
    match step
    case CallP(s) => TryPFate(k, s, x);
    case Recheck => assert Fits(k, k.current); TryPFate(k, k.threads[k.current].at.sem, x);
    case CallYield => if k.ready != [] { YieldFate(k, x); }
    case Resume => DispatchFate(k, x);
    case CallV(s) => assert QueueOk(k, s);
    case HandlerV(s) => assert QueueOk(k, s);
    case _ =>
  }

  // ----- whole runs -----

  lemma SleepKeepsDeleted(k: Kernel, at: Point)
    requires k.current in k.threads && (k.ready != [] ==> k.ready[0] in k.threads)
    ensures k.deleted <= Sleep(k, at).deleted
  {
  }

  lemma StepKeepsDeleted(k: Kernel, step: Step)
    requires Placed(k) && Enabled(k, step)
    ensures k.deleted <= Do(k, step).deleted
  {
    assert Fits(k, k.current);
    hide Sleep, Fits;
    if k.ready != [] { assert k.ready[0] in k.ready; }
    match step
    case CallP(s) => TryPKeepsDeleted(k, s);
    case Recheck => TryPKeepsDeleted(k, k.threads[k.current].at.sem);
    case CallFinish => SleepKeepsDeleted(k.(toBeDestroyed := Some(k.current)), Finished);
    case CallV(s) => assert QueueOk(k, s);
    case HandlerV(s) => assert QueueOk(k, s);
    case _ =>
  }

  lemma TryPKeepsDeleted(k: Kernel, s: Sid)
    requires s in k.sems && k.current in k.threads && (k.ready != [] ==> k.ready[0] in k.threads)
    ensures k.deleted <= TryP(k, s).deleted
  {
    hide Sleep;
    if k.sems[s].value == 0 {
      SleepKeepsDeleted(k.(sems := k.sems[s := k.sems[s].(queue := k.sems[s].queue + [k.current])]), InP(s));
    }
  }

  lemma {:induction false} DeletedStays(ks: seq<Kernel>, steps: seq<Step>, i: nat, n: nat, x: Tid)
    requires Run(ks, steps) && i <= n <= |steps| && x in ks[i].deleted
    ensures x in ks[n].deleted
    decreases n
  {
    if i < n {
      hide Run, Do, Placed, Enabled, SemsOk, IdsOk;
      DeletedStays(ks, steps, i, n - 1, x);
      RunStep(ks, steps, n - 1);
      StepKeepsDeleted(ks[n - 1], steps[n - 1]);
    }
  }

  lemma {:induction false} ForgottenStays(ks: seq<Kernel>, steps: seq<Step>, i: nat, n: nat, x: Tid)
    requires Run(ks, steps) && i <= n <= |steps| && Forgotten(ks[i], x)
    ensures Forgotten(ks[n], x)
    decreases n
  {
    if i < n {
      hide Run, Do, Placed, Enabled, SemsOk, IdsOk, Forgotten;
      ForgottenStays(ks, steps, i, n - 1, x);
      RunStep(ks, steps, n - 1);
      ForgottenForever(ks[n - 1], steps[n - 1], x);
    }
  }

  /** The first step from `i` on that finishes a thread or deletes one; `n` if there is none
      before `n`. */
  ghost function FirstEvent(ks: seq<Kernel>, steps: seq<Step>, i: nat, n: nat): (m: nat)
    requires i <= n <= |steps| <= |ks|
    ensures i <= m <= n
    ensures m < n ==> steps[m].CallFinish? || Deletes(ks[m], steps[m])
    ensures forall l :: i <= l < m ==> !steps[l].CallFinish? && !Deletes(ks[l], steps[l])
    decreases n - i
  {
    if i == n || steps[i].CallFinish? || Deletes(ks[i], steps[i]) then i else FirstEvent(ks, steps, i + 1, n)
  }

  /** In every run, a thread set aside for deletion is deleted if a thread that has run
      before is switched to before the next finish, lost for good if a finish comes first,
      and still set aside while neither has happened. */
  lemma {:induction false} FateInRun(ks: seq<Kernel>, steps: seq<Step>, i: nat, n: nat, x: Tid)
    requires Run(ks, steps) && i <= n <= |steps| && ks[i].toBeDestroyed == Some(x)
    ensures var m := FirstEvent(ks, steps, i, n);
      && (ks[n].toBeDestroyed == Some(x) <==> m == n)
      && (x in ks[n].deleted <==> m < n && !steps[m].CallFinish?)
      && (Forgotten(ks[n], x) <==> m < n && steps[m].CallFinish?)
    decreases n - i
  {
    if i == n {
      RunInv(ks, steps, n);
    } else {
      RunStep(ks, steps, i);
      StepFate(ks[i], steps[i], x);
      RunInv(ks, steps, n);
      hide Run, Dispatches;
      if steps[i].CallFinish? {
        ForgottenStays(ks, steps, i + 1, n, x);
      } else if Deletes(ks[i], steps[i]) {
        DeletedStays(ks, steps, i + 1, n, x);
      } else {
        FateInRun(ks, steps, i + 1, n, x);
      }
    }
  }

  /** The same for the thread that finishes with step `i`: it is deleted by then exactly when
      the processor went to a thread that had run before, at once or before the next finish. */
  lemma FateOfFinished(ks: seq<Kernel>, steps: seq<Step>, i: nat, n: nat)
    requires Run(ks, steps) && i < n <= |steps| && steps[i].CallFinish?
    ensures var x, m, ready := ks[i].current, FirstEvent(ks, steps, i + 1, n), ks[i].ready;
      var atOnce := ready != [] && ready[0] in ks[i].threads && ks[i].threads[ready[0]].at != Fresh;
      && (x in ks[n].deleted <==> atOnce || (m < n && !steps[m].CallFinish?))
      && (Forgotten(ks[n], x) <==> !atOnce && m < n && steps[m].CallFinish?)
  {
    var x := ks[i].current;
    RunStep(ks, steps, i);
    FinishFate(ks[i]);
    RunInv(ks, steps, n);
    hide Run, Dispatches;
    if x in ks[i + 1].deleted {
      DeletedStays(ks, steps, i + 1, n, x);
    } else {
      assert x !in ks[i].deleted;
      FateInRun(ks, steps, i + 1, n, x);
    }
  }

  lemma FinishedIsNowhere(k: Kernel, x: Tid)
    requires Placed(k) && x in k.threads && k.threads[x].at == Finished
    ensures x !in k.ready && (x == k.current ==> k.phase == Idling)
    ensures forall s :: s in k.sems ==> x !in k.sems[s].queue
  {
    assert Fits(k, x);
    forall s | s in k.sems ensures x !in k.sems[s].queue {
      assert QueueOk(k, s);
    }
  }

  /** In every run, a thread that has finished does not run again: it is not on the processor,
      unless that idles in its Sleep, not ready, and waits for nothing. */
  lemma NeverRunsAgain(ks: seq<Kernel>, steps: seq<Step>, i: nat, n: nat)
    requires Run(ks, steps) && i < n <= |steps| && steps[i].CallFinish?
    ensures var x, k := ks[i].current, ks[n];
      && x !in k.ready && (x == k.current ==> k.phase == Idling)
      && forall s :: s in k.sems ==> x !in k.sems[s].queue
  {
    var x := ks[i].current;
    RunStep(ks, steps, i);
    FinishFate(ks[i]);
    RunInv(ks, steps, n);
    hide Run, Dispatches, Do, Fits, QueueOk;
    if x in ks[i + 1].deleted {
      DeletedStays(ks, steps, i + 1, n, x);
    } else {
      FateInRun(ks, steps, i + 1, n, x);
    }
    if x in ks[n].deleted { DeletedIsNowhere(ks[n], x); } else { FinishedIsNowhere(ks[n], x); }
  }

  // ----- a run that loses a thread -----

  /** The main thread makes and starts two others, which wait to run for the first time. */
  lemma TwoStarted() returns (ks: seq<Kernel>, steps: seq<Step>)
    ensures steps == [NewThread(1), NewThread(2), Fork(1), Fork(2)] && |ks| == 5 && Run(ks, steps)
    ensures var k := ks[4];
      k.phase == Active && k.current == 0 && k.ready == [1, 2] && 1 in k.threads && k.threads[1].at == Fresh
  {
    hide Run, Do, Placed, FreeID;
    ks, steps := Started();
    ks, steps := Extend(ks, steps, NewThread(1));
    NewStep(ks[0], 1);
    ks, steps := Extend(ks, steps, NewThread(2));
    NewStep(ks[1], 2);
    ks, steps := Extend(ks, steps, Fork(1));
    ForkStep(ks[2], 1);
    ks, steps := Extend(ks, steps, Fork(2));
    ForkStep(ks[3], 2);
  }

  lemma NewStep(k: Kernel, t: Tid)
    requires Placed(k) && Enabled(k, NewThread(t))
    ensures var k' := Do(k, NewThread(t));
      && k'.threads == k.threads[t := Thread(JustCreated, Fresh, FreeID(k.threadIDs))]
      && k'.phase == k.phase && k'.current == k.current && k'.ready == k.ready && k'.deleted == k.deleted
  {
  }

  lemma ForkStep(k: Kernel, t: Tid)
    requires Placed(k) && Enabled(k, Fork(t))
    ensures var k' := Do(k, Fork(t));
      && k'.threads == k.threads[t := k.threads[t].(status := Ready)]
      && k'.phase == k.phase && k'.current == k.current && k'.ready == k.ready + [t] && k'.deleted == k.deleted
  {
  }

  lemma Started() returns (ks: seq<Kernel>, steps: seq<Step>)
    ensures ks == [Main()] && steps == [] && Run(ks, steps)
  {
    ks, steps := [Main()], [];
    assert Init(ks[0]);
  }

  /** Then the main thread finishes, and after it the one that ran next: the main thread is
      never deleted. */
  lemma LostThread() returns (ks: seq<Kernel>, steps: seq<Step>)
    ensures steps == [NewThread(1), NewThread(2), Fork(1), Fork(2), CallFinish, CallFinish] && |ks| == 7 && Run(ks, steps)
    ensures Forgotten(ks[6], 0)
  {
    ks, steps := TwoStarted();
    ks, steps := Extend(ks, steps, CallFinish);
    FinishToFresh(ks[4]);
    hide *;
    assert Enabled(ks[5], CallFinish) by { EnabledFinish(ks[5]); }
    ks, steps := Extend(ks, steps, CallFinish);
    FateOfFinished(ks, steps, 4, 6);
  }

  lemma EnabledFinish(k: Kernel)
    ensures Enabled(k, CallFinish) <==> k.phase == Active
  {
  }

  lemma FinishToFresh(k: Kernel)
    requires Placed(k) && k.phase == Active && k.ready != [] && k.ready[0] in k.threads && k.threads[k.ready[0]].at == Fresh
    ensures Do(k, CallFinish).phase == Active
  {
    assert k.ready[0] in k.ready && Fits(k, k.current) && Fits(k, k.ready[0]);
  }

  function Main(): Kernel {
    Kernel(map[0 := Thread(Running, Code, 0)], {}, 0, [], map[], None, seq(MAX_THREAD, i => i == 0), Active)
  }

  lemma Extend(ks: seq<Kernel>, steps: seq<Step>, step: Step) returns (ks': seq<Kernel>, steps': seq<Step>)
    requires Run(ks, steps) && |ks| == |steps| + 1 && Enabled(ks[|steps|], step)
    ensures Placed(ks[|steps|]) && ks' == ks + [Do(ks[|steps|], step)] && steps' == steps + [step]
    ensures Run(ks', steps')
  {
    RunInv(ks, steps, |steps|);
    hide Do, Placed, SemsOk, IdsOk, Init;
    ks', steps' := ks + [Do(ks[|steps|], step)], steps + [step];
    forall i | 0 <= i < |steps'| ensures Next(ks'[i], ks'[i + 1], steps'[i]) {
      if i < |steps| { assert Next(ks[i], ks[i + 1], steps[i]); }
    }
  }
}

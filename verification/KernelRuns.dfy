/** What holds in every state of every run of threads, semaphores and handlers. */
module KernelRuns {
  import opened Options
  import opened Kernels
  import opened KernelSems
  import opened KernelIds

  // ----- runs -----

  ghost predicate Inv(k: Kernel) {
    Placed(k) && SemsOk(k) && IdsOk(k)
  }

  /** Start-up: the main thread runs, with number 0, and nothing else exists. */
  ghost predicate Init(k: Kernel) {
    exists t :: k == Kernel(map[t := Thread(Running, Code, 0)], {}, t, [], map[], None,
                            seq(MAX_THREAD, i => i == 0), Active)
  }

  lemma InitInv(k: Kernel)
    requires Init(k)
    ensures Inv(k)
  {
    var t :| k == Kernel(map[t := Thread(Running, Code, 0)], {}, t, [], map[], None,
                         seq(MAX_THREAD, i => i == 0), Active);
    assert OwnerOf(k, t, 0);
  }

  lemma StepInv(k: Kernel, step: Step)
    requires Inv(k) && Enabled(k, step)
    ensures Inv(Do(k, step))
  {
    StepPlaced(k, step);
    StepSems(k, step);
    StepIds(k, step);
  }

  ghost predicate Next(k: Kernel, k': Kernel, step: Step) {
    Placed(k) ==> Enabled(k, step) && k' == Do(k, step)
  }

  ghost predicate Run(ks: seq<Kernel>, steps: seq<Step>) {
    && |ks| == |steps| + 1 && Init(ks[0])
    && forall i :: 0 <= i < |steps| ==> Next(ks[i], ks[i + 1], steps[i])
  }

  /** The invariant holds in every state of every run. */
  lemma {:induction false} RunInv(ks: seq<Kernel>, steps: seq<Step>, n: nat)
    requires Run(ks, steps) && n <= |steps|
    ensures Inv(ks[n])
  {
    if n == 0 {
      InitInv(ks[0]);
    } else {
      RunInv(ks, steps, n - 1);
      assert Next(ks[n - 1], ks[n], steps[n - 1]);
      StepInv(ks[n - 1], steps[n - 1]);
    }
  }

  // ----- what the invariant means -----

  /** Outside the idle loop a thread that was started is in exactly one place: on the
      processor, on the ready list, in one semaphore queue, or finished. */
  lemma ExactlyOnePlace(k: Kernel, t: Tid)
    requires Placed(k) && k.phase != Idling && t in k.threads && k.threads[t].status != JustCreated
    ensures t == k.current ==> t !in k.ready && k.threads[t].at != Finished
    ensures t in k.ready ==> k.threads[t].at != Finished
    ensures t == k.current || t in k.ready || k.threads[t].at == Finished
         || exists s :: s in k.sems && t in k.sems[s].queue
    ensures forall s :: s in k.sems && t in k.sems[s].queue ==>
      t != k.current && t !in k.ready && k.threads[t].at == InP(s)
  {
    assert Fits(k, t);
    assert Fits(k, k.current);
    forall s | s in k.sems ensures QueueOk(k, s) {
    }
    if k.threads[t].status == Blocked && k.threads[t].at.InP? {
      assert QueueOk(k, k.threads[t].at.sem);
    }
  }

  /** A deleted thread is nowhere. */
  lemma DeletedIsNowhere(k: Kernel, t: Tid)
    requires Placed(k) && t in k.deleted
    ensures t != k.current && t !in k.ready && k.toBeDestroyed != Some(t)
    ensures forall s :: s in k.sems ==> t !in k.sems[s].queue
  {
    forall s | s in k.sems ensures t !in k.sems[s].queue {
      assert QueueOk(k, s);
    }
  }

  /** When the machine is about to halt for want of a ready thread, no thread sleeps
      on a semaphore that has a unit to give. */
  lemma HaltIsQuiescent(k: Kernel, s: Sid)
    requires Inv(k) && k.phase == Idling && k.ready == [] && s in k.sems && k.sems[s].queue != []
    ensures k.sems[s].value == 0
  {
    forall t | t in k.threads ensures t !in Woken(k, s) {
      assert Fits(k, t);
    }
    assert Woken(k, s) == {};
  }
}

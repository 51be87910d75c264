/** code/threads/thread.cc: the destructor marks a thread's number as free by writing to the
    table at that number, also when the thread has none and the number is -1.  When that
    write is inside the table, over whole runs. */
module KernelNumbers {
  import opened Options
  import opened Kernels
  import opened KernelSems
  import opened KernelIds
  import opened KernelRuns
  import opened KernelOrder
  import opened KernelFates

  /** The step deletes `x`. */
  ghost predicate DeletesThread(k: Kernel, step: Step, x: Tid)
    requires Placed(k) && Enabled(k, step)
  {
    x in k.threads && x in Do(k, step).deleted
  }

  /** The destructor of `x` writes inside the table of numbers. */
  predicate WritesInside(k: Kernel, x: Tid)
    requires x in k.threads
  {
    0 <= k.threads[x].threadID < |k.threadIDs|
  }

  ghost predicate TableFull(k: Kernel) {
    |Numbered(k, MAX_THREAD)| == MAX_THREAD
  }

  // ----- one step -----

  /** No thread changes its number, disappears without being deleted, or comes back. */
  ghost predicate SameThreads(k: Kernel, k': Kernel) {
    && k'.threads.Keys + k'.deleted == k.threads.Keys + k.deleted
    && forall t :: t in k'.threads ==> t in k.threads && k'.threads[t].threadID == k.threads[t].threadID
  }

  lemma DispatchSame(k: Kernel)
    requires k.ready != [] && k.ready[0] in k.threads
    requires k.toBeDestroyed.Some? ==> k.toBeDestroyed.value in k.threads
    ensures SameThreads(k, Dispatch(k))
  {
  }

  lemma SleepSame(k: Kernel, at: Point)
    requires k.current in k.threads && (k.ready != [] ==> k.ready[0] in k.threads)
    requires k.toBeDestroyed.Some? ==> k.toBeDestroyed.value in k.threads
    ensures SameThreads(k, Sleep(k, at))
  {
    hide Dispatch;
    if k.ready != [] { DispatchSame(SetThread(k, k.current, Blocked, at)); }
  }

  lemma TryPSame(k: Kernel, s: Sid)
    requires s in k.sems && k.current in k.threads && (k.ready != [] ==> k.ready[0] in k.threads)
    requires k.toBeDestroyed.Some? ==> k.toBeDestroyed.value in k.threads
    ensures SameThreads(k, TryP(k, s))
  {
    hide Sleep;
    if k.sems[s].value == 0 {
      SleepSame(k.(sems := k.sems[s := k.sems[s].(queue := k.sems[s].queue + [k.current])]), InP(s));
    }
  }

  lemma YieldSame(k: Kernel)
    requires k.current in k.threads && k.ready != [] && k.ready[0] in k.threads
    requires k.toBeDestroyed.Some? ==> k.toBeDestroyed.value in k.threads
    ensures SameThreads(k, Dispatch(SetThread(k, k.current, Ready, InYield).(ready := k.ready + [k.current])))
  {
    hide Dispatch;
    DispatchSame(SetThread(k, k.current, Ready, InYield).(ready := k.ready + [k.current]));
  }

  lemma FinishSame(k: Kernel)
    requires k.current in k.threads && (k.ready != [] ==> k.ready[0] in k.threads)
    ensures SameThreads(k, Sleep(k.(toBeDestroyed := Some(k.current)), Finished))
  {
    hide Sleep;
    SleepSame(k.(toBeDestroyed := Some(k.current)), Finished);
  }

  lemma QuietSame(k: Kernel, step: Step)
    requires Placed(k) && Enabled(k, step)
    requires step.NewSemaphore? || step.Fork? || step.CallV? || step.HandlerV? || (step.CallYield? && k.ready == [])
    ensures SameThreads(k, Do(k, step))
  {
    match step
    case CallV(s) => assert QueueOk(k, s);
    case HandlerV(s) => assert QueueOk(k, s);
    case _ =>
  }

  lemma StepSame(k: Kernel, step: Step)
    requires Placed(k) && Enabled(k, step) && !step.NewThread?
    ensures SameThreads(k, Do(k, step))
  {
    assert Fits(k, k.current);
    hide Dispatch, Sleep, TryP, V, ReadyToRun, Fits, SameThreads, QueueOk, NoRepeats;
    if k.ready != [] { assert k.ready[0] in k.ready; }
    match step
    case CallP(s) => TryPSame(k, s);
    case Recheck => TryPSame(k, k.threads[k.current].at.sem);
    case CallFinish => FinishSame(k);
    case Resume => DispatchSame(k);
    case CallYield => if k.ready != [] { YieldSame(k); } else { QuietSame(k, step); }
    case _ => QuietSame(k, step);
  }

  /** Only creation gives out numbers. */
  lemma StepNumber(k: Kernel, step: Step, t: Tid)
    requires Placed(k) && Enabled(k, step) && t in Do(k, step).threads && step != NewThread(t)
    ensures t in k.threads && Do(k, step).threads[t].threadID == k.threads[t].threadID
  {
    hide Do, Placed;
    if step.NewThread? { NewStep(k, step.t); } else { StepSame(k, step); }
  }

  /** A new thread has no number exactly when the table is full. */
  lemma BornWithNumber(k: Kernel, t: Tid)
    requires Placed(k) && IdsOk(k) && Enabled(k, NewThread(t))
    ensures t in Do(k, NewThread(t)).threads
    ensures Do(k, NewThread(t)).threads[t].threadID == -1 <==> TableFull(k)
  {
    UnnumberedExactly(k);
  }

  // ----- whole runs -----

  ghost predicate BornFull(ks: seq<Kernel>, steps: seq<Step>, i: nat, t: Tid)
    requires i < |steps| <= |ks|
  {
    steps[i] == NewThread(t) && TableFull(ks[i])
  }

  lemma {:induction false} KnownStays(ks: seq<Kernel>, steps: seq<Step>, i: nat, n: nat, t: Tid)
    requires Run(ks, steps) && i <= n <= |steps| && (t in ks[i].threads || t in ks[i].deleted)
    ensures t in ks[n].threads || t in ks[n].deleted
    decreases n
  {
    if i < n {
      KnownStays(ks, steps, i, n - 1, t);
      RunStep(ks, steps, n - 1);
      if steps[n - 1].NewThread? {
        NewStep(ks[n - 1], steps[n - 1].t);
      } else {
        hide Run, Do, Placed, Enabled;
        StepSame(ks[n - 1], steps[n - 1]);
        assert t in ks[n].threads.Keys + ks[n].deleted;
      }
    }
  }

  /** In every run, a thread has no number exactly when it was created with the table full. */
  lemma {:induction false} UnnumberedInRun(ks: seq<Kernel>, steps: seq<Step>, n: nat, t: Tid)
    requires Run(ks, steps) && n <= |steps| && t in ks[n].threads
    ensures ks[n].threads[t].threadID == -1 <==> exists i :: 0 <= i < n && BornFull(ks, steps, i, t)
  {
    if n > 0 {
      var m := n - 1;
      RunStep(ks, steps, m);
      RunInv(ks, steps, m);
      hide Run, Do, Placed, Enabled, IdsOk, SemsOk, TableFull;
      if steps[m] == NewThread(t) {
        BornWithNumber(ks[m], t);
        forall i | 0 <= i < m ensures !BornFull(ks, steps, i, t) {
          NotBornBefore(ks, steps, i, m, t);
        }
        assert TableFull(ks[m]) ==> BornFull(ks, steps, m, t);
      } else {
        StepNumber(ks[m], steps[m], t);
        UnnumberedInRun(ks, steps, m, t);
        assert !BornFull(ks, steps, m, t);
      }
    }
  }

  lemma NotBornBefore(ks: seq<Kernel>, steps: seq<Step>, i: nat, m: nat, t: Tid)
    requires Run(ks, steps) && i < m < |steps| && steps[m] == NewThread(t)
    ensures steps[i] != NewThread(t)
  {
    RunStep(ks, steps, m);
    if steps[i] == NewThread(t) {
      RunStep(ks, steps, i);
      NewStep(ks[i], t);
      KnownStays(ks, steps, i + 1, m, t);
      assert false;
    }
  }

  /** In every run, the destructor of a thread deleted with step `n` writes inside the table
      exactly when the thread was not created with the table full.  So the code keeps its table of
      numbers right in every run that never deletes a thread created with the table full. */
  lemma DeletionInside(ks: seq<Kernel>, steps: seq<Step>, n: nat, x: Tid)
    requires Run(ks, steps) && n < |steps| && x in ks[n].threads
    ensures WritesInside(ks[n], x) <==> forall i :: 0 <= i < n ==> !BornFull(ks, steps, i, x)
  {
    RunInv(ks, steps, n);
    UnnumberedInRun(ks, steps, n, x);
  }

  /** In particular, in every run that creates threads only while fewer than 128 of those
      that exist have numbers. */
  lemma AlwaysInside(ks: seq<Kernel>, steps: seq<Step>, n: nat, x: Tid)
    requires Run(ks, steps) && n < |steps| && x in ks[n].threads
    requires forall i :: 0 <= i < n && steps[i].NewThread? ==> |Numbered(ks[i], MAX_THREAD)| < MAX_THREAD
    ensures WritesInside(ks[n], x)
  {
    forall i | 0 <= i < n ensures !BornFull(ks, steps, i, x) {
    }
    DeletionInside(ks, steps, n, x);
  }

  // ----- a run that writes outside -----

  /** The main thread with `n` others that were never started. */
  ghost function Crowd(n: nat): Kernel {
    Kernel(map t: nat | t <= n :: InCrowd(t), {}, 0, [], map[], None, seq(MAX_THREAD, i => i <= n), Active)
  }

  function InCrowd(t: nat): Thread {
    if t == 0 then Thread(Running, Code, 0) else Thread(JustCreated, Fresh, if t < MAX_THREAD then t else -1)
  }

  lemma CrowdStep(n: nat)
    requires n < MAX_THREAD && Placed(Crowd(n))
    ensures Enabled(Crowd(n), NewThread(n + 1)) && Do(Crowd(n), NewThread(n + 1)) == Crowd(n + 1)
  {
    var ids := Crowd(n).threadIDs;
    var i := FreeID(ids);
    assert n + 1 < MAX_THREAD ==> !ids[n + 1];
    assert i == if n + 1 < MAX_THREAD then n + 1 else -1;
    assert Crowd(n + 1).threadIDs == if i == -1 then ids else ids[i := true];
  }

  lemma {:induction false} CrowdRun(n: nat) returns (ks: seq<Kernel>, steps: seq<Step>)
    requires n <= MAX_THREAD
    ensures |steps| == n && |ks| == n + 1 && Run(ks, steps) && ks[n] == Crowd(n)
  {
    if n == 0 {
      ks, steps := Started();
      assert Crowd(0) == Main();
    } else {
      ks, steps := CrowdRun(n - 1);
      RunInv(ks, steps, n - 1);
      CrowdStep(n - 1);
      hide Run, Do, Placed, Crowd;
      ks, steps := Extend(ks, steps, NewThread(n));
    }
  }

  lemma YieldToFresh(k: Kernel, t: Tid)
    requires Placed(k) && k.phase == Active && k.ready == [t] && t in k.threads && k.threads[t].at == Fresh
    ensures var k' := Do(k, CallYield);
      && k'.phase == Active && k'.current == t && k'.ready == [k.current] && k'.threadIDs == k.threadIDs
      && t in k'.threads && k'.threads[t].threadID == k.threads[t].threadID
      && k.current in k'.threads && k'.threads[k.current].at == InYield
  {
    assert t in k.ready && Fits(k, t) && Fits(k, k.current);
  }

  /** 128 threads are created besides the main one; the last, which gets no number, is
      started, runs and finishes, and the main thread deletes it. */
  lemma OutsideRun() returns (ks: seq<Kernel>, steps: seq<Step>)
    ensures |steps| == 131 && |ks| == 132 && Run(ks, steps)
    ensures Placed(ks[130]) && Enabled(ks[130], steps[130]) && DeletesThread(ks[130], steps[130], MAX_THREAD)
    ensures !WritesInside(ks[130], MAX_THREAD)
  {
    ks, steps := CrowdRun(MAX_THREAD);
    hide Run, Do, Placed, SemsOk, IdsOk;
    ks, steps := Extend(ks, steps, Fork(MAX_THREAD));
    ForkStep(ks[128], MAX_THREAD);
    assert Fork(MAX_THREAD) == steps[128];
    ks, steps := Extend(ks, steps, CallYield);
    YieldToFresh(ks[129], MAX_THREAD);
    ks, steps := Extend(ks, steps, CallFinish);
    FinishFate(ks[130]);
  }
}

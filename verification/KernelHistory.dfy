/** code/threads/synch.cc and scheduler.cc: the value of a semaphore, its queue and the ready
    list in every run, told from the steps taken and not from any record the kernel keeps. */
module KernelHistory {
  import opened Options
  import opened Kernels
  import opened KernelRuns
  import opened KernelOrder

  // ----- what a step is to a semaphore -----

  /** A V on `s`. */
  predicate Gives(step: Step, s: Sid) {
    step == CallV(s) || step == HandlerV(s)
  }

  /** The current thread tests the value of `s`: it calls P, or it woke up in P. */
  predicate Tests(k: Kernel, step: Step, s: Sid) {
    step == CallP(s) || (step == Recheck && k.current in k.threads && k.threads[k.current].at == InP(s))
  }

  /** It finds a unit. */
  predicate Takes(k: Kernel, step: Step, s: Sid) {
    Tests(k, step, s) && s in k.sems && k.sems[s].value > 0
  }

  /** It finds none. */
  predicate Waits(k: Kernel, step: Step, s: Sid) {
    Tests(k, step, s) && s in k.sems && k.sems[s].value == 0
  }

  /** What a step puts on the ready list. */
  function Readied(k: Kernel, step: Step): seq<Tid> {
    match step
    case Fork(t) => [t]
    case CallYield => if k.ready == [] then [] else [k.current]
    case CallV(s) => Front(k, s)
    case HandlerV(s) => Front(k, s)
    case _ => []
  }

  /** The thread that waits for `s` at the front of its queue. */
  function Front(k: Kernel, s: Sid): seq<Tid> {
    if s in k.sems && k.sems[s].queue != [] then [k.sems[s].queue[0]] else []
  }

  // ----- each step -----

  /** Value and queue of a semaphore after a step. */
  ghost predicate SemAfter(k: Kernel, step: Step, k': Kernel, s: Sid) {
    && (s in k.sems ==>
          && s in k'.sems
          && k'.sems[s].value == k.sems[s].value + (if Gives(step, s) then 1 else 0) - (if Takes(k, step, s) then 1 else 0)
          && k'.sems[s].queue == (if Gives(step, s) then Rest(k.sems[s].queue)
                                  else if Waits(k, step, s) then k.sems[s].queue + [k.current] else k.sems[s].queue))
    && (s !in k.sems ==>
          && (s in k'.sems <==> step.NewSemaphore? && step.s == s)
          && (s in k'.sems ==> k'.sems[s].value == step.initial && k'.sems[s].queue == []))
  }

  function Rest<T>(s: seq<T>): seq<T> {
    if s == [] then [] else s[1..]
  }

  lemma DispatchKeeps(k: Kernel)
    requires k.ready != [] && k.ready[0] in k.threads
    ensures Dispatch(k).sems == k.sems
  {
  }

  lemma SleepKeeps(k: Kernel, at: Point)
    requires k.current in k.threads && (k.ready != [] ==> k.ready[0] in k.threads)
    ensures Sleep(k, at).sems == k.sems
  {
    hide Dispatch;
    if k.ready != [] { DispatchKeeps(SetThread(k, k.current, Blocked, at)); }
  }

  lemma TestSems(k: Kernel, s: Sid)
    requires s in k.sems && k.current in k.threads && (k.ready != [] ==> k.ready[0] in k.threads)
    ensures var sem := k.sems[s];
      && TryP(k, s).sems.Keys == k.sems.Keys
      && (forall r :: r in k.sems && r != s ==> TryP(k, s).sems[r] == k.sems[r])
      && TryP(k, s).sems[s].value == (if sem.value > 0 then sem.value - 1 else 0)
      && TryP(k, s).sems[s].queue == (if sem.value > 0 then sem.queue else sem.queue + [k.current])
  {
    hide Sleep;
    if k.sems[s].value == 0 {
      SleepKeeps(k.(sems := k.sems[s := k.sems[s].(queue := k.sems[s].queue + [k.current])]), InP(s));
    }
  }

  /** A test on `r` leaves every other semaphore alone. */
  lemma TestSem(k: Kernel, step: Step, r: Sid, s: Sid)
    requires r in k.sems && k.current in k.threads && (k.ready != [] ==> k.ready[0] in k.threads)
    requires step == CallP(r) || (step == Recheck && k.threads[k.current].at == InP(r))
    ensures SemAfter(k, step, TryP(k, r), s)
  {
    hide TryP;
    TestSems(k, r);
  }

  lemma GiveSem(k: Kernel, step: Step, r: Sid, s: Sid)
    requires r in k.sems && QueueOk(k, r) && (step == CallV(r) || step == HandlerV(r))
    ensures SemAfter(k, step, V(k, r), s)
  {
  }

  lemma NewSem(k: Kernel, r: Sid, initial: nat, s: Sid)
    requires Placed(k) && Enabled(k, NewSemaphore(r, initial))
    ensures SemAfter(k, NewSemaphore(r, initial), Do(k, NewSemaphore(r, initial)), s)
  {
  }

  lemma OtherSem(k: Kernel, step: Step, k': Kernel, s: Sid)
    requires k'.sems == k.sems
    requires step.NewThread? || step.Fork? || step.CallYield? || step.CallFinish? || step.Resume?
    ensures SemAfter(k, step, k', s)
  {
  }

  /** These steps leave all semaphores alone. */
  lemma StepKeeps(k: Kernel, step: Step)
    requires Placed(k) && Enabled(k, step)
    requires step.NewThread? || step.Fork? || step.CallYield? || step.CallFinish? || step.Resume?
    ensures Do(k, step).sems == k.sems
  {
    hide Dispatch, Sleep, Fits, QueueOk;
    if k.ready != [] { assert k.ready[0] in k.ready; }
    match step
    case CallFinish => SleepKeeps(k.(toBeDestroyed := Some(k.current)), Finished);
    case Resume => DispatchKeeps(k);
    case CallYield =>
      if k.ready != [] {
        DispatchKeeps(SetThread(k, k.current, Ready, InYield).(ready := k.ready + [k.current]));
      }
    case _ =>
  }

  lemma StepSem(k: Kernel, step: Step, s: Sid)
    requires Placed(k) && Enabled(k, step)
    ensures SemAfter(k, step, Do(k, step), s)
  {
    assert Fits(k, k.current);
    hide Dispatch, Sleep, TryP, V, QueueOk, SemAfter;
    if k.ready != [] { assert k.ready[0] in k.ready; }
    match step
    case CallP(r) => TestSem(k, step, r, s);
    case Recheck => TestSem(k, step, k.threads[k.current].at.sem, s);
    case CallV(r) => assert QueueOk(k, r); GiveSem(k, step, r, s);
    case HandlerV(r) => assert QueueOk(k, r); GiveSem(k, step, r, s);
    case NewSemaphore(r, initial) => NewSem(k, r, initial, s);
    case _ => StepKeeps(k, step); OtherSem(k, step, Do(k, step), s);
  }

  /** The ready list after a step: what the step makes ready goes to the end, and a switch takes
      the front. */
  lemma StepReady(k: Kernel, step: Step)
    requires Placed(k) && Enabled(k, step)
    ensures Do(k, step).ready == (k.ready + Readied(k, step))[if Dispatches(k, step) then 1 else 0..]
  {
    assert Fits(k, k.current);
    hide Dispatch, Sleep, TryP, Fits;
    if k.ready != [] { assert k.ready[0] in k.ready; }
    match step
    case CallP(s) => TryPOrder(k, s);
    case Recheck => TryPOrder(k, k.threads[k.current].at.sem);
    case CallFinish => SleepOrder(k.(toBeDestroyed := Some(k.current)), Finished);
    case Resume => DispatchOrder(k);
    case CallYield =>
      if k.ready != [] {
        DispatchOrder(SetThread(k, k.current, Ready, InYield).(ready := k.ready + [k.current]));
      }
    case CallV(s) => assert QueueOk(k, s);
    case HandlerV(s) => assert QueueOk(k, s);
    case _ =>
  }

  // ----- counting over a run -----

  /** The argument of the NewSemaphore step for `s` among the first `n` steps. */
  function InitialOf(steps: seq<Step>, s: Sid, n: nat): nat
    requires n <= |steps|
  {
    if n == 0 then 0
    else if steps[n - 1].NewSemaphore? && steps[n - 1].s == s then steps[n - 1].initial
    else InitialOf(steps, s, n - 1)
  }

  predicate IsCreated(steps: seq<Step>, s: Sid, n: nat)
    requires n <= |steps|
  {
    exists i :: 0 <= i < n && steps[i].NewSemaphore? && steps[i].s == s
  }

  /** How many of the first `n` steps are V on `s`. */
  function Given(steps: seq<Step>, s: Sid, n: nat): nat
    requires n <= |steps|
  {
    if n == 0 then 0 else Given(steps, s, n - 1) + if Gives(steps[n - 1], s) then 1 else 0
  }

  /** How many of the first `n` steps are a test in P on `s` that finds a unit. */
  function Taken(ks: seq<Kernel>, steps: seq<Step>, s: Sid, n: nat): nat
    requires n <= |steps| <= |ks|
  {
    if n == 0 then 0 else Taken(ks, steps, s, n - 1) + if Takes(ks[n - 1], steps[n - 1], s) then 1 else 0
  }

  /** The threads that went to sleep on `s` in the first `n` steps, in that order. */
  function Sleepers(ks: seq<Kernel>, steps: seq<Step>, s: Sid, n: nat): seq<Tid>
    requires n <= |steps| <= |ks|
  {
    if n == 0 then []
    else Sleepers(ks, steps, s, n - 1) + if Waits(ks[n - 1], steps[n - 1], s) then [ks[n - 1].current] else []
  }

  /** How many of them V woke up: each V wakes one while there is one left. */
  function Wakings(ks: seq<Kernel>, steps: seq<Step>, s: Sid, n: nat): (w: nat)
    requires n <= |steps| <= |ks|
    ensures w <= |Sleepers(ks, steps, s, n)|
  {
    if n == 0 then 0
    else
      var before := Wakings(ks, steps, s, n - 1);
      if Gives(steps[n - 1], s) && before < |Sleepers(ks, steps, s, n - 1)| then before + 1 else before
  }

  /** All threads made ready in the first `n` steps, in that order. */
  function MadeReady(ks: seq<Kernel>, steps: seq<Step>, n: nat): seq<Tid>
    requires n <= |steps| <= |ks|
  {
    if n == 0 then [] else MadeReady(ks, steps, n - 1) + Readied(ks[n - 1], steps[n - 1])
  }

  lemma RunSem(ks: seq<Kernel>, steps: seq<Step>, m: nat, s: Sid)
    requires Run(ks, steps) && m < |steps|
    ensures SemAfter(ks[m], steps[m], ks[m + 1], s)
    ensures s in ks[m].sems ==> !(steps[m].NewSemaphore? && steps[m].s == s)
    ensures Gives(steps[m], s) || Tests(ks[m], steps[m], s) ==> s in ks[m].sems
  {
    RunStep(ks, steps, m);
    StepSem(ks[m], steps[m], s);
    assert Fits(ks[m], ks[m].current);
  }

  /** A semaphore exists once it was created, and until then nothing happens to it. */
  lemma {:induction false} ExistsExactly(ks: seq<Kernel>, steps: seq<Step>, n: nat, s: Sid)
    requires Run(ks, steps) && n <= |steps|
    ensures s in ks[n].sems <==> IsCreated(steps, s, n)
    ensures s !in ks[n].sems ==> Given(steps, s, n) == Taken(ks, steps, s, n) == 0 && Sleepers(ks, steps, s, n) == []
  {
    if n > 0 {
      hide Init, Next;
      ExistsExactly(ks, steps, n - 1, s);
      RunSem(ks, steps, n - 1, s);
    } else {
      StartsEmpty(ks[0]);
    }
  }

  lemma StartsEmpty(k: Kernel)
    requires Init(k)
    ensures k.sems == map[] && k.ready == []
  {
  }

  /** In every run a semaphore is worth what it was created with, plus the Vs on it, less the
      tests in P that found a unit. */
  lemma {:induction false} ValueCounted(ks: seq<Kernel>, steps: seq<Step>, n: nat, s: Sid)
    requires Run(ks, steps) && n <= |steps| && s in ks[n].sems
    ensures ks[n].sems[s].value == InitialOf(steps, s, n) + Given(steps, s, n) - Taken(ks, steps, s, n)
  {
    hide Init, Next, Gives, Tests;
    if n == 0 {
      StartsEmpty(ks[0]);
    } else {
      RunSem(ks, steps, n - 1, s);
      ExistsExactly(ks, steps, n - 1, s);
      if s in ks[n - 1].sems { ValueCounted(ks, steps, n - 1, s); }
    }
  }

  /** What it was created with is the argument of the one step that created it. */
  lemma {:induction false} CreatedOnce(ks: seq<Kernel>, steps: seq<Step>, i: nat, n: nat, s: Sid)
    requires Run(ks, steps) && i < n <= |steps| && steps[i].NewSemaphore? && steps[i].s == s
    ensures s in ks[n].sems && InitialOf(steps, s, n) == steps[i].initial
    decreases n
  {
    hide Init, Next;
    ExistsExactly(ks, steps, n, s);
    if i < n - 1 {
      CreatedOnce(ks, steps, i, n - 1, s);
      RunSem(ks, steps, n - 1, s);
    }
  }

  lemma ValueInRun(ks: seq<Kernel>, steps: seq<Step>, i: nat, n: nat, s: Sid)
    requires Run(ks, steps) && i < n <= |steps| && steps[i].NewSemaphore? && steps[i].s == s
    ensures s in ks[n].sems
    ensures ks[n].sems[s].value == steps[i].initial + Given(steps, s, n) - Taken(ks, steps, s, n)
  {
    hide Init, Next;
    CreatedOnce(ks, steps, i, n, s);
    ValueCounted(ks, steps, n, s);
  }

  // ----- who is woken, and who runs -----

  lemma DropBehind<T>(a: seq<T>, b: seq<T>, n: nat, d: nat)
    requires n <= |a| && n + d <= |a| + |b|
    ensures (a[n..] + b)[d..] == (a + b)[n + d..]
  {
  }

  /** In every run the queue of a semaphore holds those who went to sleep on it and were not
      woken, the longest-waiting first. */
  lemma {:induction false} QueueInRun(ks: seq<Kernel>, steps: seq<Step>, n: nat, s: Sid)
    requires Run(ks, steps) && n <= |steps| && s in ks[n].sems
    ensures ks[n].sems[s].queue == Sleepers(ks, steps, s, n)[Wakings(ks, steps, s, n)..]
  {
    hide Init, Next, Tests;
    if n == 0 {
      StartsEmpty(ks[0]);
    } else {
      RunSem(ks, steps, n - 1, s);
      ExistsExactly(ks, steps, n - 1, s);
      if s in ks[n - 1].sems {
        QueueInRun(ks, steps, n - 1, s);
        GivesOrWaits(ks[n - 1], steps[n - 1], s);
      }
    }
  }

  lemma GivesOrWaits(k: Kernel, step: Step, s: Sid)
    ensures !(Gives(step, s) && Waits(k, step, s))
  {
  }

  /** Every V makes the longest-waiting thread ready, if there is one, and no other. */
  lemma WakesLongest(ks: seq<Kernel>, steps: seq<Step>, m: nat, s: Sid)
    requires Run(ks, steps) && m < |steps| && Gives(steps[m], s)
    ensures var sleepers, w := Sleepers(ks, steps, s, m), Wakings(ks, steps, s, m);
      ks[m + 1].ready == ks[m].ready + if w < |sleepers| then [sleepers[w]] else []
  {
    RunStep(ks, steps, m);
    StepReady(ks[m], steps[m]);
    RunSem(ks, steps, m, s);
    QueueInRun(ks, steps, m, s);
    hide Do, Placed;
  }

  /** In every run the ready list holds, in order, those made ready and not yet switched to. */
  lemma {:induction false} ReadyInRun(ks: seq<Kernel>, steps: seq<Step>, n: nat)
    requires Run(ks, steps) && n <= |steps|
    ensures Switches(ks, steps, 0, n) <= |MadeReady(ks, steps, n)|
    ensures ks[n].ready == MadeReady(ks, steps, n)[Switches(ks, steps, 0, n)..]
  {
    if n == 0 {
      StartsEmpty(ks[0]);
    } else {
      RunStep(ks, steps, n - 1);
      StepReady(ks[n - 1], steps[n - 1]);
      SwitchNeedsOne(ks[n - 1], steps[n - 1]);
      hide Init, Next, Do, Placed, Enabled, Dispatches, Readied;
      ReadyInRun(ks, steps, n - 1);
      DropBehind(MadeReady(ks, steps, n - 1), Readied(ks[n - 1], steps[n - 1]), Switches(ks, steps, 0, n - 1),
                 if Dispatches(ks[n - 1], steps[n - 1]) then 1 else 0);
    }
  }

  lemma SwitchNeedsOne(k: Kernel, step: Step)
    ensures Dispatches(k, step) ==> |k.ready| >= 1
  {
  }

  /** Switch number `p + 1` of a run goes to the thread that was made ready as number `p + 1`. */
  lemma SwitchesInOrder(ks: seq<Kernel>, steps: seq<Step>, m: nat)
    requires Run(ks, steps) && m < |steps| && Dispatches(ks[m], steps[m])
    ensures var p := Switches(ks, steps, 0, m);
      p < |MadeReady(ks, steps, m)| && ks[m + 1].current == MadeReady(ks, steps, m)[p]
  {
    hide Init, Next, Readied;
    ReadyInRun(ks, steps, m);
    RunOrder(ks, steps, m);
  }
}

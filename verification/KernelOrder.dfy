/** code/threads/scheduler.cc: the order in which ready threads get the processor. */
module KernelOrder {
  import opened Options
  import opened Kernels
  import opened KernelRuns

  /** The steps that take the front of the ready list: a switch to another thread. */
  ghost predicate Dispatches(k: Kernel, step: Step) {
    && k.ready != []
    && match step
       case CallYield => true
       case CallFinish => true
       case Resume => true
       case CallP(s) => s in k.sems && k.sems[s].value == 0
       case Recheck => ChecksZero(k)
       case _ => false
  }

  /** The thread that woke up in P finds the value taken. */
  ghost predicate ChecksZero(k: Kernel) {
    && k.current in k.threads && k.threads[k.current].at.InP? && k.threads[k.current].at.sem in k.sems
    && k.sems[k.threads[k.current].at.sem].value == 0
  }

  lemma DispatchOrder(k: Kernel)
    requires k.ready != [] && k.ready[0] in k.threads
    ensures Dispatch(k).current == k.ready[0] && Dispatch(k).ready == k.ready[1..]
  {
  }

  lemma SleepOrder(k: Kernel, at: Point)
    requires k.current in k.threads && (k.ready != [] ==> k.ready[0] in k.threads)
    ensures var k' := Sleep(k, at);
      if k.ready == [] then k'.current == k.current && k'.ready == [] else k'.current == k.ready[0] && k'.ready == k.ready[1..]
  {
    hide Dispatch;
    if k.ready != [] {
      DispatchOrder(SetThread(k, k.current, Blocked, at));
    }
  }

  lemma TryPOrder(k: Kernel, s: Sid)
    requires s in k.sems && k.current in k.threads && (k.ready != [] ==> k.ready[0] in k.threads)
    ensures var k' := TryP(k, s);
      if k.sems[s].value > 0 || k.ready == [] then k'.current == k.current && k'.ready == k.ready
      else k'.current == k.ready[0] && k'.ready == k.ready[1..]
  {
    hide Sleep;
    if k.sems[s].value == 0 {
      SleepOrder(k.(sems := k.sems[s := k.sems[s].(queue := k.sems[s].queue + [k.current])]), InP(s));
    }
  }

  /** A switch runs the front thread and moves every other one up by one; any other step
      leaves every ready thread where it is. */
  lemma StepOrder(k: Kernel, step: Step)
    requires Placed(k) && Enabled(k, step)
    ensures Dispatches(k, step) ==> Do(k, step).current == k.ready[0] && k.ready[1..] <= Do(k, step).ready
    ensures !Dispatches(k, step) ==> Do(k, step).current == k.current && k.ready <= Do(k, step).ready
  {
    assert Fits(k, k.current);
    hide Dispatch, Sleep, TryP, Fits;
    if k.ready != [] { assert k.ready[0] in k.ready; }
    match step
    case CallP(s) => TryPOrder(k, s);
    case Recheck => TryPOrder(k, k.threads[k.current].at.sem);
    case CallFinish => SleepOrder(k.(toBeDestroyed := Some(k.current)), Finished);
    case Resume => DispatchOrder(k);
    case CallYield =>
      if k.ready != [] {
        var k1 := SetThread(k, k.current, Ready, InYield).(ready := k.ready + [k.current]);
        DispatchOrder(k1);
        assert k1.ready[1..] == k.ready[1..] + [k.current];
      }
    case CallV(s) => assert QueueOk(k, s);
    case HandlerV(s) => assert QueueOk(k, s);
    case _ =>
  }

  /** How many switches happen from state `i` to state `j`. */
  ghost function Switches(ks: seq<Kernel>, steps: seq<Step>, i: nat, j: nat): nat
    requires i <= j <= |steps| <= |ks|
  {
    if i == j then 0
    else Switches(ks, steps, i, j - 1) + if Dispatches(ks[j - 1], steps[j - 1]) then 1 else 0
  }

  /** What a run means at one of its steps. */
  lemma RunStep(ks: seq<Kernel>, steps: seq<Step>, m: nat)
    requires Run(ks, steps) && m < |steps|
    ensures Placed(ks[m]) && Enabled(ks[m], steps[m]) && ks[m + 1] == Do(ks[m], steps[m])
  {
    RunInv(ks, steps, m);
    assert Next(ks[m], ks[m + 1], steps[m]);
  }

  lemma RunOrder(ks: seq<Kernel>, steps: seq<Step>, m: nat)
    requires Run(ks, steps) && m < |steps|
    ensures Dispatches(ks[m], steps[m]) ==>
      ks[m].ready != [] && ks[m + 1].current == ks[m].ready[0] && ks[m].ready[1..] <= ks[m + 1].ready
    ensures !Dispatches(ks[m], steps[m]) ==> ks[m].ready <= ks[m + 1].ready
  {
    RunStep(ks, steps, m);
    StepOrder(ks[m], steps[m]);
  }

  /** In every run, a thread at position `p` of the ready list moves up by one with every
      switch, whatever else is made ready meanwhile. */
  lemma {:induction false} PositionInRun(ks: seq<Kernel>, steps: seq<Step>, i: nat, j: nat, p: nat)
    requires Run(ks, steps) && i <= j <= |steps| && p < |ks[i].ready|
    requires Switches(ks, steps, i, j) <= p
    ensures var n := Switches(ks, steps, i, j);
      p - n < |ks[j].ready| && ks[j].ready[p - n] == ks[i].ready[p]
  {
    if i < j {
      hide Dispatches, Init, Next;
      PositionInRun(ks, steps, i, j - 1, p);
      RunOrder(ks, steps, j - 1);
    }
  }

  /** A thread at position `p` gets the processor with exactly the switch number `p + 1`:
      until then it stays on the ready list, and then it is current. */
  lemma DispatchedExactly(ks: seq<Kernel>, steps: seq<Step>, i: nat, j: nat, p: nat)
    requires Run(ks, steps) && i <= j < |steps| && p < |ks[i].ready|
    requires Switches(ks, steps, i, j) == p && Dispatches(ks[j], steps[j])
    ensures forall m :: i <= m <= j ==> ks[i].ready[p] in ks[m].ready
    ensures ks[j + 1].current == ks[i].ready[p]
  {
    hide Dispatches, Init, Next;
    forall m | i <= m <= j ensures ks[i].ready[p] in ks[m].ready {
      SwitchesGrow(ks, steps, i, m, j);
      PositionInRun(ks, steps, i, m, p);
    }
    PositionInRun(ks, steps, i, j, p);
    RunOrder(ks, steps, j);
  }

  lemma {:induction false} SwitchesGrow(ks: seq<Kernel>, steps: seq<Step>, i: nat, m: nat, j: nat)
    requires i <= m <= j <= |steps| <= |ks|
    ensures Switches(ks, steps, i, m) <= Switches(ks, steps, i, j)
    decreases j
  {
    if m < j {
      SwitchesGrow(ks, steps, i, m, j - 1);
    }
  }
}

/** code/machine/interrupt.cc over code/threads/synch.cc: what the handlers that fire in a tick
    or an idle turn do to semaphores and to the running thread. */
module MachineEffects {
  import opened InterruptQueues
  import opened Kernels
  import opened KernelRuns
  import opened KernelOrder
  import opened KernelHistory
  import opened Machines

  // ----- what the handlers ask for -----

  /** How often the handlers of entries `n` to `j` of the log call V on `s`. */
  function Units(respond: Handlers, log: seq<Fired>, n: nat, j: nat, s: Sid): nat
    requires n <= j <= |log|
  {
    if n == j then 0
    else Units(respond, log, n, j - 1, s) + multiset(respond(log[..j], log[j - 1].what).wakes)[s]
  }

  /** One of them asks for a context switch. */
  predicate WantsSwitch(respond: Handlers, log: seq<Fired>, n: nat) {
    exists i :: n <= i < |log| && respond(log[..i + 1], log[i].what).wantsYield
  }

  lemma {:induction false} WakesCounted(respond: Handlers, log: seq<Fired>, n: nat, j: nat, s: Sid)
    requires n <= j <= |log|
    ensures multiset(Wakes(respond, log[..j], n))[s] == Units(respond, log, n, j, s)
  {
    if n < j {
      WakesCounted(respond, log, n, j - 1, s);
      assert log[..j][..j - 1] == log[..j - 1];
    }
  }

  lemma {:induction false} AskedExactly(respond: Handlers, log: seq<Fired>, n: nat)
    ensures Asked(respond, log, n) <==> WantsSwitch(respond, log, n)
    decreases |log|
  {
    if |log| > n {
      var rest := log[..|log| - 1];
      AskedExactly(respond, rest, n);
      assert log[..|log|] == log;
      assert forall i :: n <= i < |rest| ==> rest[..i + 1] == log[..i + 1] && rest[i] == log[i];
    }
  }

  // ----- what the kernel makes of it -----

  lemma OneV(k: Kernel, r: Sid, s: Sid)
    requires Placed(k) && k.phase != Checking && r in k.sems && s in k.sems
    ensures Enabled(k, HandlerV(r)) && Placed(Do(k, HandlerV(r))) && s in Do(k, HandlerV(r)).sems
    ensures Do(k, HandlerV(r)).sems[s].value == k.sems[s].value + if r == s then 1 else 0
    ensures Do(k, HandlerV(r)).current == k.current && k.ready <= Do(k, HandlerV(r)).ready
    ensures Do(k, HandlerV(r)).phase == k.phase && Do(k, HandlerV(r)).sems.Keys == k.sems.Keys
  {
    VStep(k, r);
    StepSem(k, HandlerV(r), s);
    StepOrder(k, HandlerV(r));
  }

  lemma CountFirst(ss: seq<Sid>, s: Sid)
    requires ss != []
    ensures multiset(ss)[s] == multiset(ss[1..])[s] + if ss[0] == s then 1 else 0
  {
    assert ss == [ss[0]] + ss[1..];
  }

  lemma {:induction false} AllVValue(k: Kernel, ss: seq<Sid>, s: Sid)
    requires Placed(k) && k.phase != Checking && AllKnown(k, ss) && s in k.sems
    ensures s in AllV(k, ss).sems && AllV(k, ss).sems[s].value == k.sems[s].value + multiset(ss)[s]
    decreases |ss|
  {
    if ss != [] {
      hide Placed, Do, Enabled;
      OneV(k, ss[0], s);
      CountFirst(ss, s);
      AllVValue(Do(k, HandlerV(ss[0])), ss[1..], s);
    }
  }

  lemma {:induction false} AllVRunning(k: Kernel, ss: seq<Sid>)
    requires Placed(k) && k.phase != Checking && AllKnown(k, ss)
    ensures AllV(k, ss).current == k.current && k.ready <= AllV(k, ss).ready && Placed(AllV(k, ss))
    ensures AllV(k, ss).phase == k.phase
    decreases |ss|
  {
    if ss != [] {
      hide Placed, Do, Enabled;
      OneV(k, ss[0], ss[0]);
      AllVRunning(Do(k, HandlerV(ss[0])), ss[1..]);
    }
  }

  lemma HandledValue(m: Machine, now: int, respond: Handlers, idle: bool, k: Kernel, m': Machine, s: Sid)
    requires MachineInv(m) && Handled(m, now, respond, idle, k, m') && s in m.k.sems && m.log <= m'.log
    ensures Placed(k) && s in k.sems
    ensures k.sems[s].value == m.k.sems[s].value + Units(respond, m'.log, |m.log|, |m'.log|, s)
    ensures k.current == m.k.current && m.k.ready <= k.ready && k.phase == m.k.phase
  {
    hide Inv, Placed, Drained, AllV;
    var ss := Wakes(respond, m'.log, |m.log|);
    AllVValue(m.k, ss, s);
    AllVRunning(m.k, ss);
    WakesCounted(respond, m'.log, |m.log|, |m'.log|, s);
    assert m'.log[..|m'.log|] == m'.log;
  }

  // ----- each tick and each turn -----

  lemma DrainGrows(m: Machine, m': Machine, e: Event, respond: Handlers)
    requires MachineInv(m) && Machines.Next(m, m', e, respond) && (e.Tick? || e.IdleTurn?)
    ensures m.log <= m'.log
  {
    hide Inv, AllV, Drained, LogOk;
    var now, idle := if e.Tick? then m.now + e.ticks else NextTime(m.q, m.now), e.IdleTurn?;
    DrainedFacts(m.q, m.log, now, respond, idle, m.now);
  }

  /** Over a tick or an idle turn, a semaphore gains one unit for every V that a handler that
      fired calls on it, and loses none. */
  lemma UnitsArrive(m: Machine, m': Machine, e: Event, respond: Handlers, s: Sid)
    requires MachineInv(m) && Machines.Next(m, m', e, respond) && (e.Tick? || e.IdleTurn?) && s in m.k.sems
    ensures m.log <= m'.log && s in m'.k.sems
    ensures m'.k.sems[s].value == m.k.sems[s].value + Units(respond, m'.log, |m.log|, |m'.log|, s)
  {
    hide MachineInv, Handled, Halts, Units, Asked, StepTo;
    DrainGrows(m, m', e, respond);
    match e
    case Tick(ticks) =>
      var k :| TickThrough(m, ticks, respond, k, m');
      HandledValue(m, m.now + ticks, respond, false, k, m', s);
      if Asked(respond, m'.log, |m.log|) { KeepsSems(k, CallYield, m'.k); }
    case IdleTurn =>
      var k :| IdleThrough(m, NextTime(m.q, m.now), respond, k, m');
      HandledValue(m, NextTime(m.q, m.now), respond, true, k, m', s);
      if k.ready != [] { KeepsSems(k, Resume, m'.k); }
  }

  lemma KeepsSems(k: Kernel, step: Step, k': Kernel)
    requires StepTo(k, step, k') && (step == CallYield || step == Resume)
    ensures k'.sems == k.sems
  {
    StepKeeps(k, step);
  }

  /** A tick hands the processor to the front of the ready list when a handler that fired wants
      it to, and leaves it with the running thread when none does. */
  lemma TickSwitches(m: Machine, m': Machine, ticks: int, respond: Handlers)
    requires MachineInv(m) && Machines.Next(m, m', Tick(ticks), respond)
    ensures !WantsSwitch(respond, m'.log, |m.log|) ==> m'.k.current == m.k.current && m.k.ready <= m'.k.ready
    ensures WantsSwitch(respond, m'.log, |m.log|) && m.k.ready != [] ==>
      m'.k.current == m.k.ready[0] && m.k.ready[1..] <= m'.k.ready
  {
    hide MachineInv, Handled, Asked, WantsSwitch, StepTo;
    var k :| TickThrough(m, ticks, respond, k, m');
    AskedExactly(respond, m'.log, |m.log|);
    HandledRunning(m, m.now + ticks, respond, false, k, m');
    if Asked(respond, m'.log, |m.log|) { YieldOrder(k, m'.k); }
  }

  lemma HandledRunning(m: Machine, now: int, respond: Handlers, idle: bool, k: Kernel, m': Machine)
    requires Handled(m, now, respond, idle, k, m')
    ensures k.current == m.k.current && m.k.ready <= k.ready
  {
    hide Placed, Drained, AllV;
    AllVRunning(m.k, Wakes(respond, m'.log, |m.log|));
  }

  lemma YieldOrder(k: Kernel, k': Kernel)
    requires StepTo(k, CallYield, k')
    ensures k.ready != [] ==> k'.current == k.ready[0] && k.ready[1..] <= k'.ready
  {
    StepOrder(k, CallYield);
  }

  // ----- where the time goes -----

  /** How many of the first `n` events are ticks of the given length. */
  function TicksOf(es: seq<Event>, ticks: int, n: nat): nat
    requires n <= |es|
  {
    if n == 0 then 0 else TicksOf(es, ticks, n - 1) + if es[n - 1] == Tick(ticks) then 1 else 0
  }

  lemma StepCounters(m: Machine, m': Machine, e: Event, respond: Handlers)
    requires Machines.Next(m, m', e, respond)
    ensures m'.user == m.user + if e == Tick(1) then 1 else 0
    ensures m'.system == m.system + if e == Tick(10) then 10 else 0
    ensures !e.IdleTurn? ==> m'.idle == m.idle
  {
    hide Handled, Halts, StepTo, Asked;
  }

  lemma ClockSum(m: Machine)
    requires MachineInv(m)
    ensures m.now == m.idle + m.system + m.user
  {
  }

  /** In every run, user time is the number of user ticks and system time ten for every system
      tick; the rest of the time was idle. */
  lemma {:induction false} TimeInRun(ms: seq<Machine>, es: seq<Event>, respond: Handlers, n: nat)
    requires MachineRun(ms, es, respond) && n <= |es|
    ensures ms[n].user == TicksOf(es, 1, n) && ms[n].system == 10 * TicksOf(es, 10, n)
    ensures ms[n].now == ms[n].idle + TicksOf(es, 1, n) + 10 * TicksOf(es, 10, n)
  {
    hide MachineInv, Init, Machines.Next;
    RunMachine(ms, es, respond, n);
    ClockSum(ms[n]);
    if n > 0 {
      TimeInRun(ms, es, respond, n - 1);
      StepCounters(ms[n - 1], ms[n], es[n - 1], respond);
    }
  }
}

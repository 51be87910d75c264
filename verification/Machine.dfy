/** Threads and the clock together: the kernel moves when the current thread calls it, when
    a tick lets interrupt handlers call V and ask for a yield, and when Sleep idles. */
module Machines {
  import opened InterruptQueues
  import opened Kernels
  import opened KernelSems
  import opened KernelIds
  import opened KernelRuns

  /** The kernel, what is pending, what fired, and the clock with its three counters. */
  datatype Machine = Machine(k: Kernel, q: Queue, log: seq<Fired>, now: int, idle: int, system: int, user: int)

  datatype Event =
    | ByThread(step: Step)       // the current thread calls the kernel
    | Start(request: Request)    // the current thread starts a device
    | Tick(ticks: int)           // interrupts are enabled, or a user instruction is done
    | IdleTurn                   // one turn of the loop in Sleep

  // ----- handlers and semaphores -----

  /** The semaphores that handlers called V on since the log had `n` entries, in order. */
  function Wakes(respond: Handlers, log: seq<Fired>, n: nat): seq<Sid> {
    if |log| <= n then []
    else Wakes(respond, log[..|log| - 1], n) + respond(log, log[|log| - 1].what).wakes
  }

  ghost predicate AllKnown(k: Kernel, ss: seq<Sid>) {
    forall i :: 0 <= i < |ss| ==> ss[i] in k.sems
  }

  /** The kernel after V on each semaphore in turn. */
  ghost function AllV(k: Kernel, ss: seq<Sid>): Kernel
    requires Placed(k) && k.phase != Checking && AllKnown(k, ss)
    decreases |ss|
  {
    if ss == [] then k
    else
      VStep(k, ss[0]);
      AllV(Do(k, HandlerV(ss[0])), ss[1..])
  }

  lemma VStep(k: Kernel, s: Sid)
    requires Placed(k) && k.phase != Checking && s in k.sems
    ensures Enabled(k, HandlerV(s)) && Placed(Do(k, HandlerV(s)))
    ensures var k' := Do(k, HandlerV(s));
      k'.phase == k.phase && k'.sems.Keys == k.sems.Keys && k.ready <= k'.ready
  {
    assert QueueOk(k, s);
    StepPlaced(k, HandlerV(s));
  }

  lemma {:induction false} AllVInv(k: Kernel, ss: seq<Sid>)
    requires Inv(k) && k.phase != Checking && AllKnown(k, ss)
    ensures Inv(AllV(k, ss)) && AllV(k, ss).phase == k.phase
    decreases |ss|
  {
    if ss != [] {
      hide Placed, SemsOk, IdsOk, Do, Enabled;
      VStep(k, ss[0]);
      StepInv(k, HandlerV(ss[0]));
      AllVInv(Do(k, HandlerV(ss[0])), ss[1..]);
    }
  }

  // ----- the steps -----

  /** Sleep has found no ready thread and Idle finds nothing but the timer: Idle halts. */
  predicate Halts(m: Machine) {
    m.k.phase == Idling && m.k.ready == [] && (m.q == [] || LoneTimer(m.q, true))
  }

  /** What handlers do at time `now`, up to where nothing is due; `k` is the kernel then. */
  ghost predicate Handled(m: Machine, now: int, respond: Handlers, idle: bool, k: Kernel, m': Machine) {
    && WfQueue(m.q) && (m'.q, m'.log) == Drained(m.q, m.log, now, respond, idle) && m'.now == now
    && var ss := Wakes(respond, m'.log, |m.log|);
    && Placed(m.k) && m.k.phase != Checking && AllKnown(m.k, ss) && k == AllV(m.k, ss)
  }

  /** A tick: handlers run, and the current thread yields if one of them asked for it. */
  ghost predicate TickThrough(m: Machine, ticks: int, respond: Handlers, k: Kernel, m': Machine) {
    && Handled(m, m.now + ticks, respond, false, k, m')
    && (if Asked(respond, m'.log, |m.log|) then StepTo(k, CallYield, m'.k) else m'.k == k)
    && m'.idle == m.idle
    && m'.system == m.system + (if ticks == SYSTEM_TICK then ticks else 0)
    && m'.user == m.user + (if ticks == SYSTEM_TICK then 0 else ticks)
  }

  /** Handlers run, and a thread that they made ready gets the processor. */
  ghost predicate IdleThrough(m: Machine, now: int, respond: Handlers, k: Kernel, m': Machine) {
    && Handled(m, now, respond, true, k, m')
    && (if k.ready != [] then StepTo(k, Resume, m'.k) else m'.k == k)
    && m'.idle == m.idle + (now - m.now) && m'.system == m.system && m'.user == m.user
  }

  ghost predicate Next(m: Machine, m': Machine, e: Event, respond: Handlers) {
    match e
    case ByThread(step) =>
      !step.HandlerV? && !step.Resume? && StepTo(m.k, step, m'.k) && m' == m.(k := m'.k)
    case Start(r) =>
      m.k.phase == Active && m' == m.(q := Add(m.q, Pending(r.handler, r.arg, m.now + r.fromNow, r.kind)))
    case Tick(ticks) =>
      && m.k.phase == Active && (ticks == USER_TICK || ticks == SYSTEM_TICK)
      && exists k :: TickThrough(m, ticks, respond, k, m')
    case IdleTurn =>
      && m.k.phase == Idling && m.k.ready == [] && !Halts(m)
      && exists k :: IdleThrough(m, NextTime(m.q, m.now), respond, k, m')
  }

  // ----- what every run keeps -----

  /** The kernel is in order, the interrupts fired in time and in order, nothing pending is
      overdue, and the counters add up to the clock. */
  ghost predicate MachineInv(m: Machine) {
    && m.now == m.idle + m.system + m.user
    && Inv(m.k) && WfQueue(m.q) && AllFrom(m.q, m.now)
    && LogOk(m.log) && LogBehind(m.log, m.q, m.now)
  }

  /** Draining keeps the log in order. */
  lemma {:induction false} DrainedLog(q: Queue, log: seq<Fired>, now: int, respond: Handlers, idle: bool, from: int)
    requires WfQueue(q) && AllFrom(q, from) && now - SYSTEM_TICK <= from <= now
    requires LogOk(log) && LogBehind(log, q, now)
    ensures var r := Drained(q, log, now, respond, idle); LogOk(r.1) && LogBehind(r.1, r.0, now)
    decreases Due(q, now)
  {
    DrainedOnce(q, log, now, respond, idle);
    if CanFire(q, now, idle) {
      LogFire(log, q, now, now);
      AfterFireFacts(q, log, now, respond, from);
      AfterFireFacts(q, log, now, respond, q[0].value.when);
      hide Drained, AfterFire, Due, LogOk;
      DrainedLog(AfterFire(q, log, now, respond), log + [Fired(q[0].value, now)], now, respond, idle, from);
    } else if q != [] {
      PutBackFacts(q, if log == [] then 0 else log[|log| - 1].what.when);
    }
  }

  /** A lone timer put back on an idle machine is not overdue. */
  lemma HandledClock(m: Machine, now: int, respond: Handlers, idle: bool, k: Kernel, m': Machine)
    requires MachineInv(m) && Handled(m, now, respond, idle, k, m')
    requires m.now <= now <= m.now + SYSTEM_TICK || AllFrom(m.q, now)
    requires idle ==> AllFrom(m.q, now)
    requires m.now <= now
    ensures Inv(k) && k.phase == m.k.phase
    ensures WfQueue(m'.q) && AllFrom(m'.q, now) && LogOk(m'.log) && LogBehind(m'.log, m'.q, now)
  {
    var from := if AllFrom(m.q, now) then now else m.now;
    AllVInv(m.k, Wakes(respond, m'.log, |m.log|));
    DrainedFacts(m.q, m.log, now, respond, idle, from);
    DrainedLog(m.q, m.log, now, respond, idle, from);
    NothingDue(m'.q, now);
  }

  lemma StartStep(m: Machine, p: Pending)
    requires MachineInv(m) && m.now <= p.when
    ensures MachineInv(m.(q := Add(m.q, p)))
  {
    hide Inv, LogOk;
    AddFacts(m.q, p, m.now);
    AddFacts(m.q, p, if m.log == [] then 0 else m.log[|m.log| - 1].what.when);
  }

  lemma TickStep(m: Machine, m': Machine, ticks: int, respond: Handlers, k: Kernel)
    requires MachineInv(m) && 0 < ticks <= SYSTEM_TICK && TickThrough(m, ticks, respond, k, m')
    ensures MachineInv(m')
  {
    hide Inv, Handled, WfQueue, AllFrom, LogOk, LogBehind, StepTo, Asked;
    HandledClock(m, m.now + ticks, respond, false, k, m');
    HandledNow(m, m.now + ticks, respond, false, k, m');
    if Asked(respond, m'.log, |m.log|) { KernelStep(k, CallYield, m'.k); }
  }

  lemma IdleStep(m: Machine, m': Machine, respond: Handlers, k: Kernel)
    requires MachineInv(m) && IdleThrough(m, NextTime(m.q, m.now), respond, k, m')
    ensures MachineInv(m')
  {
    var now := NextTime(m.q, m.now);
    assert AllFrom(m.q, now);
    hide Inv, Handled, WfQueue, AllFrom, LogOk, LogBehind, StepTo;
    HandledClock(m, now, respond, true, k, m');
    HandledNow(m, now, respond, true, k, m');
    if k.ready != [] { KernelStep(k, Resume, m'.k); }
  }

  lemma StepMachine(m: Machine, m': Machine, e: Event, respond: Handlers)
    requires MachineInv(m) && Next(m, m', e, respond)
    ensures MachineInv(m')
  {
    hide MachineInv, TickThrough, IdleThrough, StepTo, Add, Halts;
    match e
    case ByThread(step) => ThreadStep(m, step, m'.k);
    case Start(r) => StartStep(m, Pending(r.handler, r.arg, m.now + r.fromNow, r.kind));
    case Tick(ticks) =>
      var k :| TickThrough(m, ticks, respond, k, m');
      TickStep(m, m', ticks, respond, k);
    case IdleTurn =>
      var k :| IdleThrough(m, NextTime(m.q, m.now), respond, k, m');
      IdleStep(m, m', respond, k);
  }

  lemma ThreadStep(m: Machine, step: Step, k: Kernel)
    requires MachineInv(m) && StepTo(m.k, step, k)
    ensures MachineInv(m.(k := k))
  {
    hide Inv, LogOk, StepTo;
    KernelStep(m.k, step, k);
  }

  lemma HandledNow(m: Machine, now: int, respond: Handlers, idle: bool, k: Kernel, m': Machine)
    requires Handled(m, now, respond, idle, k, m')
    ensures m'.now == now
  {
  }

  lemma KernelStep(k: Kernel, step: Step, k': Kernel)
    requires Inv(k) && StepTo(k, step, k')
    ensures Inv(k')
  {
    StepInv(k, step);
  }

  ghost predicate MachineRun(ms: seq<Machine>, es: seq<Event>, respond: Handlers) {
    && |ms| == |es| + 1 && Init(ms[0].k) && ms[0].q == [] && ms[0].log == []
    && ms[0].now == ms[0].idle == ms[0].system == ms[0].user == 0
    && forall i :: 0 <= i < |es| ==> Next(ms[i], ms[i + 1], es[i], respond)
  }

  /** In every run with any handlers: the kernel is in order, interrupts fire in time and in
      order, nothing is left overdue, and the clock is idle, system and user ticks together. */
  lemma {:induction false} RunMachine(ms: seq<Machine>, es: seq<Event>, respond: Handlers, n: nat)
    requires MachineRun(ms, es, respond) && n <= |es|
    ensures MachineInv(ms[n])
  {
    if n == 0 {
      InitInv(ms[0].k);
    } else {
      hide MachineInv, Next;
      RunMachine(ms, es, respond, n - 1);
      StepMachine(ms[n - 1], ms[n], es[n - 1], respond);
    }
  }

  /** With nothing pending, or nothing but one timer, Idle makes no turn. */
  lemma NoTurn(m: Machine, m': Machine, respond: Handlers)
    requires |m.q| == 0 || (|m.q| == 1 && m.q[0].value.kind == TimerInt)
    ensures !Next(m, m', IdleTurn, respond)
  {
    hide IdleThrough;
  }

  ghost function Resumed(k: Kernel): (k': Kernel)
    requires Placed(k) && k.phase == Idling && k.ready != []
    ensures StepTo(k, Resume, k')
  {
    Do(k, Resume)
  }

  /** Otherwise a turn is possible, as long as handlers call V on semaphores that exist. */
  lemma SomeTurn(m: Machine, respond: Handlers) returns (m': Machine)
    requires MachineInv(m) && m.k.phase == Idling && m.k.ready == []
    requires !(|m.q| == 0 || (|m.q| == 1 && m.q[0].value.kind == TimerInt))
    requires AllKnown(m.k, Wakes(respond, Drained(m.q, m.log, NextTime(m.q, m.now), respond, true).1, |m.log|))
    ensures Next(m, m', IdleTurn, respond)
  {
    hide Drained, Do, Placed, SemsOk, IdsOk, StepTo, AllV, Wakes, WfQueue, AllFrom, LogOk, LogBehind, AllKnown;
    var now := NextTime(m.q, m.now);
    var (q, log) := Drained(m.q, m.log, now, respond, true);
    var ss := Wakes(respond, log, |m.log|);
    AllVInv(m.k, ss);
    var k := AllV(m.k, ss);
    var after := if k.ready != [] then Resumed(k) else k;
    m' := Machine(after, q, log, now, m.idle + (now - m.now), m.system, m.user);
    assert IdleThrough(m, now, respond, k, m');
  }

  /** A turn takes time to the front interrupt, and fires that one first. */
  lemma TurnFires(m: Machine, m': Machine, respond: Handlers)
    requires MachineInv(m) && Next(m, m', IdleTurn, respond)
    ensures |m.q| > 0 && m'.now >= m.now && m'.now >= m.q[0].value.when
    ensures m'.now == m.now || m'.now == m.q[0].value.when
    ensures |m'.log| > |m.log| && m'.log[..|m.log|] == m.log && m'.log[|m.log|] == Fired(m.q[0].value, m'.now)
  {
    hide Inv, Drained, AfterFire, LogOk, AllV;
    var now := NextTime(m.q, m.now);
    DrainedOnce(m.q, m.log, now, respond, true);
    AfterFireFacts(m.q, m.log, now, respond, m.now);
    DrainedFacts(AfterFire(m.q, m.log, now, respond), m.log + [Fired(m.q[0].value, now)], now, respond, true, m.now);
  }

  /** The machine halts only when every semaphore that is waited for has value zero, and no
      interrupt but the timer could give it a unit. */
  lemma HaltsQuiet(ms: seq<Machine>, es: seq<Event>, respond: Handlers, n: nat, s: Sid)
    requires MachineRun(ms, es, respond) && n <= |es| && Halts(ms[n])
    requires s in ms[n].k.sems && ms[n].k.sems[s].queue != []
    ensures ms[n].k.sems[s].value == 0
    ensures forall i :: 0 <= i < |ms[n].q| ==> ms[n].q[i].value.kind == TimerInt
  {
    RunMachine(ms, es, respond, n);
    hide Inv, Next;
    HaltIsQuiescent(ms[n].k, s);
  }
}

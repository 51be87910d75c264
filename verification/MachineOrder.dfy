/** code/machine/interrupt.cc: in which order interrupts set for the same time fire, over
    every run of threads, devices, ticks and idle turns. */
module MachineOrder {
  import opened Lists
  import opened InterruptQueues
  import opened Kernels
  import opened KernelRuns
  import opened Machines

  // ----- one event -----

  /** What an event adds to the interrupts set for `w`. */
  function JoinedBy(m: Machine, m': Machine, e: Event, respond: Handlers, w: int): seq<Pending> {
    match e
    case ByThread(_) => []
    case Start(r) => if m.now + r.fromNow == w then [Pending(r.handler, r.arg, w, r.kind)] else []
    case Tick(_) => Joined(respond, m'.log, |m.log|, w)
    case IdleTurn => Joined(respond, m'.log, |m.log|, w)
  }

  /** A tick or an idle turn whose last look finds an interrupt set for `w` at the front of
      the list, too early. */
  predicate TurnedBy(m': Machine, e: Event, w: int) {
    (e.Tick? || e.IdleTurn?) && NextIs(m'.q, m'.now, w)
  }

  /** An event fires interrupts set for `w` in list order, puts new ones at the end, and turns
      them by one if it looks at them too early. */
  lemma StepAt(m: Machine, m': Machine, e: Event, respond: Handlers, w: int)
    requires MachineInv(m) && Machines.Next(m, m', e, respond)
    ensures m.log <= m'.log
    ensures FiredFrom(m'.log, |m.log|, w) + At(m'.q, w) ==
            TurnIf(At(m.q, w) + JoinedBy(m, m', e, respond, w), TurnedBy(m', e, w))
  {
    hide Drained, At, Joined, Inv, StepTo, LogOk, LogBehind, AllFrom, Add, WfQueue, AllV;
    match e
    case ByThread(_) => Unturned(At(m.q, w));
    case Start(r) =>
      AtAdd(m.q, Pending(r.handler, r.arg, m.now + r.fromNow, r.kind), w);
      Unturned(At(m'.q, w));
    case Tick(ticks) => AtDrained(m.q, m.log, m.now + ticks, respond, false, w);
    case IdleTurn => AtDrained(m.q, m.log, NextTime(m.q, m.now), respond, true, w);
  }

  lemma Unturned<T>(s: seq<T>)
    ensures TurnIf(s, false) == s && [] + s == s && s + [] == s
  {
  }

  // ----- runs -----

  /** The order of the interrupts set for `w`, starting from state `i`: fired and pending. */
  ghost function Order(ms: seq<Machine>, es: seq<Event>, respond: Handlers, w: int, i: nat, n: nat): seq<Pending>
    requires i <= n <= |es| < |ms|
  {
    if n == i then At(ms[i].q, w)
    else
      TurnIf(Order(ms, es, respond, w, i, n - 1) + JoinedBy(ms[n - 1], ms[n], es[n - 1], respond, w),
             TurnedBy(ms[n], es[n - 1], w))
  }

  lemma {:induction false} FiredSplit(log: seq<Fired>, log': seq<Fired>, n: nat, w: int)
    requires log <= log' && n <= |log|
    ensures FiredFrom(log', n, w) == FiredFrom(log, n, w) + FiredFrom(log', |log|, w)
    decreases |log| - n
  {
    if n < |log| {
      FiredSplit(log, log', n + 1, w);
      Associate(if log[n].what.when == w then [log[n].what] else [], FiredFrom(log, n + 1, w), FiredFrom(log', |log|, w));
    }
  }

  lemma {:induction false} NoneFired(log: seq<Fired>, n: nat, w: int)
    requires forall k :: n <= k < |log| ==> log[k].what.when < w
    ensures FiredFrom(log, n, w) == []
    decreases |log| - n
  {
    if n < |log| { NoneFired(log, n + 1, w); }
  }

  lemma NotBefore(m: Machine, n: nat, w: int)
    requires MachineInv(m) && m.now < w
    ensures FiredFrom(m.log, n, w) == []
  {
    forall k | n <= k < |m.log| ensures m.log[k].what.when < w {
      assert m.log[k].what.when <= m.log[|m.log| - 1].what.when;
    }
    NoneFired(m.log, n, w);
  }

  lemma RunStepAt(ms: seq<Machine>, es: seq<Event>, respond: Handlers, w: int, m: nat)
    requires MachineRun(ms, es, respond) && m < |es|
    ensures ms[m].log <= ms[m + 1].log && MachineInv(ms[m + 1])
    ensures FiredFrom(ms[m + 1].log, |ms[m].log|, w) + At(ms[m + 1].q, w) ==
            TurnIf(At(ms[m].q, w) + JoinedBy(ms[m], ms[m + 1], es[m], respond, w), TurnedBy(ms[m + 1], es[m], w))
  {
    hide MachineInv, Machines.Next;
    RunMachine(ms, es, respond, m);
    RunMachine(ms, es, respond, m + 1);
    StepAt(ms[m], ms[m + 1], es[m], respond, w);
  }

  /** In every run, what has fired of the interrupts set for `w` since state `i`, with what is
      pending of them, is in this order. */
  lemma {:induction false} OrderInRun(ms: seq<Machine>, es: seq<Event>, respond: Handlers, w: int, i: nat, n: nat)
    requires MachineRun(ms, es, respond) && i <= n <= |es|
    ensures ms[i].log <= ms[n].log
    ensures FiredFrom(ms[n].log, |ms[i].log|, w) + At(ms[n].q, w) == Order(ms, es, respond, w, i, n)
    decreases n
  {
    hide Machines.Next, Init, MachineInv, At, JoinedBy, TurnIf, FiredFrom;
    if i == n {
      NothingNew(ms[i].log, w);
    } else {
      OrderInRun(ms, es, respond, w, i, n - 1);
      RunStepAt(ms, es, respond, w, n - 1);
      FiredSplit(ms[n - 1].log, ms[n].log, |ms[i].log|, w);
      if TurnedBy(ms[n], es[n - 1], w) { NotBefore(ms[n], |ms[i].log|, w); }
      InFront(FiredFrom(ms[n - 1].log, |ms[i].log|, w), FiredFrom(ms[n].log, |ms[n - 1].log|, w), At(ms[n].q, w),
              At(ms[n - 1].q, w), JoinedBy(ms[n - 1], ms[n], es[n - 1], respond, w), TurnedBy(ms[n], es[n - 1], w));
    }
  }

  lemma NothingNew(log: seq<Fired>, w: int)
    ensures FiredFrom(log, |log|, w) == [] && forall s: seq<Pending> :: [] + s == s
  {
  }

  lemma InFront<T>(before: seq<T>, fired: seq<T>, left: seq<T>, was: seq<T>, joined: seq<T>, turn: bool)
    requires fired + left == TurnIf(was + joined, turn) && (turn ==> before + fired == [])
    ensures before + fired + left == TurnIf(before + was + joined, turn)
  {
    assert before + fired + left == before + (fired + left);
    assert before + was + joined == before + (was + joined);
    if turn { assert before + (was + joined) == was + joined; }
  }

  // ----- while nothing joins -----

  ghost predicate NothingJoins(ms: seq<Machine>, es: seq<Event>, respond: Handlers, w: int, i: nat, n: nat)
    requires i <= n <= |es| < |ms|
  {
    forall m :: i <= m < n ==> JoinedBy(ms[m], ms[m + 1], es[m], respond, w) == []
  }

  /** How many ticks and idle turns, from state `i` to state `n`, look at the interrupts set for
      `w` too early. */
  function EarlyLooks(ms: seq<Machine>, es: seq<Event>, w: int, i: nat, n: nat): nat
    requires i <= n <= |es| < |ms|
  {
    if n == i then 0 else EarlyLooks(ms, es, w, i, n - 1) + if TurnedBy(ms[n], es[n - 1], w) then 1 else 0
  }

  lemma NoTurn<T>(s: seq<T>)
    requires s != []
    ensures Rotated(s, Turn(0, |s|)) == s
  {
  }

  lemma {:induction false} TurnedOrder(ms: seq<Machine>, es: seq<Event>, respond: Handlers, w: int, i: nat, n: nat)
    requires i <= n <= |es| < |ms| && NothingJoins(ms, es, respond, w, i, n) && At(ms[i].q, w) != []
    ensures var s := At(ms[i].q, w);
      Order(ms, es, respond, w, i, n) == Rotated(s, Turn(EarlyLooks(ms, es, w, i, n), |s|))
    decreases n
  {
    hide At, JoinedBy, TurnedBy, NextTurn, TurnIf, Rotated;
    var s := At(ms[i].q, w);
    if n == i {
      NoTurn(s);
    } else {
      TurnedOrder(ms, es, respond, w, i, n - 1);
      assert JoinedBy(ms[n - 1], ms[n], es[n - 1], respond, w) == [];
      TurnMore(s, EarlyLooks(ms, es, w, i, n - 1), TurnedBy(ms[n], es[n - 1], w));
    }
  }

  /** In every run, while nothing joins them, the interrupts set for `w` are turned by the number
      of early looks, modulo how many they are, and once `w` is past they have fired in that order. */
  lemma FiresTurned(ms: seq<Machine>, es: seq<Event>, respond: Handlers, w: int, i: nat, n: nat)
    requires MachineRun(ms, es, respond) && i <= n <= |es|
    requires NothingJoins(ms, es, respond, w, i, n) && At(ms[i].q, w) != []
    ensures var s, c := At(ms[i].q, w), EarlyLooks(ms, es, w, i, n);
      && FiredFrom(ms[n].log, |ms[i].log|, w) + At(ms[n].q, w) == Rotated(s, c % |s|)
      && (ms[n].now < w ==> At(ms[n].q, w) == Rotated(s, c % |s|))
      && (ms[n].now > w ==> FiredFrom(ms[n].log, |ms[i].log|, w) == Rotated(s, c % |s|))
  {
    hide Machines.Next, Init, At, NothingJoins;
    var s, c := At(ms[i].q, w), EarlyLooks(ms, es, w, i, n);
    OrderInRun(ms, es, respond, w, i, n);
    TurnedOrder(ms, es, respond, w, i, n);
    TurnIsRemainder(c, |s|);
    RunMachine(ms, es, respond, n);
    if ms[n].now < w { NotBefore(ms[n], |ms[i].log|, w); }
    if ms[n].now > w { AtNone(ms[n].q, w); }
  }

  /** So they fire in the order they had exactly when that number is a multiple of how many
      they are.  The first is told apart from the others; between equal ones order means nothing. */
  lemma FiresInOrderExactly(ms: seq<Machine>, es: seq<Event>, respond: Handlers, w: int, i: nat, n: nat)
    requires MachineRun(ms, es, respond) && i <= n <= |es| && ms[n].now > w
    requires NothingJoins(ms, es, respond, w, i, n) && At(ms[i].q, w) != []
    requires forall k :: 1 <= k < |At(ms[i].q, w)| ==> At(ms[i].q, w)[k] != At(ms[i].q, w)[0]
    ensures FiredFrom(ms[n].log, |ms[i].log|, w) == At(ms[i].q, w) <==>
            EarlyLooks(ms, es, w, i, n) % |At(ms[i].q, w)| == 0
  {
    hide Machines.Next, Init, At, NothingJoins, FiredFrom;
    var s, c := At(ms[i].q, w), EarlyLooks(ms, es, w, i, n);
    FiresTurned(ms, es, respond, w, i, n);
    OnlyFullTurns(s, c % |s|);
  }

  // ----- a run that fires them in reverse -----

  /** Handlers that do nothing. */
  function Quiet(log: seq<Fired>, p: Pending): Reaction {
    Reaction([], [], false)
  }

  lemma {:induction false} QuietHandlers(log: seq<Fired>, n: nat)
    ensures Wakes(Quiet, log, n) == [] && !Asked(Quiet, log, n)
  {
    if |log| > n { QuietHandlers(log[..|log| - 1], n); }
  }

  /** A run goes on with one event. */
  lemma More(ms: seq<Machine>, es: seq<Event>, e: Event, m: Machine)
    requires MachineRun(ms, es, Quiet) && |ms| == |es| + 1 && Machines.Next(ms[|es|], m, e, Quiet)
    ensures MachineRun(ms + [m], es + [e], Quiet)
  {
    hide Machines.Next, Init;
    var ms', es' := ms + [m], es + [e];
    forall i | 0 <= i < |es'| ensures Machines.Next(ms'[i], ms'[i + 1], es'[i], Quiet) {
      if i < |es| { assert Machines.Next(ms[i], ms[i + 1], es[i], Quiet); }
    }
  }

  /** A system tick with such handlers: the drain, and nothing else. */
  lemma QuietTick(m: Machine, q: Queue, log: seq<Fired>) returns (m': Machine)
    requires Placed(m.k) && m.k.phase == Active && WfQueue(m.q)
    requires (q, log) == Drained(m.q, m.log, m.now + SYSTEM_TICK, Quiet, false)
    ensures m' == m.(q := q, log := log, now := m.now + SYSTEM_TICK, system := m.system + SYSTEM_TICK)
    ensures Machines.Next(m, m', Tick(SYSTEM_TICK), Quiet)
  {
    hide Drained, Placed, WfQueue;
    m' := m.(q := q, log := log, now := m.now + SYSTEM_TICK, system := m.system + SYSTEM_TICK);
    QuietHandlers(log, |m.log|);
    assert TickThrough(m, SYSTEM_TICK, Quiet, m.k, m');
  }

  lemma QuietDrain(q: Queue, log: seq<Fired>, now: int)
    requires WfQueue(q) && q != []
    ensures now < q[0].value.when ==> Drained(q, log, now, Quiet, false) == (PutBack(q), log)
    ensures q[0].value.when <= now ==>
      && WfQueue(q[1..])
      && Drained(q, log, now, Quiet, false) == Drained(q[1..], log + [Fired(q[0].value, now)], now, Quiet, false)
  {
    DrainedOnce(q, log, now, Quiet, false);
  }

  /** `x` is set for 15, `a` and `b` for 25. */
  function Late(): (Item<Pending>, Item<Pending>, Item<Pending>) {
    (Item(Pending(1, 0, 15, DiskInt), 15), Item(Pending(2, 0, 25, DiskInt), 25), Item(Pending(3, 0, 25, DiskInt), 25))
  }

  lemma LateAdds()
    ensures var (x, a, b) := Late();
      Add([], x.value) == [x] && Add([x], a.value) == [x, a] && Add([x, a], b.value) == [x, a, b]
  {
    hide InsertAt;
    var (x, a, b) := Late();
    InsertAtUnique<Pending>([], 15, 0);
    InsertAtUnique([x], 25, 1);
    InsertAtUnique([x, a], 25, 2);
  }

  lemma LateWf()
    ensures var (x, a, b) := Late(); WfQueue([x, a, b]) && WfQueue([a, b]) && WfQueue([b, a]) && WfQueue([a])
  {
  }

  lemma LatePutBacks()
    ensures var (x, a, b) := Late(); PutBack([x, a, b]) == [x, a, b] && PutBack([a, b]) == [b, a]
  {
    hide InsertAt;
    var (x, a, b) := Late();
    InsertAtUnique([a, b], 15, 0);
    InsertAtUnique([b], 25, 1);
    assert [x, a, b][1..] == [a, b] && [a, b][1..] == [b];
  }

  /** What the ticks at 10, 20 and 30 make of them. */
  lemma LateDrains()
    ensures var (x, a, b) := Late(); var log := [Fired(x.value, 20)];
      && WfQueue([x, a, b]) && WfQueue([b, a])
      && Drained([x, a, b], [], 10, Quiet, false) == ([x, a, b], [])
      && Drained([x, a, b], [], 20, Quiet, false) == ([b, a], log)
      && Drained([b, a], log, 30, Quiet, false) == ([], log + [Fired(b.value, 30), Fired(a.value, 30)])
  {
    hide Drained, PutBack, WfQueue;
    var (x, a, b) := Late();
    var log := [Fired(x.value, 20)];
    LateWf();
    LatePutBacks();
    QuietDrain([x, a, b], [], 10);
    QuietDrain([x, a, b], [], 20);
    assert [x, a, b][1..] == [a, b] && [] + log == log;
    QuietDrain([a, b], log, 20);
    QuietDrain([b, a], log, 30);
    assert [b, a][1..] == [a] && [a][1..] == [];
    QuietDrain([a], log + [Fired(b.value, 30)], 30);
    var end := log + [Fired(b.value, 30)] + [Fired(a.value, 30)];
    assert WfQueue([a][1..]) && end == log + [Fired(b.value, 30), Fired(a.value, 30)];
    DrainedOnce([a][1..], end, 30, Quiet, false);
  }

  /** Three devices are started at time 0, and the clock ticks three times.  The two set for 25
      are looked at once too early, at 20, when the first one is gone; they fire in reverse,
      although two ticks come before their time. */
  lemma NoFifoAmongEquals(k: Kernel) returns (ms: seq<Machine>, es: seq<Event>)
    requires Init(k)
    ensures |es| == 6 && |ms| == 7 && MachineRun(ms, es, Quiet)
    ensures var (x, a, b) := Late();
      && ms[3].q == [x, a, b]
      && ms[6].log == [Fired(x.value, 20), Fired(b.value, 30), Fired(a.value, 30)]
      && EarlyLooks(ms, es, 25, 3, 6) == 1
  {
    hide Drained, Init, MachineRun, Machines.Next, Placed, WfQueue, EarlyLooks, Quiet;
    var (x, a, b) := Late();
    LateDrains();
    ActiveInit(k);
    ms, es := ThreeStarted(k);
    var m4 := QuietTick(ms[3], [x, a, b], []);
    More(ms, es, Tick(SYSTEM_TICK), m4);
    ms, es := ms + [m4], es + [Tick(SYSTEM_TICK)];
    var m5 := QuietTick(m4, [b, a], [Fired(x.value, 20)]);
    More(ms, es, Tick(SYSTEM_TICK), m5);
    ms, es := ms + [m5], es + [Tick(SYSTEM_TICK)];
    assert [Fired(x.value, 20)] + [Fired(b.value, 30), Fired(a.value, 30)]
        == [Fired(x.value, 20), Fired(b.value, 30), Fired(a.value, 30)];
    var m6 := QuietTick(m5, [], [Fired(x.value, 20), Fired(b.value, 30), Fired(a.value, 30)]);
    More(ms, es, Tick(SYSTEM_TICK), m6);
    ms, es := ms + [m6], es + [Tick(SYSTEM_TICK)];
    LookedOnce(ms, es);
  }

  lemma ActiveInit(k: Kernel)
    requires Init(k)
    ensures Placed(k) && k.phase == Active
  {
    InitInv(k);
  }

  lemma ThreeStarted(k: Kernel) returns (ms: seq<Machine>, es: seq<Event>)
    requires Init(k)
    ensures |es| == 3 && |ms| == 4 && MachineRun(ms, es, Quiet)
    ensures var (x, a, b) := Late(); ms[3] == Machine(k, [x, a, b], [], 0, 0, 0, 0)
  {
    ActiveInit(k);
    LateAdds();
    var (x, a, b) := Late();
    var m := Machine(k, [], [], 0, 0, 0, 0);
    hide Add, Placed, WfQueue, PutBack;
    ms := [m, m.(q := [x]), m.(q := [x, a]), m.(q := [x, a, b])];
    es := [Start(Request(1, 0, 15, DiskInt)), Start(Request(2, 0, 25, DiskInt)), Start(Request(3, 0, 25, DiskInt))];
    assert Machines.Next(ms[0], ms[1], es[0], Quiet);
    assert Machines.Next(ms[1], ms[2], es[1], Quiet);
    assert Machines.Next(ms[2], ms[3], es[2], Quiet);
  }

  lemma LookedOnce(ms: seq<Machine>, es: seq<Event>)
    requires |es| == 6 < |ms| && es[3].Tick? && es[4].Tick? && es[5].Tick?
    requires !NextIs(ms[4].q, ms[4].now, 25) && NextIs(ms[5].q, ms[5].now, 25) && !NextIs(ms[6].q, ms[6].now, 25)
    ensures EarlyLooks(ms, es, 25, 3, 6) == 1
  {
    assert EarlyLooks(ms, es, 25, 3, 4) == 0;
    assert EarlyLooks(ms, es, 25, 3, 5) == 1;
  }
}

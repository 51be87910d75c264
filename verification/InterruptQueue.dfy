/** code/machine/interrupt.cc: the interrupts pending on simulated time, as values: the
    order of the list, what a tick fires, and the record of what fired. */
module InterruptQueues {
  import opened Lists

  const USER_TICK: int := 1
  const SYSTEM_TICK: int := 10

  datatype IntStatus = IntOff | IntOn
  datatype MachineStatus = IdleMode | SystemMode | UserMode
  datatype IntType =
    | TimerInt | DiskInt | ConsoleWriteInt | ConsoleReadInt | ElevatorInt | NetworkSendInt | NetworkRecvInt

  /** An interrupt that will occur at time `when`. */
  datatype Pending = Pending(handler: int, arg: int, when: int, kind: IntType)

  /** An interrupt that occurred, and when its handler ran. */
  datatype Fired = Fired(what: Pending, at: int)

  /** The delay a device asks for: positive, or Schedule refuses it. */
  type Delay = x: int | x > 0 witness 1

  datatype Request = Request(handler: int, arg: int, fromNow: Delay, kind: IntType)

  /** What a handler does that matters here: it schedules interrupts, it calls V on
      semaphores, and it may ask for a context switch.  Handlers run with interrupts
      disabled and never tick. */
  datatype Reaction = Reaction(requests: seq<Request>, wakes: seq<nat>, wantsYield: bool)

  /** Any handlers at all: what they do may depend on everything that fired so far. */
  type Handlers = (seq<Fired>, Pending) -> Reaction

  type Queue = seq<Item<Pending>>

  // ----- the pending list -----

  ghost predicate WfQueue(q: Queue) {
    Sorted(q) && forall i :: 0 <= i < |q| ==> q[i].key == q[i].value.when
  }

  ghost predicate AllFrom(q: Queue, t: int) {
    forall i :: 0 <= i < |q| ==> t <= q[i].value.when
  }

  function Add(q: Queue, p: Pending): (r: Queue) {
    Inserted(q, Item(p, p.when))
  }

  /** The list after scheduling each request in turn at time `now`. */
  function AddAll(q: Queue, rs: seq<Request>, now: int): (r: Queue)
    decreases rs
  {
    if rs == [] then q
    else AddAll(Add(q, Pending(rs[0].handler, rs[0].arg, now + rs[0].fromNow, rs[0].kind)), rs[1..], now)
  }

  lemma AddAllStep(q: Queue, rs: seq<Request>, now: int)
    ensures rs == [] ==> AddAll(q, rs, now) == q
    ensures rs != [] ==>
      var p := Pending(rs[0].handler, rs[0].arg, now + rs[0].fromNow, rs[0].kind);
      AddAll(q, rs, now) == AddAll(Add(q, p), rs[1..], now)
  {
  }

  /** How many interrupts are due at time `t`. */
  function Due(q: Queue, t: int): (n: nat) {
    if q == [] then 0 else (if q[0].value.when <= t then 1 else 0) + Due(q[1..], t)
  }

  lemma {:induction false} DueAppend(a: Queue, b: Queue, t: int)
    ensures Due(a + b, t) == Due(a, t) + Due(b, t)
  {
    if a == [] {
      assert a + b == b;
    } else {
      DueAppend(a[1..], b, t);
      assert (a + b)[1..] == a[1..] + b;
    }
  }

  lemma AddDue(q: Queue, p: Pending, t: int)
    ensures Due(Add(q, p), t) == Due(q, t) + if p.when <= t then 1 else 0
  {
    hide InsertAt;
    var x := Item(p, p.when);
    var i := InsertAt(q, x.key);
    DueAppend(q[..i] + [x], q[i..], t);
    DueAppend(q[..i], [x], t);
    DueAppend(q[..i], q[i..], t);
    assert q[..i] + q[i..] == q;
  }

  lemma AddFacts(q: Queue, p: Pending, t: int)
    requires WfQueue(q)
    ensures WfQueue(Add(q, p))
    ensures AllFrom(q, t) && t <= p.when ==> AllFrom(Add(q, p), t)
    ensures Due(Add(q, p), t) == Due(q, t) + if p.when <= t then 1 else 0
  {
    hide InsertAt, Due;
    InsertedSorted(q, Item(p, p.when));
    AddDue(q, p, t);
  }

  lemma {:induction false} AddAllFacts(q: Queue, rs: seq<Request>, now: int, t: int)
    requires WfQueue(q) && AllFrom(q, t) && t <= now
    ensures WfQueue(AddAll(q, rs, now)) && AllFrom(AddAll(q, rs, now), t)
    ensures Due(AddAll(q, rs, now), now) == Due(q, now)
    decreases rs
  {
    if rs != [] {
      var p := Pending(rs[0].handler, rs[0].arg, now + rs[0].fromNow, rs[0].kind);
      AddFacts(q, p, t);
      AddFacts(q, p, now);
      AddAllFacts(Add(q, p), rs[1..], now, t);
    }
  }

  /** The front interrupt taken off and inserted again. */
  function PutBack(q: Queue): (r: Queue)
    requires q != []
  {
    Inserted(q[1..], q[0])
  }

  lemma PutBackFacts(q: Queue, t: int)
    requires WfQueue(q) && q != []
    ensures WfQueue(PutBack(q)) && (AllFrom(q, t) ==> AllFrom(PutBack(q), t))
    ensures Due(PutBack(q), t) == Due(q, t) && |PutBack(q)| == |q|
  {
    AddFacts(q[1..], q[0].value, t);
  }

  lemma NothingDue(q: Queue, t: int)
    requires WfQueue(q)
    ensures Due(q, t) == 0 <==> (q == [] || t < q[0].value.when)
    ensures Due(q, t) == 0 <==> AllFrom(q, t + 1)
  {
    if q != [] && t < q[0].value.when {
      assert AllFrom(q, t + 1);
    }
    DueZero(q, t);
  }

  lemma {:induction false} DueZero(q: Queue, t: int)
    ensures Due(q, t) == 0 <==> AllFrom(q, t + 1)
  {
    if q != [] {
      DueZero(q[1..], t);
      assert AllFrom(q, t + 1) <==> t < q[0].value.when && AllFrom(q[1..], t + 1) by {
        if AllFrom(q, t + 1) {
          assert forall i :: 0 <= i < |q[1..]| ==> q[1..][i] == q[i + 1];
        }
        if t < q[0].value.when && AllFrom(q[1..], t + 1) {
          forall i | 0 <= i < |q| ensures t + 1 <= q[i].value.when {
            if i > 0 { assert q[i] == q[1..][i - 1]; }
          }
        }
      }
    }
  }

  // ----- the log of what fired -----

  /** Interrupts fired in order of their times, never early, and never more than
      one system tick late. */
  ghost predicate LogOk(log: seq<Fired>) {
    && (forall i :: 0 <= i < |log| ==> log[i].what.when <= log[i].at <= log[i].what.when + SYSTEM_TICK)
    && (forall i, j :: 0 <= i < j < |log| ==> log[i].what.when <= log[j].what.when)
  }

  /** Nothing pending, and nothing a handler could still ask for at time `now`, comes
      before what already fired. */
  ghost predicate LogBehind(log: seq<Fired>, q: Queue, now: int) {
    log != [] ==> log[|log| - 1].what.when <= now && AllFrom(q, log[|log| - 1].what.when)
  }

  lemma LogFire(log: seq<Fired>, q: Queue, now: int, at: int)
    requires LogOk(log) && WfQueue(q) && q != [] && LogBehind(log, q, now)
    requires q[0].value.when <= at <= q[0].value.when + SYSTEM_TICK
    ensures LogOk(log + [Fired(q[0].value, at)])
    ensures LogBehind(log + [Fired(q[0].value, at)], q[1..], at)
  {
    var log' := log + [Fired(q[0].value, at)];
    assert AllFrom(q[1..], q[0].value.when);
    forall i, j | 0 <= i < j < |log'| ensures log'[i].what.when <= log'[j].what.when {
      if j == |log| {
        assert log[i].what.when <= log[|log| - 1].what.when;
      }
    }
  }

  /** Whether a handler asked for a context switch since the log had `n` entries. */
  function Asked(respond: Handlers, log: seq<Fired>, n: nat): bool {
    |log| > n && (respond(log, log[|log| - 1].what).wantsYield || Asked(respond, log[..|log| - 1], n))
  }

  lemma AskedStep(respond: Handlers, log: seq<Fired>, f: Fired, n: nat)
    requires n <= |log|
    ensures Asked(respond, log + [f], n) == (respond(log + [f], f.what).wantsYield || Asked(respond, log, n))
  {
    assert (log + [f])[..|log|] == log;
  }

  lemma NotAsked(respond: Handlers, log: seq<Fired>)
    ensures !Asked(respond, log, |log|)
  {
  }

  // ----- a tick -----

  /** Nothing but the timer is pending on an idle machine: nothing more will happen. */
  predicate LoneTimer(q: Queue, idle: bool) {
    idle && |q| == 1 && q[0].value.kind == TimerInt
  }

  /** Whether a look at the list fires its front: it is due, and it is not the timer left
      alone on an idle machine. */
  predicate CanFire(q: Queue, now: int, idle: bool) {
    q != [] && q[0].value.when <= now && !LoneTimer(q, idle)
  }

  /** The front fires exactly when its time has come, unless it is a timer and nothing else is
      pending on an idle machine. */
  lemma CanFireExactly(q: Queue, now: int, idle: bool)
    ensures CanFire(q, now, idle) <==>
            |q| > 0 && q[0].value.when <= now && !(idle && |q| == 1 && q[0].value.kind == TimerInt)
  {
  }

  /** The list after its front has fired at time `now` and its handler has run. */
  function AfterFire(q: Queue, log: seq<Fired>, now: int, respond: Handlers): Queue
    requires q != []
  {
    AddAll(q[1..], respond(log + [Fired(q[0].value, now)], q[0].value).requests, now)
  }

  lemma AfterFireFacts(q: Queue, log: seq<Fired>, now: int, respond: Handlers, from: int)
    requires WfQueue(q) && q != [] && q[0].value.when <= now && from <= now && AllFrom(q, from)
    ensures WfQueue(AfterFire(q, log, now, respond)) && AllFrom(AfterFire(q, log, now, respond), from)
    ensures Due(AfterFire(q, log, now, respond), now) == Due(q, now) - 1
  {
    AddAllFacts(q[1..], respond(log + [Fired(q[0].value, now)], q[0].value).requests, now, from);
  }

  /** What firing until nothing is due makes of the list and the log.  New interrupts lie in
      the future, so it ends; the last look puts an interrupt that is not due back in. */
  ghost function Drained(q: Queue, log: seq<Fired>, now: int, respond: Handlers, idle: bool): (Queue, seq<Fired>)
    requires WfQueue(q)
    decreases Due(q, now)
  {
    if CanFire(q, now, idle) then
      AfterFireFacts(q, log, now, respond, q[0].value.when);
      Drained(AfterFire(q, log, now, respond), log + [Fired(q[0].value, now)], now, respond, idle)
    else (if q == [] then [] else PutBack(q), log)
  }

  /** Afterwards the list is in order and nothing is due, unless it is the lone timer. */
  lemma {:induction false} DrainedFacts(q: Queue, log: seq<Fired>, now: int, respond: Handlers, idle: bool, from: int)
    requires WfQueue(q) && AllFrom(q, from) && from <= now
    ensures var r := Drained(q, log, now, respond, idle);
      && WfQueue(r.0) && AllFrom(r.0, from) && log <= r.1
      && (Due(r.0, now) == 0 || LoneTimer(r.0, idle))
    decreases Due(q, now)
  {
    hide AfterFire, PutBack;
    if CanFire(q, now, idle) {
      AfterFireFacts(q, log, now, respond, from);
      DrainedFacts(AfterFire(q, log, now, respond), log + [Fired(q[0].value, now)], now, respond, idle, from);
    } else if q != [] {
      PutBackFacts(q, from);
      PutBackFacts(q, now);
      NothingDue(q, now);
      if LoneTimer(q, idle) { PutBackOne(q); }
    }
  }

  lemma PutBackOne(q: Queue)
    requires |q| == 1
    ensures PutBack(q) == q
  {
  }

  /** The time an idle machine jumps to. */
  function NextTime(q: Queue, now: int): int {
    if q != [] && q[0].value.when > now then q[0].value.when else now
  }

  // ----- what a tick fires -----

  function FiredAll(q: Queue, at: int): (f: seq<Fired>)
    ensures |f| == |q| && forall i :: 0 <= i < |q| ==> f[i] == Fired(q[i].value, at)
  {
    seq(|q|, i requires 0 <= i < |q| => Fired(q[i].value, at))
  }

  lemma {:induction false} DueBound(q: Queue, t: int)
    ensures Due(q, t) <= |q|
  {
    if q != [] { DueBound(q[1..], t); }
  }

  /** The front of a sorted list is what is due. */
  lemma {:induction false} DuePrefix(q: Queue, t: int, i: nat)
    requires WfQueue(q) && i < |q|
    ensures i < Due(q, t) <==> q[i].value.when <= t
  {
    if i == 0 {
      NothingDue(q, t);
    } else if q[0].value.when <= t {
      DuePrefix(q[1..], t, i - 1);
    } else {
      NothingDue(q, t);
      assert q[0].key <= q[i].key;
    }
  }

  /** Scheduling for later leaves what is due where it is. */
  lemma AddPrefix(q: Queue, p: Pending, t: int)
    requires WfQueue(q) && t < p.when && Due(q, t) <= |q|
    ensures Due(Add(q, p), t) == Due(q, t) && |Add(q, p)| == |q| + 1 && Add(q, p)[..Due(q, t)] == q[..Due(q, t)]
  {
    AddFacts(q, p, t);
    var i, n := InsertAt(q, p.when), Due(q, t);
    if i < n { DuePrefix(q, t, i); }
  }

  lemma {:induction false} AddAllPrefix(q: Queue, rs: seq<Request>, now: int)
    requires WfQueue(q) && Due(q, now) <= |q|
    ensures Due(q, now) <= |AddAll(q, rs, now)| && AddAll(q, rs, now)[..Due(q, now)] == q[..Due(q, now)]
    decreases rs
  {
    if rs != [] {
      hide Due;
      var p := Pending(rs[0].handler, rs[0].arg, now + rs[0].fromNow, rs[0].kind);
      AddPrefix(q, p, now);
      AddFacts(q, p, now);
      AddAllPrefix(Add(q, p), rs[1..], now);
    }
  }

  /** Firing the front leaves the rest of what is due at the front. */
  lemma AfterFireDue(q: Queue, log: seq<Fired>, now: int, respond: Handlers)
    requires WfQueue(q) && CanFire(q, now, false)
    ensures var q', n := AfterFire(q, log, now, respond), Due(q, now);
      WfQueue(q') && 0 < n <= |q| && Due(q', now) == n - 1 <= |q'| && q'[..n - 1] == q[1..n]
  {
    AfterFireFacts(q, log, now, respond, q[0].value.when);
    DueBound(q, now);
    DueBound(q[1..], now);
    assert Due(q, now) == 1 + Due(q[1..], now) && WfQueue(q[1..]);
    hide Due, AddAll, WfQueue, AllFrom;
    DueBound(AfterFire(q, log, now, respond), now);
    AddAllPrefix(q[1..], respond(log + [Fired(q[0].value, now)], q[0].value).requests, now);
    assert q[1..][..Due(q, now) - 1] == q[1..Due(q, now)];
  }

  lemma DrainedOnce(q: Queue, log: seq<Fired>, now: int, respond: Handlers, idle: bool)
    requires WfQueue(q)
    ensures CanFire(q, now, idle) ==>
      && WfQueue(AfterFire(q, log, now, respond))
      && Drained(q, log, now, respond, idle) ==
         Drained(AfterFire(q, log, now, respond), log + [Fired(q[0].value, now)], now, respond, idle)
    ensures !CanFire(q, now, idle) ==> Drained(q, log, now, respond, idle) == (if q == [] then [] else PutBack(q), log)
  {
    if CanFire(q, now, idle) { AfterFireFacts(q, log, now, respond, q[0].value.when); }
  }

  /** A tick fires exactly what is due, in the order of the list, whatever the handlers do. */
  lemma {:induction false} FiresDue(q: Queue, log: seq<Fired>, now: int, respond: Handlers)
    requires WfQueue(q) && Due(q, now) <= |q|
    ensures Drained(q, log, now, respond, false).1 == log + FiredAll(q[..Due(q, now)], now)
    decreases Due(q, now)
  {
    NothingDue(q, now);
    DrainedOnce(q, log, now, respond, false);
    hide FiredAll, Drained, AfterFire, Due, WfQueue;
    var n := Due(q, now);
    if !CanFire(q, now, false) {
      FiredNone(log, q[..n], now);
    } else {
      AfterFireDue(q, log, now, respond);
      FiresDue(AfterFire(q, log, now, respond), log + [Fired(q[0].value, now)], now, respond);
      FiredFront(q, n, now);
      Regroup(log, Fired(q[0].value, now), FiredAll(q[1..n], now));
    }
  }

  lemma FiredNone(log: seq<Fired>, q: Queue, now: int)
    requires |q| == 0
    ensures log + FiredAll(q, now) == log
  {
  }

  lemma Regroup<T>(a: seq<T>, x: T, b: seq<T>)
    ensures a + [x] + b == a + ([x] + b)
  {
  }

  lemma FiredFront(q: Queue, n: nat, now: int)
    requires 0 < n <= |q|
    ensures FiredAll(q[..n], now) == [Fired(q[0].value, now)] + FiredAll(q[1..n], now)
  {
  }

  // ----- interrupts set for the same time -----

  /** How many interrupts are set for the earliest time. */
  function Group(q: Queue): nat
    requires q != []
  {
    InsertAt(q, q[0].key)
  }

  /** `s` with its first `r` moved to the end. */
  function Rotated<T>(s: seq<T>, r: nat): (t: seq<T>)
    requires r <= |s|
    ensures |t| == |s|
  {
    s[r..] + s[..r]
  }

  /** A look that comes too early moves the front behind the others set for its time. */
  lemma PutBackRotates(q: Queue)
    requires WfQueue(q) && q != []
    ensures var j := Group(q); 1 <= j <= |q| && PutBack(q) == Rotated(q[..j], 1) + q[j..]
    ensures forall i :: 0 <= i < Group(q) ==> q[i].key == q[0].key
  {
    var j := Group(q);
    InsertAtUnique(q[1..], q[0].key, j - 1);
    forall i | 0 <= i < j ensures q[i].key == q[0].key {
      assert i == 0 || q[0].key <= q[i].key;
    }
  }

  /** The list after `m` looks that came too early. */
  function Looks(q: Queue, m: nat): (r: Queue)
    requires q != []
    decreases m
  {
    if m == 0 then q else Looks(PutBack(q), m - 1)
  }

  /** How far `m` early looks turn a group of `j`. */
  function Turn(m: nat, j: nat): (r: nat)
    requires j > 0
    ensures r < j
  {
    if m == 0 then 0 else NextTurn(Turn(m - 1, j), j)
  }

  function NextTurn(r: nat, j: nat): (t: nat)
    requires r < j
    ensures t < j
  {
    if r + 1 == j then 0 else r + 1
  }

  lemma RotateTwice<T>(s: seq<T>, r: nat)
    requires r < |s|
    ensures Rotated(Rotated(s, 1), r) == Rotated(s, NextTurn(r, |s|))
  {
    var t := Rotated(s, 1);
    assert t == s[1..] + [s[0]];
    if r + 1 == |s| {
      assert t[r..] == [s[0]] && t[..r] == s[1..] && s == [s[0]] + s[1..] == Rotated(s, 0);
    } else {
      assert t[r..] == s[r + 1..] + [s[0]] && t[..r] == s[1..r + 1] && s[..r + 1] == [s[0]] + s[1..r + 1];
      Associate(s[r + 1..], [s[0]], s[1..r + 1]);
    }
  }

  lemma Associate<T>(a: seq<T>, b: seq<T>, c: seq<T>)
    ensures (a + b) + c == a + (b + c)
  {
  }

  /** An early look leaves a group of the same size at the front. */
  lemma PutBackGroup(q: Queue)
    requires WfQueue(q) && q != []
    ensures var j, p := Group(q), PutBack(q);
      && WfQueue(p) && 1 <= j <= |q| == |p| && Group(p) == j && p[0].value.when == q[0].value.when
      && p[..j] == Rotated(q[..j], 1) && p[j..] == q[j..]
  {
    PutBackFacts(q, 0);
    PutBackRotates(q);
    var j, p := Group(q), PutBack(q);
    forall i | 0 <= i < j ensures p[i].key == q[0].key {
      assert p[i] == if i == j - 1 then q[0] else q[i + 1];
    }
    InsertAtUnique(p, p[0].key, j);
  }

  lemma RotateNone(q: Queue, j: nat)
    requires j <= |q|
    ensures Rotated(q[..j], 0) + q[j..] == q
  {
  }

  lemma {:induction false} LooksRotate(q: Queue, m: nat)
    requires WfQueue(q) && q != []
    ensures var j := Group(q);
      1 <= j <= |q| && WfQueue(Looks(q, m)) && Looks(q, m) == Rotated(q[..j], Turn(m, j)) + q[j..]
    decreases m
  {
    hide WfQueue, Rotated, PutBack, Group, NextTurn;
    PutBackGroup(q);
    var j, p := Group(q), PutBack(q);
    if m > 0 {
      LooksRotate(p, m - 1);
      RotateTwice(q[..j], Turn(m - 1, j));
    } else {
      RotateNone(q, j);
    }
  }

  /** The turn is the remainder. */
  lemma {:induction false} TurnIsRemainder(m: nat, j: nat)
    requires j > 0
    ensures Turn(m, j) == m % j
  {
    var c := Turns(m, j);
    RemainderUnique(m, j, c, Turn(m, j));
  }

  lemma {:induction false} Turns(m: nat, j: nat) returns (c: nat)
    requires j > 0
    ensures m == c * j + Turn(m, j)
  {
    if m == 0 {
      c := 0;
    } else {
      var b := Turns(m - 1, j);
      c := if NextTurn(Turn(m - 1, j), j) == 0 then b + 1 else b;
      assert (b + 1) * j == b * j + j;
    }
  }

  lemma RemainderUnique(x: nat, j: nat, c: nat, r: nat)
    requires r < j && x == c * j + r
    ensures x % j == r
  {
    var d := c - x / j;
    assert d * j == c * j - (x / j) * j;
    assert x == (x / j) * j + x % j;
    FarMultiples(d, j);
  }

  lemma FarMultiples(d: int, j: int)
    requires j > 0
    ensures (d >= 1 ==> d * j >= j) && (d <= -1 ==> d * j <= -j)
  {
    assert d * j == j + (d - 1) * j == -j + (d + 1) * j;
  }

  // ----- the interrupts set for one time, anywhere on the list -----

  /** The interrupts set for time `w`, in list order. */
  function At(q: Queue, w: int): (s: seq<Pending>) {
    if q == [] then [] else (if q[0].value.when == w then [q[0].value] else []) + At(q[1..], w)
  }

  lemma {:induction false} AtConcat(a: Queue, b: Queue, w: int)
    ensures At(a + b, w) == At(a, w) + At(b, w)
  {
    if a == [] {
      assert a + b == b && [] + At(b, w) == At(b, w);
    } else {
      AtConcat(a[1..], b, w);
      assert (a + b)[0] == a[0] && (a + b)[1..] == a[1..] + b;
      Associate(if a[0].value.when == w then [a[0].value] else [], At(a[1..], w), At(b, w));
    }
  }

  lemma {:induction false} AtNone(q: Queue, w: int)
    requires forall i :: 0 <= i < |q| ==> q[i].value.when != w
    ensures At(q, w) == []
  {
    if q != [] { AtNone(q[1..], w); }
  }

  /** A new interrupt goes behind the others set for its time and leaves every other time alone. */
  lemma AtAdd(q: Queue, p: Pending, w: int)
    requires WfQueue(q)
    ensures At(Add(q, p), w) == At(q, w) + if p.when == w then [p] else []
  {
    var x := Item(p, p.when);
    var i := InsertAt(q, p.when);
    AtConcat(q[..i] + [x], q[i..], w);
    AtConcat(q[..i], [x], w);
    AtConcat(q[..i], q[i..], w);
    assert q[..i] + q[i..] == q && [x][1..] == [];
    if p.when == w { AtBehind(q, i, w); }
  }

  lemma AtBehind(q: Queue, i: nat, w: int)
    requires WfQueue(q) && i <= |q| && (i < |q| ==> w < q[i].key)
    ensures At(q[i..], w) == []
  {
    forall j | 0 <= j < |q[i..]| ensures q[i..][j].value.when != w {
      assert j == 0 || q[i].key <= q[i + j].key;
    }
    AtNone(q[i..], w);
  }

  /** What a handler that runs at time `now` asks for at time `w`. */
  function AskedFor(rs: seq<Request>, now: int, w: int): seq<Pending> {
    if rs == [] then []
    else
      (if now + rs[0].fromNow == w then [Pending(rs[0].handler, rs[0].arg, w, rs[0].kind)] else [])
      + AskedFor(rs[1..], now, w)
  }

  lemma {:induction false} AtAddAll(q: Queue, rs: seq<Request>, now: int, w: int)
    requires WfQueue(q)
    ensures At(AddAll(q, rs, now), w) == At(q, w) + AskedFor(rs, now, w)
    decreases rs
  {
    hide At, Add, AddAll, WfQueue;
    AddAllStep(q, rs, now);
    if rs == [] {
      assert At(q, w) + [] == At(q, w);
    } else {
      var p := Pending(rs[0].handler, rs[0].arg, now + rs[0].fromNow, rs[0].kind);
      AtAdd(q, p, w);
      AddFacts(q, p, 0);
      AtAddAll(Add(q, p), rs[1..], now, w);
      Associate(At(q, w), if p.when == w then [p] else [], AskedFor(rs[1..], now, w));
    }
  }

  /** What joined the interrupts set for `w` since the log had `n` entries. */
  function Joined(respond: Handlers, log: seq<Fired>, n: nat, w: int): seq<Pending>
    decreases |log| - n
  {
    if n >= |log| then []
    else AskedFor(respond(log[..n + 1], log[n].what).requests, log[n].at, w) + Joined(respond, log, n + 1, w)
  }

  /** The interrupts set for `w` that fired since the log had `n` entries, in order. */
  function FiredFrom(log: seq<Fired>, n: nat, w: int): seq<Pending>
    decreases |log| - n
  {
    if n >= |log| then []
    else (if log[n].what.when == w then [log[n].what] else []) + FiredFrom(log, n + 1, w)
  }

  /** Whether the next to fire is set for `w`, which is still to come. */
  predicate NextIs(q: Queue, now: int, w: int) {
    now < w && q != [] && q[0].value.when == w
  }

  function TurnIf<T>(s: seq<T>, turn: bool): seq<T> {
    if turn && s != [] then Rotated(s, 1) else s
  }

  /** A look that does not fire turns the interrupts set for the front's time by one. */
  lemma AtPutBack(q: Queue, w: int)
    requires WfQueue(q) && q != []
    ensures PutBack(q) != [] && PutBack(q)[0].value.when == q[0].value.when
    ensures At(PutBack(q), w) == TurnIf(At(q, w), q[0].value.when == w)
  {
    PutBackGroup(q);
    AtAdd(q[1..], q[0].value, w);
    assert PutBack(q) == Add(q[1..], q[0].value);
  }

  /** What a drain does to the interrupts set for `w`: they fire in list order; those that
      handlers ask for go to the end; and when they are next but not yet due, the last look
      turns them by one. */
  lemma {:induction false} AtDrained(q: Queue, log: seq<Fired>, now: int, respond: Handlers, idle: bool, w: int)
    requires WfQueue(q)
    ensures var r := Drained(q, log, now, respond, idle);
      && log <= r.1
      && FiredFrom(r.1, |log|, w) + At(r.0, w) ==
         TurnIf(At(q, w) + Joined(respond, r.1, |log|, w), NextIs(r.0, now, w))
    decreases Due(q, now)
  {
    DrainedOnce(q, log, now, respond, idle);
    var r := Drained(q, log, now, respond, idle);
    hide Drained, AfterFire, WfQueue, At, AskedFor, Joined, FiredFrom, TurnIf, Due;
    if CanFire(q, now, idle) {
      var f := Fired(q[0].value, now);
      var x, asked := if f.what.when == w then [f.what] else [], AskedFor(respond(log + [f], f.what).requests, now, w);
      AtAfterFire(q, log, now, respond, w);
      AtDrained(AfterFire(q, log, now, respond), log + [f], now, respond, idle, w);
      LogStep(respond, log, f, r.1, w);
      Shuffle(x, FiredFrom(r.1, |log| + 1, w), At(r.0, w), At(q[1..], w), asked, Joined(respond, r.1, |log| + 1, w),
              NextIs(r.0, now, w));
    } else {
      DrainStops(q, now, idle, w);
      LogEnd(respond, log, At(q, w), At(r.0, w), w);
    }
  }

  lemma AtAfterFire(q: Queue, log: seq<Fired>, now: int, respond: Handlers, w: int)
    requires WfQueue(q) && q != [] && q[0].value.when <= now
    ensures At(q, w) == (if q[0].value.when == w then [q[0].value] else []) + At(q[1..], w)
    ensures var rs := respond(log + [Fired(q[0].value, now)], q[0].value).requests;
      At(AfterFire(q, log, now, respond), w) == At(q[1..], w) + AskedFor(rs, now, w)
    ensures Due(AfterFire(q, log, now, respond), now) < Due(q, now)
  {
    AfterFireFacts(q, log, now, respond, q[0].value.when);
    AtAddAll(q[1..], respond(log + [Fired(q[0].value, now)], q[0].value).requests, now, w);
  }

  lemma LogStep(respond: Handlers, log: seq<Fired>, f: Fired, log': seq<Fired>, w: int)
    requires log + [f] <= log'
    ensures FiredFrom(log', |log|, w) == (if f.what.when == w then [f.what] else []) + FiredFrom(log', |log| + 1, w)
    ensures Joined(respond, log', |log|, w) ==
            AskedFor(respond(log + [f], f.what).requests, f.at, w) + Joined(respond, log', |log| + 1, w)
  {
    assert log'[..|log| + 1] == log + [f] && log'[|log|] == (log + [f])[|log|];
  }

  lemma LogEnd(respond: Handlers, log: seq<Fired>, s: seq<Pending>, t: seq<Pending>, w: int)
    ensures FiredFrom(log, |log|, w) + t == t && s + Joined(respond, log, |log|, w) == s
  {
  }

  lemma DrainStops(q: Queue, now: int, idle: bool, w: int)
    requires WfQueue(q) && !CanFire(q, now, idle)
    ensures var q' := if q == [] then [] else PutBack(q); At(q', w) == TurnIf(At(q, w), NextIs(q', now, w))
  {
    if q != [] {
      AtPutBack(q, w);
      if LoneTimer(q, idle) { PutBackOne(q); AtOne(q, w); }
    }
  }

  lemma AtOne(q: Queue, w: int)
    requires |q| == 1
    ensures |At(q, w)| <= 1 && forall turn :: TurnIf(At(q, w), turn) == At(q, w)
  {
    assert q[1..] == [];
  }

  lemma Shuffle<T>(x: seq<T>, fired: seq<T>, left: seq<T>, rest: seq<T>, asked: seq<T>, joined: seq<T>, turn: bool)
    requires fired + left == TurnIf(rest + asked + joined, turn) && (turn ==> x == [])
    ensures x + fired + left == TurnIf(x + rest + (asked + joined), turn)
  {
    assert x + fired + left == x + (fired + left);
    assert x + rest + (asked + joined) == x + (rest + asked + joined);
    if x == [] { assert x + (rest + asked + joined) == rest + asked + joined; }
  }

  // ----- turning by more than one -----

  lemma RotateOnce<T>(s: seq<T>, r: nat)
    requires r < |s|
    ensures Rotated(Rotated(s, r), 1) == Rotated(s, NextTurn(r, |s|))
  {
    var t := Rotated(s, r);
    assert t[..1] == [s[r]] && t[1..] == s[r + 1..] + s[..r];
    assert s[..r + 1] == s[..r] + [s[r]];
    Associate(s[r + 1..], s[..r], [s[r]]);
    if r + 1 == |s| { assert s[r + 1..] + s[..r + 1] == s == Rotated(s, 0); }
  }

  /** One more look, or none. */
  lemma TurnMore<T>(s: seq<T>, c: nat, turn: bool)
    requires s != []
    ensures TurnIf(Rotated(s, Turn(c, |s|)) + [], turn) == Rotated(s, Turn(c + if turn then 1 else 0, |s|))
  {
    hide NextTurn;
    RotateOnce(s, Turn(c, |s|));
    assert Rotated(s, Turn(c, |s|)) + [] == Rotated(s, Turn(c, |s|));
  }

  /** A turned sequence is the same one only when it came round, unless its first repeats. */
  lemma OnlyFullTurns<T>(s: seq<T>, r: nat)
    requires r < |s| && forall i :: 1 <= i < |s| ==> s[i] != s[0]
    ensures Rotated(s, r) == s <==> r == 0
  {
    assert Rotated(s, r)[0] == s[r];
    assert Rotated(s, 0) == s;
  }
}

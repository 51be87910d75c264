/** code/machine/interrupt.cc: simulated time and the interrupts pending on it, on the
    linked list the source keeps them on. */
module Interrupts {
  import opened Lists
  import opened InterruptQueues

  /** What every call keeps: the tick counters add up, the list is in order, the log is as it
      should be and ends before what is pending. */
  ghost predicate Kept(q: Queue, log: seq<Fired>, total: int, idle: int, system: int, user: int) {
    && total == idle + system + user
    && WfQueue(q) && LogOk(log) && LogBehind(log, q, total)
  }

  /** A use of the clock by some thread: starting a device, a tick up to where the thread goes on
      or yields, a turn of the idle loop, and going into user or system mode. */
  datatype Use = Starts(request: Request) | Ticks | Idles | Enters(user: bool)

  class Interrupt {
    var level: IntStatus
    const pending: List<Pending>
    var inHandler: bool
    var yieldOnReturn: bool
    var status: MachineStatus
    var totalTicks: int
    var idleTicks: int
    var systemTicks: int
    var userTicks: int
    const respond: Handlers
    var log: seq<Fired>  // what fired so far; the source keeps no such record

    /** What is pending, earliest first. */
    ghost function Waiting(): Queue
      reads pending
    {
      pending.Contents()
    }

    ghost predicate Valid()
      reads this, pending, pending.Nodes()
    {
      pending.Valid() && Kept(Waiting(), log, totalTicks, idleTicks, systemTicks, userTicks)
    }

    /** Between calls nothing pending is overdue. */
    ghost predicate OnTime()
      reads this, pending, pending.Nodes()
    {
      Valid() && !inHandler && AllFrom(Waiting(), totalTicks)
    }

    constructor (handlers: Handlers)
      ensures OnTime() && fresh(pending) && level == IntOff && status == SystemMode && !yieldOnReturn
      ensures Waiting() == [] && log == [] && totalTicks == 0 && respond == handlers && fresh(pending.Nodes())
    {
      level, inHandler, yieldOnReturn, status := IntOff, false, false, SystemMode;
      totalTicks, idleTicks, systemTicks, userTicks := 0, 0, 0, 0;
      respond, log := handlers, [];
      pending := new List();
    }

    method Schedule(handler: int, arg: int, fromNow: Delay, kind: IntType)
      requires Valid()
      modifies pending, pending.Nodes()
      ensures Valid() && fresh(pending.Nodes() - old(pending.Nodes()))
      ensures Waiting() == Add(old(Waiting()), Pending(handler, arg, totalTicks + fromNow, kind))
    {
      hide List.Valid, List.Contents, Inserted, WfQueue, LogOk, LogBehind;
      var when := totalTicks + fromNow;
      KeptAdd(Waiting(), log, totalTicks, Pending(handler, arg, when, kind));
      pending.SortedInsert(Pending(handler, arg, when, kind), when);
    }

    /** Runs the handler of an interrupt: the devices it drives schedule more. */
    method RunHandler(p: Pending)
      requires Valid()
      modifies pending, pending.Nodes(), this`yieldOnReturn
      ensures Valid() && fresh(pending.Nodes() - old(pending.Nodes()))
      ensures Waiting() == AddAll(old(Waiting()), respond(log, p).requests, totalTicks)
      ensures yieldOnReturn == (old(yieldOnReturn) || respond(log, p).wantsYield)
    {
      hide List.Valid, List.Contents, AddAll, Kept, Add;
      var reaction := respond(log, p);
      ghost var q := Waiting();
      var rest := reaction.requests;
      while rest != []
        invariant yieldOnReturn == old(yieldOnReturn)
        invariant Valid() && fresh(pending.Nodes() - old(pending.Nodes()))
        invariant AddAll(Waiting(), rest, totalTicks) == AddAll(q, reaction.requests, totalTicks)
        decreases |rest|
      {
        AddAllStep(Waiting(), rest, totalTicks);
        Schedule(rest[0].handler, rest[0].arg, rest[0].fromNow, rest[0].kind);
        rest := rest[1..];
      }
      AddAllStep(Waiting(), rest, totalTicks);
      if reaction.wantsYield {
        yieldOnReturn := true;
      }
    }

    method CheckIfDue(advanceClock: bool) returns (fired: bool)
      requires Valid() && !inHandler && level == IntOff
      requires AllFrom(Waiting(), totalTicks - SYSTEM_TICK)
      modifies this, pending, pending.Nodes()
      ensures Valid() && !inHandler && level == IntOff && status == old(status)
      ensures fresh(pending.Nodes() - old(pending.Nodes()))
      ensures totalTicks ==
        if advanceClock && old(Waiting()) != [] && old(Waiting())[0].value.when > old(totalTicks)
        then old(Waiting())[0].value.when else old(totalTicks)
      ensures fired == CanFire(old(Waiting()), totalTicks, status == IdleMode)
      ensures systemTicks == old(systemTicks) && userTicks == old(userTicks)
      ensures !fired ==> log == old(log) && yieldOnReturn == old(yieldOnReturn)
      ensures !fired ==> Waiting() == if old(Waiting()) == [] then [] else PutBack(old(Waiting()))
      ensures fired ==> log == old(log) + [Fired(old(Waiting())[0].value, totalTicks)]
      ensures fired ==> Waiting() == AfterFire(old(Waiting()), old(log), totalTicks, respond)
      ensures fired ==> yieldOnReturn == (old(yieldOnReturn) || respond(log, old(Waiting())[0].value).wantsYield)
    {
      hide List.Valid, List.Contents, PutBack, AddAll, LogOk, LogBehind, WfQueue, Inserted;
      ghost var q := Waiting();
      var front := pending.SortedRemove();
      if front.None? {
        return false;
      }
      KeptFront(q, log, totalTicks, totalTicks - SYSTEM_TICK);
      var toOccur, when := front.value.value, front.value.key;
      if advanceClock && when > totalTicks {
        idleTicks := idleTicks + (when - totalTicks);
        totalTicks := when;
      } else if when > totalTicks {
        pending.SortedInsert(toOccur, when);
        return false;
      }
      var empty := pending.IsEmpty();
      if status == IdleMode && toOccur.kind == TimerInt && empty {
        pending.SortedInsert(toOccur, when);
        return false;
      }
      LogFire(log, q, totalTicks, totalTicks);
      Fire(toOccur);
      return true;
    }

    /** Runs the handler of an interrupt taken off the list, in system mode. */
    method Fire(toOccur: Pending)
      requires pending.Valid() && !inHandler
      requires Kept(Waiting(), log + [Fired(toOccur, totalTicks)], totalTicks, idleTicks, systemTicks, userTicks)
      modifies pending, pending.Nodes(), this`log, this`status, this`inHandler, this`yieldOnReturn
      ensures Valid() && !inHandler && status == old(status)
      ensures fresh(pending.Nodes() - old(pending.Nodes()))
      ensures log == old(log) + [Fired(toOccur, totalTicks)]
      ensures Waiting() == AddAll(old(Waiting()), respond(log, toOccur).requests, totalTicks)
      ensures yieldOnReturn == (old(yieldOnReturn) || respond(log, toOccur).wantsYield)
    {
      hide List.Valid, List.Contents, AddAll, Kept;
      var oldStatus := status;
      log := log + [Fired(toOccur, totalTicks)];
      inHandler := true;
      status := SystemMode;
      RunHandler(toOccur);
      status := oldStatus;
      inHandler := false;
    }

    /** Runs handlers until nothing is due; new interrupts lie in the future, so the loop
        ends. */
    method Drain(ghost from: int)
      requires Valid() && !inHandler && level == IntOff
      requires totalTicks - SYSTEM_TICK <= from <= totalTicks && AllFrom(Waiting(), from)
      modifies this, pending, pending.Nodes()
      ensures Valid() && !inHandler && level == IntOff && status == old(status)
      ensures fresh(pending.Nodes() - old(pending.Nodes()))
      ensures totalTicks == old(totalTicks) && systemTicks == old(systemTicks) && userTicks == old(userTicks)
      ensures (Waiting(), log) == Drained(old(Waiting()), old(log), totalTicks, respond, status == IdleMode)
      ensures yieldOnReturn == (old(yieldOnReturn) || Asked(respond, log, |old(log)|))
    {
      hide List.Valid, List.Contents, Asked, Drained, AfterFire, Due, AllFrom, PutBack, LogOk, LogBehind;
      var more := true;
      NotAsked(respond, log);
      ghost var end := Drained(Waiting(), log, totalTicks, respond, status == IdleMode);
      while more
        invariant Valid() && !inHandler && level == IntOff && status == old(status)
        invariant fresh(pending.Nodes() - old(pending.Nodes()))
        invariant totalTicks == old(totalTicks) && systemTicks == old(systemTicks) && userTicks == old(userTicks)
        invariant more ==> AllFrom(Waiting(), from)
        invariant |old(log)| <= |log| && yieldOnReturn == (old(yieldOnReturn) || Asked(respond, log, |old(log)|))
        invariant end == if more then Drained(Waiting(), log, totalTicks, respond, status == IdleMode) else (Waiting(), log)
        decreases if more then Due(Waiting(), totalTicks) + 1 else 0
      {
        ghost var q, before := Waiting(), log;
        AllFromMono(q, from, totalTicks - SYSTEM_TICK);
        DrainedOnce(q, before, totalTicks, respond, status == IdleMode);
        more := CheckIfDue(false);
        if more {
          AfterFireFacts(q, before, totalTicks, respond, from);
          AskedStep(respond, before, Fired(q[0].value, totalTicks), |old(log)|);
        }
      }
    }

    /** The first part of a tick: time advances, and everything that became due is handled.
        Reports whether a handler asked for the interrupted thread to yield. */
    method HandleTick() returns (mustYield: bool)
      requires OnTime() && level == IntOn && status != IdleMode
      modifies this, pending, pending.Nodes()
      ensures OnTime() && level == IntOn && idleTicks == old(idleTicks) && status == old(status)
      ensures fresh(pending.Nodes() - old(pending.Nodes()))
      ensures totalTicks == old(totalTicks) + if status == SystemMode then SYSTEM_TICK else USER_TICK
      ensures systemTicks == old(systemTicks) + if status == SystemMode then SYSTEM_TICK else 0
      ensures (Waiting(), log) == Drained(old(Waiting()), old(log), totalTicks, respond, false) && old(log) <= log
      ensures Due(Waiting(), totalTicks) == 0 && !yieldOnReturn
      ensures mustYield == (old(yieldOnReturn) || Asked(respond, log, |old(log)|))
    {
      hide List.Valid, List.Contents, Asked, Drained, Due, LogOk;
      if status == SystemMode {
        totalTicks := totalTicks + SYSTEM_TICK;
        systemTicks := systemTicks + SYSTEM_TICK;
      } else {
        totalTicks := totalTicks + USER_TICK;
        userTicks := userTicks + USER_TICK;
      }
      ghost var q, before := Waiting(), log;
      level := IntOff;
      DrainedFacts(q, before, totalTicks, respond, false, old(totalTicks));
      Drain(old(totalTicks));
      level := IntOn;
      NothingDue(Waiting(), totalTicks);
      mustYield := yieldOnReturn;
      yieldOnReturn := false;
    }

    /** What other threads do with the clock while this one does not run: any uses, in any
        order.  It comes back unless the machine halts. */
    method Elsewhere(uses: seq<Use>) returns (halted: bool)
      requires OnTime() && level == IntOn && status != IdleMode
      modifies this, pending, pending.Nodes()
      ensures OnTime() && fresh(pending.Nodes() - old(pending.Nodes()))
      ensures old(log) <= log && totalTicks >= old(totalTicks)
      ensures !halted ==> level == IntOn && status != IdleMode
    {
      hide List.Valid, List.Contents, Kept, Drained, Due, AllFrom, Asked;
      var i := 0;
      halted := false;
      while i < |uses| && !halted
        invariant 0 <= i <= |uses|
        invariant OnTime() && fresh(pending.Nodes() - old(pending.Nodes()))
        invariant old(log) <= log && totalTicks >= old(totalTicks)
        invariant !halted ==> level == IntOn && status != IdleMode
        decreases |uses| - i
      {
        halted := UseOnce(uses[i]);
        i := i + 1;
      }
    }

    method UseOnce(use: Use) returns (halted: bool)
      requires OnTime() && level == IntOn && status != IdleMode
      modifies this, pending, pending.Nodes()
      ensures OnTime() && fresh(pending.Nodes() - old(pending.Nodes()))
      ensures old(log) <= log && totalTicks >= old(totalTicks)
      ensures !halted ==> level == IntOn && status != IdleMode
    {
      hide List.Valid, List.Contents, Drained, Due, Asked, Add;
      halted := false;
      match use {
        case Starts(r) =>
          AddFacts(Waiting(), Pending(r.handler, r.arg, totalTicks + r.fromNow, r.kind), totalTicks);
          Schedule(r.handler, r.arg, r.fromNow, r.kind);
        case Ticks =>
          var asked := HandleTick();
          if asked { status := SystemMode; }
        case Idles =>
          level := IntOff;
          DrainedKeeps(Waiting(), log, NextTime(Waiting(), totalTicks), respond);
          halted := Idle();
          level := IntOn;
        case Enters(user) =>
          status := if user then UserMode else SystemMode;
      }
    }

    /** A whole tick.  When a handler asked for it, the interrupted thread yields in system
        mode, other threads use the clock as they like, and when it runs again it is in the
        mode it was in. */
    method OneTick(meanwhile: seq<Use>) returns (yielded: bool, halted: bool)
      requires OnTime() && level == IntOn && status != IdleMode
      modifies this, pending, pending.Nodes()
      ensures OnTime() && fresh(pending.Nodes() - old(pending.Nodes()))
      ensures !halted ==> level == IntOn && status == old(status)
      ensures var now := old(totalTicks) + if old(status) == SystemMode then SYSTEM_TICK else USER_TICK;
        var drained := Drained(old(Waiting()), old(log), now, respond, false);
        && yielded == (old(yieldOnReturn) || Asked(respond, drained.1, |old(log)|))
        && drained.1 <= log && totalTicks >= now
        && (!yielded ==> !halted && totalTicks == now && (Waiting(), log) == drained && Due(Waiting(), now) == 0)
    {
      hide List.Valid, List.Contents, Kept, Asked, Drained, Due, AllFrom;
      var mode := status;
      yielded := HandleTick();
      halted := false;
      if yielded {
        status := SystemMode;
        halted := Elsewhere(meanwhile);
        if !halted { status := mode; }
      }
    }

    /** Enabling interrupts costs a tick; disabling them is free.  Handlers may only
        disable them. */
    method SetLevel(now: IntStatus, meanwhile: seq<Use>) returns (was: IntStatus, yielded: bool, halted: bool)
      requires Valid() && (now == IntOff || !inHandler)
      requires now == IntOn && level == IntOff ==> OnTime() && status != IdleMode
      modifies this, pending, pending.Nodes()
      ensures Valid() && was == old(level) && fresh(pending.Nodes() - old(pending.Nodes()))
      ensures !halted ==> level == now && status == old(status) && inHandler == old(inHandler)
      ensures now == IntOn && was == IntOff ==>
        var time := old(totalTicks) + if old(status) == SystemMode then SYSTEM_TICK else USER_TICK;
        var drained := Drained(old(Waiting()), old(log), time, respond, false);
        && OnTime() && drained.1 <= log && totalTicks >= time
        && yielded == (old(yieldOnReturn) || Asked(respond, drained.1, |old(log)|))
        && (!yielded ==> !halted && totalTicks == time && (Waiting(), log) == drained)
      ensures !(now == IntOn && was == IntOff) ==>
        !halted && !yielded && totalTicks == old(totalTicks) && Waiting() == old(Waiting()) && log == old(log)
    {
      hide List.Valid, List.Contents, Kept, Asked, Drained, Due, AllFrom;
      was, yielded, halted := level, false, false;
      level := now;
      if now == IntOn && was == IntOff {
        yielded, halted := OneTick(meanwhile);
      }
    }

    /** With no thread to run, time jumps to the next interrupt.  Reports whether the
        machine halts because nothing but the timer is left. */
    method Idle() returns (halted: bool)
      requires OnTime() && level == IntOff
      modifies this, pending, pending.Nodes()
      ensures OnTime() && level == IntOff && fresh(pending.Nodes() - old(pending.Nodes()))
      ensures systemTicks == old(systemTicks) && userTicks == old(userTicks)
      ensures totalTicks == NextTime(old(Waiting()), old(totalTicks))
      ensures (Waiting(), log) == Drained(old(Waiting()), old(log), totalTicks, respond, true)
      ensures halted <==>
        |old(Waiting())| == 0 || (|old(Waiting())| == 1 && old(Waiting())[0].value.kind == TimerInt)
      ensures halted ==> log == old(log)
      ensures !halted ==> |log| > |old(log)| && log[|old(log)|] == Fired(old(Waiting())[0].value, totalTicks)
      ensures |old(Waiting())| > 0 ==>
        && totalTicks >= old(totalTicks) && totalTicks >= old(Waiting())[0].value.when
        && (totalTicks == old(totalTicks) || totalTicks == old(Waiting())[0].value.when)
      ensures !halted ==> status == SystemMode && !yieldOnReturn
    {
      hide List.Valid, List.Contents, Drained, Due, AfterFire, PutBack, LogOk;
      ghost var q, before := Waiting(), log;
      status := IdleMode;
      DrainedOnce(q, before, NextTime(q, totalTicks), respond, true);
      var fired := CheckIfDue(true);
      if q != [] { JumpedTo(q, old(totalTicks), totalTicks); }
      if fired {
        AfterFireFacts(q, before, totalTicks, respond, totalTicks);
        DrainedFacts(Waiting(), log, totalTicks, respond, true, totalTicks);
        Drain(totalTicks);
        yieldOnReturn := false;
        status := SystemMode;
        return false;
      }
      if q != [] {
        PutBackFacts(q, totalTicks);
      }
      return true;
    }
  }

  lemma DrainedKeeps(q: Queue, log: seq<Fired>, now: int, respond: Handlers)
    requires WfQueue(q) && AllFrom(q, now)
    ensures log <= Drained(q, log, now, respond, true).1
  {
    DrainedFacts(q, log, now, respond, true, now);
  }

  lemma KeptAdd(q: Queue, log: seq<Fired>, now: int, p: Pending)
    requires WfQueue(q) && LogBehind(log, q, now) && now <= p.when
    ensures WfQueue(Add(q, p)) && LogBehind(log, Add(q, p), now)
  {
    AddFacts(q, p, if log == [] then 0 else log[|log| - 1].what.when);
  }

  /** The list without its front, and with its front put back. */
  lemma KeptFront(q: Queue, log: seq<Fired>, now: int, from: int)
    requires WfQueue(q) && LogBehind(log, q, now) && q != [] && AllFrom(q, from)
    ensures q[0].key == q[0].value.when >= from
    ensures forall later :: later >= now ==> LogBehind(log, q, later) && LogBehind(log, PutBack(q), later)
    ensures WfQueue(q[1..]) && WfQueue(PutBack(q)) && LogBehind(log, PutBack(q), now)
    ensures PutBack(q) == Inserted(q[1..], Item(q[0].value, q[0].value.when))
  {
    PutBackFacts(q, if log == [] then 0 else log[|log| - 1].what.when);
  }

  /** After the jump everything pending lies at or after the new time. */
  lemma JumpedTo(q: Queue, was: int, now: int)
    requires WfQueue(q) && q != [] && AllFrom(q, was) && now == if q[0].value.when > was then q[0].value.when else was
    ensures AllFrom(q, now)
  {
  }

  lemma AllFromMono(q: Queue, t: int, u: int)
    requires AllFrom(q, t) && u <= t
    ensures AllFrom(q, u)
  {
  }
}

/** code/network/post.cc over code/machine/network.cc: what a poll reads, and how the steps of the
    postal worker bring every message that is on its way into its mailbox. */
module PostProgress {
  import opened Mails
  import opened PostOffices
  import opened PostDelivery

  // ----- what a poll reads -----

  /** A poll moves the first message on the wire into a free inbox and says so with V; with the
      inbox taken or nothing on the wire it does nothing. */
  lemma PollExactly(b: Address, h: Host)
    requires HostOk(b, h)
    ensures var h' := PollHost(h);
      if h.inHdr.length == 0 && |h.socket| > 0 then
        && InInbox(h') == [OnWire(h.socket)[0]] && h'.socket == h.socket[1..]
        && h'.messageAvailable == h.messageAvailable + 1
        && h'.worker == h.worker && h'.boxes == h.boxes && h'.taken == h.taken && h'.sent == h.sent
      else h' == h
  {
    if h.inHdr.length == 0 && |h.socket| > 0 {
      assert GoodWire(b, h.socket[0]);
    }
  }

  // ----- the next message reaches its mailbox -----

  /** The oldest message on its way to `b` is in its mailbox, and nothing else has changed. */
  ghost predicate Delivered(h: Host, h': Host)
    requires Arriving(h) != []
  {
    var m := Arriving(h)[0];
    && 0 <= m.hdr.to < |h.boxes| && h'.boxes == h.boxes[m.hdr.to := h.boxes[m.hdr.to] + [m]]
    && Arriving(h') == Arriving(h)[1..] && h'.worker == AtP && h'.taken == h.taken && h'.sent == h.sent
  }

  /** What the worker has left to do for the next message. */
  function Errand(b: Address, worker: Worker): seq<Step> {
    match worker
    case AtP => [Poll(b), WorkerP(b), WorkerReceive(b), WorkerPut(b)]
    case HasPermit => [WorkerReceive(b), WorkerPut(b)]
    case Holding(_, _) => [WorkerPut(b)]
  }

  /** The steps lead from one state to the other. */
  ghost predicate Goes(net: Net, steps: seq<Step>, net': Net)
    decreases |steps|
  {
    if steps == [] then net' == net
    else Enabled(net, steps[0]) && Goes(Do(net, steps[0]), steps[1..], net')
  }

  lemma PutDelivers(b: Address, h: Host)
    requires HostOk(b, h) && h.worker.Holding?
    ensures HostOk(b, PutMail(h)) && Arriving(h) != [] && Delivered(h, PutMail(h))
  {
    hide HostOk, Arriving;
    PutMailOk(b, h);
    PutMailArriving(b, h);
    PutMailRest(h);
  }

  lemma PutMailRest(h: Host)
    requires h.worker.Holding?
    ensures PutMail(h).worker == AtP && PutMail(h).taken == h.taken && PutMail(h).sent == h.sent
  {
  }

  lemma TakeDelivers(b: Address, h: Host)
    requires HostOk(b, h) && h.worker.HasPermit?
    ensures var h1 := TakePacket(h);
      h1.worker.Holding? && HostOk(b, PutMail(h1)) && Arriving(h) != [] && Delivered(h, PutMail(h1))
  {
    hide HostOk, Arriving, PutMail;
    TakePacketOk(b, h);
    TakePacketArriving(b, h);
    PutDelivers(b, TakePacket(h));
  }

  /** After a poll the inbox is full if any message is on its way. */
  lemma PollFills(b: Address, h: Host)
    requires HostOk(b, h) && h.worker.AtP? && Arriving(h) != []
    ensures var h1 := PollHost(h);
      && HostOk(b, h1) && Arriving(h1) == Arriving(h)
      && h1.worker.AtP? && h1.messageAvailable > 0 && h1.boxes == h.boxes && h1.taken == h.taken && h1.sent == h.sent
  {
    PollOk(b, h);
    PollArriving(b, h);
    PollExactly(b, h);
  }

  function Permitted(h: Host): Host
    requires h.messageAvailable > 0
  {
    h.(messageAvailable := h.messageAvailable - 1, worker := HasPermit)
  }

  lemma PollDelivers(b: Address, h: Host)
    requires HostOk(b, h) && h.worker.AtP? && Arriving(h) != []
    ensures var h1 := PollHost(h);
      && h1.worker.AtP? && h1.messageAvailable > 0
      && var h3 := TakePacket(Permitted(h1));
      h3.worker.Holding? && HostOk(b, PutMail(h3)) && Delivered(h, PutMail(h3))
  {
    hide HostOk, Arriving, PutMail, PollHost, TakePacket;
    PollFills(b, h);
    var h1 := PollHost(h);
    PermitOk(b, h1);
    PermitArriving(h1);
    TakeDelivers(b, Permitted(h1));
  }

  lemma ChangesOnly(net: Net, b: Address, h: Host, h': Host)
    requires b in net
    ensures net[b := h][b := h'] == net[b := h'] && net[b := h][b] == h
  {
  }

  /** From every state in order, whatever the worker is at, its steps put the oldest message on
      its way into its mailbox. */
  lemma DeliversNext(net: Net, b: Address) returns (net': Net)
    requires HostsOk(net) && b in net && Arriving(net[b]) != []
    ensures Goes(net, Errand(b, net[b].worker), net')
    ensures HostsOk(net') && b in net' && net' == net[b := net'[b]] && Delivered(net[b], net'[b])
  {
    hide HostOk, Arriving, PutMail, PollHost, TakePacket, Delivered, Goes;
    var h := net[b];
    assert HostOk(b, h);
    match h.worker
    case Holding(_, _) =>
      PutDelivers(b, h);
      net' := net[b := PutMail(h)];
      GoesOne(net, WorkerPut(b), net');
    case HasPermit =>
      TakeDelivers(b, h);
      var h1 := TakePacket(h);
      net' := net[b := PutMail(h1)];
      GoesTwo(net, b, h1);
    case AtP =>
      PollDelivers(b, h);
      var h1 := PollHost(h);
      net' := net[b := PutMail(TakePacket(Permitted(h1)))];
      GoesFour(net, b, h1);
  }

  lemma GoesOne(net: Net, step: Step, net': Net)
    requires Enabled(net, step) && Do(net, step) == net'
    ensures Goes(net, [step], net')
  {
    assert [step][1..] == [];
  }

  lemma GoesTwo(net: Net, b: Address, h1: Host)
    requires b in net && net[b].worker.HasPermit? && h1 == TakePacket(net[b]) && h1.worker.Holding?
    ensures Goes(net, [WorkerReceive(b), WorkerPut(b)], net[b := PutMail(h1)])
  {
    hide PutMail, TakePacket;
    ChangesOnly(net, b, h1, PutMail(h1));
    GoesOne(net[b := h1], WorkerPut(b), net[b := PutMail(h1)]);
    assert [WorkerReceive(b), WorkerPut(b)][1..] == [WorkerPut(b)];
  }

  lemma GoesFour(net: Net, b: Address, h1: Host)
    requires b in net && h1 == PollHost(net[b]) && h1.worker.AtP? && h1.messageAvailable > 0
    requires TakePacket(Permitted(h1)).worker.Holding?
    ensures Goes(net, [Poll(b), WorkerP(b), WorkerReceive(b), WorkerPut(b)],
                 net[b := PutMail(TakePacket(Permitted(h1)))])
  {
    hide PutMail, TakePacket, PollHost;
    var h2 := Permitted(h1);
    var h3 := TakePacket(h2);
    ChangesOnly(net, b, h1, h2);
    ChangesOnly(net, b, h2, PutMail(h3));
    GoesTwo(net[b := h2], b, h3);
    var all := [Poll(b), WorkerP(b), WorkerReceive(b), WorkerPut(b)];
    assert all[1..][1..] == [WorkerReceive(b), WorkerPut(b)];
    assert all[1..][0] == WorkerP(b);
  }

  // ----- all of them do -----

  /** Those of `ms` that are for mailbox `i`. */
  function ForBox(ms: seq<Mail>, i: int): seq<Mail> {
    if ms == [] then [] else (if ms[0].hdr.to == i then [ms[0]] else []) + ForBox(ms[1..], i)
  }

  predicate NoSend(steps: seq<Step>) {
    forall i :: 0 <= i < |steps| ==> !steps[i].Send?
  }

  lemma {:induction false} GoesOn(net: Net, steps: seq<Step>, mid: Net, more: seq<Step>, net': Net)
    requires Goes(net, steps, mid) && Goes(mid, more, net')
    ensures Goes(net, steps + more, net')
    decreases |steps|
  {
    hide Enabled, Do;
    if steps == [] {
      assert steps + more == more;
    } else {
      GoesOn(Do(net, steps[0]), steps[1..], mid, more, net');
      assert (steps + more)[1..] == steps[1..] + more;
    }
  }

  /** From every state in order the worker can bring everything that is on its way into the
      mailboxes, in order, with at most four steps a message and no help from the senders. */
  lemma {:induction false} DeliversAll(net: Net, b: Address) returns (steps: seq<Step>, net': Net)
    requires HostsOk(net) && b in net
    ensures Goes(net, steps, net') && NoSend(steps) && |steps| <= 4 * |Arriving(net[b])|
    ensures HostsOk(net') && b in net' && Arriving(net'[b]) == []
    ensures net'[b].taken == net[b].taken && |net'[b].boxes| == |net[b].boxes|
    ensures forall i :: 0 <= i < |net[b].boxes| ==> net'[b].boxes[i] == net[b].boxes[i] + ForBox(Arriving(net[b]), i)
    decreases |Arriving(net[b])|
  {
    hide HostsOk, Arriving, Goes;
    if Arriving(net[b]) == [] {
      steps, net' := [], net;
      StaysHere(net);
    } else {
      var mid := DeliversNext(net, b);
      var more;
      more, net' := DeliversAll(mid, b);
      var first := Errand(b, net[b].worker);
      steps := first + more;
      GoesOn(net, first, mid, more, net');
      BoxesGrow(net[b], mid[b], net'[b]);
    }
  }

  lemma StaysHere(net: Net)
    ensures Goes(net, [], net)
  {
  }

  lemma BoxesGrow(h: Host, mid: Host, h': Host)
    requires Arriving(h) != [] && Delivered(h, mid) && |h'.boxes| == |mid.boxes|
    requires forall i :: 0 <= i < |mid.boxes| ==> h'.boxes[i] == mid.boxes[i] + ForBox(Arriving(mid), i)
    ensures forall i :: 0 <= i < |h.boxes| ==> h'.boxes[i] == h.boxes[i] + ForBox(Arriving(h), i)
  {
    hide Arriving;
    forall i | 0 <= i < |h.boxes| ensures h'.boxes[i] == h.boxes[i] + ForBox(Arriving(h), i) {
      var m := Arriving(h)[0];
      assert ForBox(Arriving(h), i) == (if m.hdr.to == i then [m] else []) + ForBox(Arriving(mid), i);
    }
  }

  lemma {:induction false} GoesStream(net: Net, steps: seq<Step>, net': Net, a: Address, b: Address, i: nat)
    requires HostsOk(net) && Goes(net, steps, net') && NoSend(steps) && b in net && i < NUM_BOXES
    ensures HostsOk(net') && b in net' && HostOk(b, net[b]) && HostOk(b, net'[b])
    ensures Stream(net'[b], a, b, i) == Stream(net[b], a, b, i)
    decreases |steps|
  {
    hide HostOk, Stream, Enabled, Do;
    if steps != [] {
      assert HostOk(b, net[b]);
      BoxInRange(b, net[b]);
      StepKept(net, steps[0], a, b, i);
      GoesStream(Do(net, steps[0]), steps[1..], net', a, b, i);
      assert Stream(net[b], a, b, i) + [] == Stream(net[b], a, b, i);
    }
  }

  /** No run gets stuck: from each of its states the worker can reach one where every message
      that was sent to a mailbox and not lost has been taken out of it or lies in it, in order. */
  lemma NothingStuck(nets: seq<Net>, steps: seq<Step>, n: nat, b: Address) returns (more: seq<Step>, end: Net)
    requires Run(nets, steps) && n <= |steps| && b in nets[n]
    ensures Goes(nets[n], more, end) && NoSend(more) && b in end && |end[b].taken| == |end[b].boxes| == NUM_BOXES
    ensures forall a: Address, i: nat :: i < NUM_BOXES ==>
      Only(end[b].taken[i], a, b, i) + Only(end[b].boxes[i], a, b, i) == Only(Kept(steps[..n]), a, b, i)
  {
    hide HostsOk, Goes, Arriving, Only, Start, Next;
    RunExact(nets, steps, n, b, b, 0);
    more, end := DeliversAll(nets[n], b);
    GoesStream(nets[n], more, end, b, b, 0);
    BoxInRange(b, end[b]);
    forall a: Address, i: nat | i < NUM_BOXES
      ensures Only(end[b].taken[i], a, b, i) + Only(end[b].boxes[i], a, b, i) == Only(Kept(steps[..n]), a, b, i)
    {
      RunExact(nets, steps, n, a, b, i);
      GoesStream(nets[n], more, end, a, b, i);
      StreamAtRest(end[b], a, b, i);
    }
  }

  lemma StreamAtRest(h: Host, a: Address, b: Address, i: nat)
    requires i < |h.boxes| && i < |h.taken| && Arriving(h) == []
    ensures Stream(h, a, b, i) == Only(h.taken[i], a, b, i) + Only(h.boxes[i], a, b, i)
  {
  }

  // ----- what is sent and what is received, counted from the steps -----

  /** What the first `n` steps send from machine `a`. */
  function SentFrom(steps: seq<Step>, a: Address, n: nat): seq<Mail>
    requires n <= |steps|
  {
    if n == 0 then []
    else SentFrom(steps, a, n - 1) + if steps[n - 1].Send? && steps[n - 1].at == a then [steps[n - 1].mail] else []
  }

  /** How many of the first `n` steps receive from mailbox `i` of machine `b`. */
  function Receives(steps: seq<Step>, b: Address, i: nat, n: nat): nat
    requires n <= |steps|
  {
    if n == 0 then 0
    else Receives(steps, b, i, n - 1) + if steps[n - 1] == Receive(b, i) then 1 else 0
  }

  lemma StepRecords(net: Net, step: Step, b: Address, i: nat)
    requires HostsOk(net) && Enabled(net, step) && b in net && i < NUM_BOXES
    ensures var h, h' := net[b], Do(net, step)[b];
      && |h.taken| == |h'.taken| == NUM_BOXES
      && h'.sent == h.sent + (if step.Send? && step.at == b then [step.mail] else [])
      && |h'.taken[i]| == |h.taken[i]| + if step == Receive(b, i) then 1 else 0
  {
    assert HostOk(b, net[b]);
    hide HostOk, PollHost, TakePacket, PutMail;
    BoxInRange(b, net[b]);
    if step.at == b && step.Poll? { PollRecords(net[b]); }
    if step.at == b && step.WorkerReceive? { TakeRecords(net[b]); }
    if step.at == b && step.WorkerPut? { PutMailRest(net[b]); }
  }

  lemma PollRecords(h: Host)
    ensures PollHost(h).taken == h.taken && PollHost(h).sent == h.sent
  {
  }

  lemma TakeRecords(h: Host)
    ensures TakePacket(h).taken == h.taken && TakePacket(h).sent == h.sent
  {
  }

  /** In every run the records are the messages of the Send steps, and one message for each
      Receive step. */
  lemma {:induction false} RecordsInRun(nets: seq<Net>, steps: seq<Step>, n: nat, b: Address, i: nat)
    requires Run(nets, steps) && n <= |steps| && b in nets[n] && i < NUM_BOXES
    ensures nets[n][b].sent == SentFrom(steps, b, n)
    ensures |nets[n][b].taken| == NUM_BOXES && |nets[n][b].taken[i]| == Receives(steps, b, i, n)
  {
    if n > 0 {
      hide Start, HostsOk;
      assert Next(nets[n - 1], nets[n], steps[n - 1]);
      SameMachines(nets[n - 1], steps[n - 1]);
      RunExact(nets, steps, n - 1, b, b, i);
      RecordsInRun(nets, steps, n - 1, b, i);
      hide Do, Enabled;
      StepRecords(nets[n - 1], steps[n - 1], b, i);
    }
  }

  lemma SameMachines(net: Net, step: Step)
    requires Enabled(net, step)
    ensures Do(net, step).Keys == net.Keys
  {
  }
}

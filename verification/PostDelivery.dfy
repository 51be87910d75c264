/** Whatever is lost on the way, what arrives in a mailbox arrives in the order it was
    sent, unaltered and at most once. */
module PostDelivery {
  import opened Words
  import opened Mails
  import opened PostOffices

  // ----- in-order parts of a sequence -----

  /** `f` picks, in order, the places in `y` where the items of `x` come from. */
  ghost predicate Picks<T(!new)>(x: seq<T>, y: seq<T>, f: seq<nat>) {
    && |f| == |x|
    && (forall i :: 0 <= i < |f| ==> f[i] < |y| && y[f[i]] == x[i])
    && (forall i, j :: 0 <= i < j < |f| ==> f[i] < f[j])
  }

  ghost predicate InOrderPart<T(!new)>(x: seq<T>, y: seq<T>) {
    exists f :: Picks(x, y, f)
  }

  lemma PartOfMore<T(!new)>(x: seq<T>, y: seq<T>, e: T)
    requires InOrderPart(x, y)
    ensures InOrderPart(x, y + [e]) && InOrderPart(x + [e], y + [e])
  {
    var f: seq<nat> :| Picks(x, y, f);
    assert Picks(x, y + [e], f);
    assert Picks(x + [e], y + [e], f + [|y|]);
  }

  lemma FirstPart<T(!new)>(x: seq<T>, y: seq<T>, p: seq<T>)
    requires InOrderPart(x, y) && p <= x
    ensures InOrderPart(p, y)
  {
    var f: seq<nat> :| Picks(x, y, f);
    assert Picks(p, y, f[..|p|]);
  }

  // ----- the messages from one machine for one mailbox -----

  predicate Is(m: Mail, a: Address, b: Address, i: int) {
    m.pkt.from == a && m.pkt.to == b && m.hdr.to == i
  }

  /** Those of `ms` that `a` sent to mailbox `i` of `b`. */
  function Only(ms: seq<Mail>, a: Address, b: Address, i: int): (r: seq<Mail>) {
    if ms == [] then [] else (if Is(ms[0], a, b, i) then [ms[0]] else []) + Only(ms[1..], a, b, i)
  }

  lemma {:induction false} OnlyConcat(x: seq<Mail>, y: seq<Mail>, a: Address, b: Address, i: int)
    ensures Only(x + y, a, b, i) == Only(x, a, b, i) + Only(y, a, b, i)
  {
    hide Is;
    if x == [] {
      assert x + y == y;
      assert [] + Only(y, a, b, i) == Only(y, a, b, i);
    } else {
      OnlyConcat(x[1..], y, a, b, i);
      assert (x + y)[1..] == x[1..] + y;
      var first := if Is(x[0], a, b, i) then [x[0]] else [];
      Regroup(first, [], Only(x[1..], a, b, i), Only(y, a, b, i));
      assert first + (Only(x[1..], a, b, i) + Only(y, a, b, i)) == first + Only(x[1..], a, b, i) + Only(y, a, b, i);
    }
  }

  lemma OnlyOne(m: Mail, a: Address, b: Address, i: int)
    ensures Only([m], a, b, i) == if Is(m, a, b, i) then [m] else []
  {
    assert [m][1..] == [];
  }

  function MailOfWire(w: seq<byte>): Mail {
    if Readable(w) then MailIn(PacketHdr(w), PacketData(w)) else MailIn(Hdr(0, 0, 0), [])
  }

  /** The messages of the packets on a socket. */
  function OnWire(socket: seq<seq<byte>>): (ms: seq<Mail>) {
    if socket == [] then [] else [MailOfWire(socket[0])] + OnWire(socket[1..])
  }

  function InHand(h: Host): seq<Mail> {
    if h.worker.Holding? then [MailIn(h.worker.pkt, h.worker.buffer)] else []
  }

  function InInbox(h: Host): seq<Mail> {
    if h.inHdr.length != 0 then [MailIn(h.inHdr, h.inbox)] else []
  }

  /** What is on its way to the mailboxes of a machine, oldest first. */
  function Arriving(h: Host): seq<Mail> {
    InHand(h) + InInbox(h) + OnWire(h.socket)
  }

  /** What `a` sent to mailbox `i` of `b` and has left its machine: taken out already, in the
      mailbox, in the worker's hand, in the inbox, on the wire. */
  ghost function Stream(h: Host, a: Address, b: Address, i: nat): seq<Mail>
    requires i < |h.boxes| && i < |h.taken|
  {
    Only(h.taken[i], a, b, i) + Only(h.boxes[i], a, b, i) + Only(Arriving(h), a, b, i)
  }

  ghost predicate InOrder(net: Net) {
    && HostsOk(net)
    && forall a, b, i :: a in net && b in net && 0 <= i < NUM_BOXES ==> FlowOk(net, a, b, i)
  }

  ghost predicate FlowOk(net: Net, a: Address, b: Address, i: nat)
    requires a in net && b in net && HostOk(b, net[b]) && i < NUM_BOXES
  {
    InOrderPart(Stream(net[b], a, b, i), Only(net[a].sent, a, b, i))
  }

  // ----- moving along keeps the stream -----

  lemma PollArriving(b: Address, h: Host)
    requires HostOk(b, h)
    ensures Arriving(PollHost(h)) == Arriving(h)
  {
    if h.inHdr.length == 0 && h.socket != [] {
      assert GoodWire(b, h.socket[0]);
      var m := MailIn(PacketHdr(h.socket[0]), PacketData(h.socket[0]));
      assert InHand(h) + [m] + OnWire(h.socket[1..]) == InHand(h) + [] + ([m] + OnWire(h.socket[1..]));
    }
  }

  lemma TakePacketArriving(b: Address, h: Host)
    requires HostOk(b, h) && h.worker.HasPermit?
    ensures Arriving(TakePacket(h)) == Arriving(h)
  {
    var m := MailIn(h.inHdr, h.inbox);
    assert [m] + [] == [] + [m];
  }

  lemma SameArriving(h: Host, h': Host, a: Address, b: Address, i: nat)
    requires i < |h.boxes| && i < |h.taken| && h'.boxes == h.boxes && h'.taken == h.taken
    requires Arriving(h') == Arriving(h)
    ensures Stream(h', a, b, i) == Stream(h, a, b, i)
  {
  }

  /** The message in the worker's hand is the first to arrive, and goes to its mailbox. */
  lemma PutMailArriving(b: Address, h: Host)
    requires HostOk(b, h) && h.worker.Holding?
    ensures var m, h' := MailIn(h.worker.pkt, h.worker.buffer), PutMail(h);
      && 0 <= m.hdr.to < NUM_BOXES == |h.boxes|
      && Arriving(h) == [m] + Arriving(h')
      && h'.boxes == h.boxes[m.hdr.to := h.boxes[m.hdr.to] + [m]] && h'.taken == h.taken
  {
    hide MailIn, GoodPacket, GoodWire, OnWire;
    GoodPacketMail(b, h.worker.pkt, h.worker.buffer);
    var m := MailIn(h.worker.pkt, h.worker.buffer);
    assert InHand(h) == [m] && InHand(PutMail(h)) == [];
    assert InInbox(PutMail(h)) == InInbox(h);
  }

  lemma PutMailStream(b: Address, h: Host, a: Address, i: nat)
    requires HostOk(b, h) && h.worker.Holding? && i < NUM_BOXES
    ensures HostOk(b, PutMail(h)) && Stream(PutMail(h), a, b, i) == Stream(h, a, b, i)
  {
    hide Only, MailIn, HostOk, Arriving, PutMail;
    PutMailOk(b, h);
    BoxInRange(b, h);
    PutMailArriving(b, h);
    var m, rest := MailIn(h.worker.pkt, h.worker.buffer), Arriving(PutMail(h));
    OnlyConcat([m], rest, a, b, i);
    OnlyOne(m, a, b, i);
    if i == m.hdr.to {
      OnlyConcat(h.boxes[i], [m], a, b, i);
    }
    Regroup(Only(h.taken[i], a, b, i), Only(h.boxes[i], a, b, i), Only([m], a, b, i), Only(rest, a, b, i));
  }

  lemma Regroup(t: seq<Mail>, x: seq<Mail>, m: seq<Mail>, r: seq<Mail>)
    ensures t + (x + m) + r == t + x + (m + r) && (t + m) + x + r == t + (m + x) + r
    ensures m == [] ==> m + r == r
  {
  }

  lemma GetMailStream(b: Address, h: Host, box: nat, a: Address, i: nat)
    requires HostOk(b, h) && box < NUM_BOXES && h.boxes[box] != [] && i < NUM_BOXES
    ensures HostOk(b, GetMail(h, box)) && Stream(GetMail(h, box), a, b, i) == Stream(h, a, b, i)
  {
    hide Only, MailIn, GoodPacket, GoodWire, BoxesOk;
    GetMailOk(b, h, box);
    BoxInRange(b, h);
    var h' := GetMail(h, box);
    assert Arriving(h') == Arriving(h);
    if i == box {
      var m, rest := h.boxes[box][0], h.boxes[box][1..];
      assert h.boxes[box] == [m] + rest;
      OnlyConcat([m], rest, a, b, i);
      OnlyConcat(h.taken[box], [m], a, b, i);
      Regroup(Only(h.taken[box], a, b, i), Only(rest, a, b, i), Only([m], a, b, i), Only(Arriving(h), a, b, i));
    }
  }

  // ----- sending adds at the end -----

  lemma {:induction false} OnWireAppend(socket: seq<seq<byte>>, w: seq<byte>)
    ensures OnWire(socket + [w]) == OnWire(socket) + OnWire([w])
  {
    hide MailOfWire;
    if socket == [] {
      assert socket + [w] == [w];
    } else {
      OnWireAppend(socket[1..], w);
      assert (socket + [w])[1..] == socket[1..] + [w];
    }
  }

  lemma OnWireOne(w: seq<byte>)
    requires Readable(w)
    ensures OnWire([w]) == [MailIn(PacketHdr(w), PacketData(w))]
  {
    var none: seq<seq<byte>> := [];
    assert [w][1..] == none;
    assert OnWire(none) == [];
  }

  lemma ArriveArriving(h: Host, m: Mail, padding: seq<byte>)
    requires Legal(m) && 0 <= m.hdr.to < NUM_BOXES && |Wire(m, padding)| == MAX_WIRE_SIZE
    ensures Arriving(h.(socket := h.socket + [Wire(m, padding)])) == Arriving(h) + [m]
  {
    hide MailIn, GoodPacket, Wire, OnWire, MailOfWire, PacketHdr, PacketData;
    var w := Wire(m, padding);
    WireIsGood(m, padding);
    OnWireAppend(h.socket, w);
    OnWireOne(w);
  }

  lemma ArriveStream(h: Host, m: Mail, padding: seq<byte>, a: Address, b: Address, i: nat)
    requires i < |h.boxes| && i < |h.taken|
    requires Legal(m) && 0 <= m.hdr.to < NUM_BOXES && |Wire(m, padding)| == MAX_WIRE_SIZE
    ensures Stream(h.(socket := h.socket + [Wire(m, padding)]), a, b, i)
         == Stream(h, a, b, i) + if Is(m, a, b, i) then [m] else []
  {
    hide Only, Arriving, Wire;
    ArriveArriving(h, m, padding);
    OnlyConcat(Arriving(h), [m], a, b, i);
    OnlyOne(m, a, b, i);
  }

  // ----- every step keeps the order -----

  /** A step inside machine `c` that leaves its streams and records as they are. */
  lemma InsideStep(net: Net, c: Address, h: Host)
    requires InOrder(net) && c in net && HostOk(c, h) && h.sent == net[c].sent
    requires forall a, i :: 0 <= i < NUM_BOXES ==> SameStream(net[c], h, a, c, i)
    ensures InOrder(net[c := h])
  {
    hide HostOk;
    var net' := net[c := h];
    forall a, b, i | a in net' && b in net' && 0 <= i < NUM_BOXES ensures FlowOk(net', a, b, i) {
      assert FlowOk(net, a, b, i);
      assert SameStream(net[c], h, a, c, i);
    }
  }

  ghost predicate SameStream(h: Host, h': Host, a: Address, b: Address, i: nat) {
    && i < |h.boxes| && i < |h.taken| && i < |h'.boxes| && i < |h'.taken|
    && Stream(h', a, b, i) == Stream(h, a, b, i)
  }

  lemma SendInOrder(net: Net, c: Address, m: Mail, lost: bool, padding: seq<byte>)
    requires InOrder(net) && Enabled(net, Send(c, m, lost, padding))
    ensures InOrder(SendOn(net, c, m, lost, padding))
  {
    hide HostOk, Legal, Wire;
    WireIsGood(m, padding);
    SendOk(net, c, m, lost, padding);
    var net' := SendOn(net, c, m, lost, padding);
    forall a, b, i | a in net' && b in net' && 0 <= i < NUM_BOXES ensures FlowOk(net', a, b, i) {
      SendFlow(net, c, m, lost, padding, a, b, i);
    }
  }

  /** What one Send does to the record of `a` and the stream of `b`. */
  lemma SendFlow(net: Net, c: Address, m: Mail, lost: bool, padding: seq<byte>, a: Address, b: Address, i: nat)
    requires HostsOk(net) && Enabled(net, Send(c, m, lost, padding))
    requires a in net && b in net && i < NUM_BOXES && FlowOk(net, a, b, i)
    requires HostsOk(SendOn(net, c, m, lost, padding))
    ensures FlowOk(SendOn(net, c, m, lost, padding), a, b, i)
  {
    var net' := SendOn(net, c, m, lost, padding);
    var x, y := Stream(net[b], a, b, i), Only(net[a].sent, a, b, i);
    SentRecord(net, c, m, lost, padding, a, b, i);
    SentStream(net, c, m, lost, padding, a, b, i);
    if Is(m, a, b, i) {
      PartOfMore(x, y, m);
    } else {
      assert x + [] == x && y + [] == y;
    }
  }

  lemma SentRecord(net: Net, c: Address, m: Mail, lost: bool, padding: seq<byte>, a: Address, b: Address, i: nat)
    requires Enabled(net, Send(c, m, lost, padding)) && a in net
    ensures var net' := SendOn(net, c, m, lost, padding);
      Only(net'[a].sent, a, b, i) == Only(net[a].sent, a, b, i) + if Is(m, a, b, i) then [m] else []
  {
    OnlyConcat(net[a].sent, [m], a, b, i);
    OnlyOne(m, a, b, i);
    assert Only(net[a].sent, a, b, i) + [] == Only(net[a].sent, a, b, i);
  }

  lemma SentStream(net: Net, c: Address, m: Mail, lost: bool, padding: seq<byte>, a: Address, b: Address, i: nat)
    requires Enabled(net, Send(c, m, lost, padding)) && b in net
    requires i < |net[b].boxes| && i < |net[b].taken|
    ensures var net' := SendOn(net, c, m, lost, padding);
      Stream(net'[b], a, b, i)
        == Stream(net[b], a, b, i) + if !lost && Is(m, a, b, i) then [m] else []
  {
    var h := if b == c then net[b].(sent := net[b].sent + [m]) else net[b];
    SameArriving(net[b], h, a, b, i);
    if !lost && b == m.pkt.to {
      ArriveStream(h, m, padding, a, b, i);
    } else {
      assert Stream(net[b], a, b, i) + [] == Stream(net[b], a, b, i);
    }
  }

  /** Every step keeps the order of every flow. */
  lemma StepInOrder(net: Net, step: Step)
    requires InOrder(net) && Enabled(net, step)
    ensures InOrder(Do(net, step))
  {
    hide Stream, HostOk;
    var c := step.at;
    if step.Send? {
      SendInOrder(net, c, step.mail, step.lost, step.padding);
    } else {
      StepHosts(net, step);
      var h := Do(net, step)[c];
      forall a, i | 0 <= i < NUM_BOXES ensures SameStream(net[c], h, a, c, i) {
        StepStream(net, step, a, i);
      }
      InsideStep(net, c, h);
    }
  }

  lemma StepStream(net: Net, step: Step, a: Address, i: nat)
    requires HostsOk(net) && Enabled(net, step) && !step.Send? && i < NUM_BOXES
    ensures SameStream(net[step.at], Do(net, step)[step.at], a, step.at, i)
  {
    hide Only, Arriving, GoodPacket, GoodWire, BoxesOk;
    var c := step.at;
    var h := net[c];
    BoxInRange(c, h);
    match step
    case Poll(_) => PollArriving(c, h); SameArriving(h, PollHost(h), a, c, i);
    case WorkerP(_) =>
      var h' := h.(messageAvailable := h.messageAvailable - 1, worker := HasPermit);
      PermitArriving(h);
      SameArriving(h, h', a, c, i);
    case WorkerReceive(_) => TakePacketArriving(c, h); SameArriving(h, TakePacket(h), a, c, i);
    case WorkerPut(_) => PutMailStream(c, h, a, i); BoxInRange(c, PutMail(h));
    case Receive(_, box) => GetMailStream(c, h, box, a, i); BoxInRange(c, GetMail(h, box));
  }

  lemma PermitArriving(h: Host)
    requires h.worker.AtP? && h.messageAvailable > 0
    ensures Arriving(h.(messageAvailable := h.messageAvailable - 1, worker := HasPermit)) == Arriving(h)
  {
  }

  // ----- nothing comes from nowhere -----

  ghost predicate AllFrom(ms: seq<Mail>, known: set<Address>) {
    forall j :: 0 <= j < |ms| ==> ms[j].pkt.from in known
  }

  /** Every message on its way to a machine or in a mailbox was sent by a machine of the net. */
  ghost predicate HostKnown(h: Host, known: set<Address>) {
    && AllFrom(Arriving(h), known)
    && (forall i :: 0 <= i < |h.boxes| ==> AllFrom(h.boxes[i], known))
    && (forall i :: 0 <= i < |h.taken| ==> AllFrom(h.taken[i], known))
  }

  ghost predicate SourcesKnown(net: Net) {
    forall b :: b in net ==> HostKnown(net[b], net.Keys)
  }

  lemma AllFromTail(m: Mail, rest: seq<Mail>, known: set<Address>)
    requires AllFrom([m] + rest, known)
    ensures m.pkt.from in known && AllFrom(rest, known)
  {
    assert ([m] + rest)[0] == m;
    forall j | 0 <= j < |rest| ensures rest[j].pkt.from in known {
      assert ([m] + rest)[j + 1] == rest[j];
    }
  }

  lemma PutMailKnown(b: Address, h: Host, known: set<Address>)
    requires HostOk(b, h) && h.worker.Holding? && HostKnown(h, known)
    ensures HostKnown(PutMail(h), known)
  {
    hide MailIn, HostOk, Arriving, PutMail;
    PutMailArriving(b, h);
    AllFromTail(MailIn(h.worker.pkt, h.worker.buffer), Arriving(PutMail(h)), known);
  }

  lemma GetMailKnown(h: Host, box: nat, known: set<Address>)
    requires box < |h.boxes| && box < |h.taken| && h.boxes[box] != [] && HostKnown(h, known)
    ensures HostKnown(GetMail(h, box), known)
  {
    assert Arriving(GetMail(h, box)) == Arriving(h);
  }

  lemma ArriveKnown(h: Host, m: Mail, padding: seq<byte>, known: set<Address>)
    requires HostKnown(h, known) && m.pkt.from in known
    requires Legal(m) && 0 <= m.hdr.to < NUM_BOXES && |Wire(m, padding)| == MAX_WIRE_SIZE
    ensures HostKnown(h.(socket := h.socket + [Wire(m, padding)]), known)
  {
    ArriveArriving(h, m, padding);
  }

  lemma StepKnown(net: Net, step: Step)
    requires HostsOk(net) && SourcesKnown(net) && Enabled(net, step)
    ensures SourcesKnown(Do(net, step))
  {
    hide HostOk, HostKnown, Wire, Legal, Arriving;
    var c, h := step.at, net[step.at];
    assert Do(net, step).Keys == net.Keys;
    match step
    case Send(_, m, lost, padding) =>
      RecordKnown(h, m, net.Keys);
      var net1 := net[c := h.(sent := h.sent + [m])];
      ArriveKnown(net1[m.pkt.to], m, padding, net.Keys);
    case Poll(_) => PollArriving(c, h); SameKnown(h, PollHost(h), net.Keys);
    case WorkerP(_) =>
      PermitArriving(h);
      SameKnown(h, h.(messageAvailable := h.messageAvailable - 1, worker := HasPermit), net.Keys);
    case WorkerReceive(_) => TakePacketArriving(c, h); SameKnown(h, TakePacket(h), net.Keys);
    case WorkerPut(_) => PutMailKnown(c, h, net.Keys);
    case Receive(_, box) => GetMailKnown(h, box, net.Keys);
  }

  lemma SameKnown(h: Host, h': Host, known: set<Address>)
    requires HostKnown(h, known) && Arriving(h') == Arriving(h) && h'.boxes == h.boxes && h'.taken == h.taken
    ensures HostKnown(h', known)
  {
  }

  lemma RecordKnown(h: Host, m: Mail, known: set<Address>)
    requires HostKnown(h, known)
    ensures HostKnown(h.(sent := h.sent + [m]), known)
  {
  }

  // ----- runs -----

  /** Start-up: no packet anywhere, all mailboxes empty, the worker waiting. */
  ghost predicate Start(net: Net) {
    forall b :: b in net ==>
      var h := net[b];
      && h.socket == [] && h.inHdr.length == 0 && h.messageAvailable == 0 && h.worker == AtP && h.sent == []
      && |h.boxes| == |h.taken| == NUM_BOXES
      && forall i :: 0 <= i < NUM_BOXES ==> h.boxes[i] == [] && h.taken[i] == []
  }

  lemma StartInOrder(net: Net)
    requires Start(net)
    ensures InOrder(net)
  {
    forall a, b, i | a in net && b in net && 0 <= i < NUM_BOXES ensures FlowOk(net, a, b, i) {
      assert Picks(Stream(net[b], a, b, i), Only(net[a].sent, a, b, i), []);
    }
  }

  ghost predicate Next(net: Net, net': Net, step: Step) {
    Enabled(net, step) && net' == Do(net, step)
  }

  ghost predicate Run(nets: seq<Net>, steps: seq<Step>) {
    && |nets| == |steps| + 1 && Start(nets[0])
    && forall i :: 0 <= i < |steps| ==> Next(nets[i], nets[i + 1], steps[i])
  }

  /** In every state of every interleaving, what a mailbox gave out and still holds,
      with what is on its way to it, is an in-order part of what each machine sent. */
  lemma {:induction false} RunInOrder(nets: seq<Net>, steps: seq<Step>, n: nat)
    requires Run(nets, steps) && n <= |steps|
    ensures InOrder(nets[n]) && SourcesKnown(nets[n])
  {
    if n == 0 {
      StartInOrder(nets[0]);
    } else {
      RunInOrder(nets, steps, n - 1);
      assert Next(nets[n - 1], nets[n], steps[n - 1]);
      StepInOrder(nets[n - 1], steps[n - 1]);
      StepKnown(nets[n - 1], steps[n - 1]);
    }
  }

  // ----- nothing is lost but by the sending device -----

  /** The messages that were sent and not lost, in the order of the steps. */
  function Kept(steps: seq<Step>): seq<Mail> {
    if steps == [] then []
    else
      var last := steps[|steps| - 1];
      Kept(steps[..|steps| - 1]) + if last.Send? && !last.lost then [last.mail] else []
  }

  /** A step adds to a stream exactly the message that is sent to it and not lost. */
  lemma StepKept(net: Net, step: Step, a: Address, b: Address, i: nat)
    requires HostsOk(net) && Enabled(net, step) && b in net && i < NUM_BOXES
    ensures HostsOk(Do(net, step)) && b in Do(net, step) && HostOk(b, net[b]) && HostOk(b, Do(net, step)[b])
    ensures Stream(Do(net, step)[b], a, b, i) ==
            Stream(net[b], a, b, i) + if step.Send? && !step.lost && Is(step.mail, a, b, i) then [step.mail] else []
  {
    hide HostOk, Stream, Legal, Wire;
    StepHosts(net, step);
    BoxInRange(b, net[b]);
    if step.Send? {
      SentStream(net, step.at, step.mail, step.lost, step.padding, a, b, i);
    } else {
      if b == step.at { StepStream(net, step, a, i); }
      assert Stream(net[b], a, b, i) + [] == Stream(net[b], a, b, i);
    }
  }

  /** In every state of every run, a stream is exactly what was sent to it and not lost; so what
      Receive has given out is the first part of that. */
  lemma {:induction false} RunExact(nets: seq<Net>, steps: seq<Step>, n: nat, a: Address, b: Address, i: nat)
    requires Run(nets, steps) && n <= |steps| && b in nets[n] && i < NUM_BOXES
    ensures HostsOk(nets[n]) && HostOk(b, nets[n][b])
    ensures Stream(nets[n][b], a, b, i) == Only(Kept(steps[..n]), a, b, i)
    ensures Only(nets[n][b].taken[i], a, b, i) <= Only(Kept(steps[..n]), a, b, i)
  {
    if n == 0 {
      StartInOrder(nets[0]);
      assert steps[..0] == [];
    } else {
      var step := steps[n - 1];
      hide Only, HostOk, Arriving, Start, Is;
      assert Next(nets[n - 1], nets[n], step);
      RunExact(nets, steps, n - 1, a, b, i);
      StepKept(nets[n - 1], step, a, b, i);
      BoxInRange(b, nets[n][b]);
      KeptStep(steps, n, a, b, i);
    }
  }

  lemma KeptStep(steps: seq<Step>, n: nat, a: Address, b: Address, i: nat)
    requires 0 < n <= |steps|
    ensures var step := steps[n - 1];
      Only(Kept(steps[..n]), a, b, i) ==
      Only(Kept(steps[..n - 1]), a, b, i) + if step.Send? && !step.lost && Is(step.mail, a, b, i) then [step.mail] else []
  {
    var step := steps[n - 1];
    assert steps[..n][..n - 1] == steps[..n - 1];
    OnlyConcat(Kept(steps[..n - 1]), if step.Send? && !step.lost then [step.mail] else [], a, b, i);
    if step.Send? { OnlyOne(step.mail, a, b, i); }
  }

  /** What Receive has given out of a mailbox, sender by sender. */
  lemma TakenInOrder(net: Net, a: Address, b: Address, i: nat)
    requires InOrder(net) && a in net && b in net && i < NUM_BOXES
    ensures i < |net[b].taken| && InOrderPart(Only(net[b].taken[i], a, b, i), Only(net[a].sent, a, b, i))
  {
    hide Only, Arriving, Picks;
    assert FlowOk(net, a, b, i);
    BoxInRange(b, net[b]);
    FirstPart(Stream(net[b], a, b, i), Only(net[a].sent, a, b, i), Only(net[b].taken[i], a, b, i));
  }
}

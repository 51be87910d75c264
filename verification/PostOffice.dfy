/** code/network/post.cc over code/machine/network.cc: post offices on several
    machines, the wires between them that may lose packets, the one-packet inbox,
    the polling interrupt, the postal worker and the mailboxes, as one machine. */
module PostOffices {
  import opened Words
  import opened Mails

  const NUM_BOXES: nat := 10

  type Address = int32

  /** The postal worker: waiting for a message, past P but not yet at the network, or
      holding a packet it is about to put into a mailbox. */
  datatype Worker = AtP | HasPermit | Holding(pkt: Hdr, buffer: seq<byte>)

  /** One machine.  `sent` and `taken` record, for each machine and each mailbox, what
      was handed to Send and what Receive gave out. */
  datatype Host = Host(
    socket: seq<seq<byte>>,
    inHdr: Hdr,
    inbox: seq<byte>,
    messageAvailable: nat,
    worker: Worker,
    boxes: seq<seq<Mail>>,
    taken: seq<seq<Mail>>,
    sent: seq<Mail>)

  type Net = map<Address, Host>

  // ----- the steps -----

  datatype Step =
    | Send(at: Address, mail: Mail, lost: bool, padding: seq<byte>)
    | Poll(at: Address)
    | WorkerP(at: Address)
    | WorkerReceive(at: Address)
    | WorkerPut(at: Address)
    | Receive(at: Address, box: nat)

  /** Network::CheckPktAvail: a buffered packet delays the next one on the socket. */
  function PollHost(h: Host): Host {
    if h.inHdr.length != 0 || h.socket == [] || !Readable(h.socket[0]) then h
    else h.(socket := h.socket[1..], inHdr := PacketHdr(h.socket[0]), inbox := PacketData(h.socket[0]),
            messageAvailable := h.messageAvailable + 1)
  }

  /** A packet long enough for its own header. */
  predicate Readable(w: seq<byte>) {
    |w| == MAX_WIRE_SIZE && PacketHdr(w).length <= MAX_PACKET_SIZE
  }

  /** Network::Receive: with nothing buffered the length comes back as zero. */
  function TakePacket(h: Host): Host {
    h.(inHdr := h.inHdr.(length := 0), worker := Holding(h.inHdr, h.inbox))
  }

  /** The message in a payload; what this is for a malformed payload does not matter. */
  function MailIn(pkt: Hdr, b: seq<byte>): Mail {
    if |b| >= HEADER_SIZE && DecodeHdr(b[..HEADER_SIZE]).length <= |b| - HEADER_SIZE
    then Parse(pkt, b) else Mail(pkt, Hdr(0, 0, 0), [])
  }

  /** MailBox::Put */
  function PutMail(h: Host): Host
    requires h.worker.Holding?
  {
    var m := MailIn(h.worker.pkt, h.worker.buffer);
    if 0 <= m.hdr.to < |h.boxes|
    then h.(worker := AtP, boxes := h.boxes[m.hdr.to := h.boxes[m.hdr.to] + [m]])
    else h.(worker := AtP)
  }

  /** MailBox::Get */
  function GetMail(h: Host, box: nat): Host
    requires box < |h.boxes| && box < |h.taken| && h.boxes[box] != []
  {
    h.(boxes := h.boxes[box := h.boxes[box][1..]],
       taken := h.taken[box := h.taken[box] + [h.boxes[box][0]]])
  }

  ghost predicate Enabled(net: Net, step: Step) {
    && step.at in net
    && match step
       case Send(a, m, lost, padding) =>
         // what Send asserts, and what it fills in
         && Legal(m) && m.pkt.from == a && 0 <= m.hdr.to < NUM_BOXES
         && m.pkt.to in net
         && |Wire(m, padding)| == MAX_WIRE_SIZE
       case Poll(_) => true
       case WorkerP(a) => net[a].worker.AtP? && net[a].messageAvailable > 0
       case WorkerReceive(a) => net[a].worker.HasPermit?
       case WorkerPut(a) => net[a].worker.Holding?
       case Receive(a, box) => box < |net[a].boxes| && box < |net[a].taken| && net[a].boxes[box] != []
  }

  /** Send writes to the sender's record and, unless the packet is lost, to the socket
      of the machine it is for. */
  function SendOn(net: Net, a: Address, m: Mail, lost: bool, padding: seq<byte>): Net
    requires a in net && m.pkt.to in net
  {
    var net1 := net[a := net[a].(sent := net[a].sent + [m])];
    if lost then net1
    else net1[m.pkt.to := net1[m.pkt.to].(socket := net1[m.pkt.to].socket + [Wire(m, padding)])]
  }

  ghost function Do(net: Net, step: Step): Net
    requires Enabled(net, step)
  {
    match step
    case Send(a, m, lost, padding) => SendOn(net, a, m, lost, padding)
    case Poll(a) => net[a := PollHost(net[a])]
    case WorkerP(a) =>
      net[a := net[a].(messageAvailable := net[a].messageAvailable - 1, worker := HasPermit)]
    case WorkerReceive(a) => net[a := TakePacket(net[a])]
    case WorkerPut(a) => net[a := PutMail(net[a])]
    case Receive(a, box) => net[a := GetMail(net[a], box)]
  }

  // ----- what every machine keeps -----

  /** A payload that some Send put together for machine `b`. */
  ghost predicate GoodPacket(b: Address, pkt: Hdr, data: seq<byte>) {
    && HEADER_SIZE <= pkt.length == |data| <= MAX_PACKET_SIZE
    && pkt.to == b
    && DecodeHdr(data[..HEADER_SIZE]).length == pkt.length - HEADER_SIZE
    && 0 <= DecodeHdr(data[..HEADER_SIZE]).to < NUM_BOXES
  }

  ghost predicate GoodWire(b: Address, w: seq<byte>) {
    Readable(w) && GoodPacket(b, PacketHdr(w), PacketData(w))
  }

  ghost predicate BoxesOk(b: Address, boxes: seq<seq<Mail>>) {
    && |boxes| == NUM_BOXES
    && forall i, j :: 0 <= i < NUM_BOXES && 0 <= j < |boxes[i]| ==> boxes[i][j].hdr.to == i && boxes[i][j].pkt.to == b
  }

  /** The semaphore counts the buffered packet until the worker comes for it, so the
      worker always finds one, and every packet is one that was sent here. */
  ghost predicate HostOk(b: Address, h: Host) {
    && h.messageAvailable + (if h.worker.HasPermit? then 1 else 0) == (if h.inHdr.length != 0 then 1 else 0)
    && (h.inHdr.length != 0 ==> GoodPacket(b, h.inHdr, h.inbox))
    && (h.worker.Holding? ==> GoodPacket(b, h.worker.pkt, h.worker.buffer))
    && (forall i :: 0 <= i < |h.socket| ==> GoodWire(b, h.socket[i]))
    && BoxesOk(b, h.boxes) && BoxesOk(b, h.taken)
  }

  ghost predicate HostsOk(net: Net) {
    forall b :: b in net ==> HostOk(b, net[b])
  }

  /** The wire form of a message is a packet for its destination, and reads as itself. */
  lemma WireIsGood(m: Mail, padding: seq<byte>)
    requires Legal(m) && 0 <= m.hdr.to < NUM_BOXES && |Wire(m, padding)| == MAX_WIRE_SIZE
    ensures var w := Wire(m, padding);
      GoodWire(m.pkt.to, w) && MailIn(PacketHdr(w), PacketData(w)) == m
  {
    PacketRoundTrip(m, padding);
    MailRoundTrip(m);
  }

  lemma GoodPacketMail(b: Address, pkt: Hdr, data: seq<byte>)
    requires GoodPacket(b, pkt, data)
    ensures var m := MailIn(pkt, data);
      Legal(m) && m.pkt == pkt && m.pkt.to == b && 0 <= m.hdr.to < NUM_BOXES
  {
  }

  lemma PollOk(b: Address, h: Host)
    requires HostOk(b, h)
    ensures HostOk(b, PollHost(h))
  {
  }

  lemma TakePacketOk(b: Address, h: Host)
    requires HostOk(b, h) && h.worker.HasPermit?
    ensures h.inHdr.length != 0 && HostOk(b, TakePacket(h))
  {
  }

  lemma BoxesAppend(b: Address, boxes: seq<seq<Mail>>, m: Mail)
    requires BoxesOk(b, boxes) && 0 <= m.hdr.to < NUM_BOXES && m.pkt.to == b
    ensures BoxesOk(b, boxes[m.hdr.to := boxes[m.hdr.to] + [m]])
  {
  }

  lemma PutMailOk(b: Address, h: Host)
    requires HostOk(b, h) && h.worker.Holding?
    ensures HostOk(b, PutMail(h))
  {
    GoodPacketMail(b, h.worker.pkt, h.worker.buffer);
    BoxesAppend(b, h.boxes, MailIn(h.worker.pkt, h.worker.buffer));
  }

  lemma GetMailOk(b: Address, h: Host, box: nat)
    requires HostOk(b, h) && box < NUM_BOXES && h.boxes[box] != []
    ensures HostOk(b, GetMail(h, box))
  {
    var m := h.boxes[box][0];
    assert m.hdr.to == box && m.pkt.to == b;
    BoxesAppend(b, h.taken, m);
  }

  lemma SendOk(net: Net, a: Address, m: Mail, lost: bool, padding: seq<byte>)
    requires HostsOk(net) && a in net && m.pkt.to in net
    requires GoodWire(m.pkt.to, Wire(m, padding))
    ensures HostsOk(SendOn(net, a, m, lost, padding))
  {
    hide HostOk;
    var h := net[a].(sent := net[a].sent + [m]);
    RecordOk(a, net[a], m);
    var net1 := net[a := h];
    ArriveOk(m.pkt.to, net1[m.pkt.to], Wire(m, padding));
  }

  lemma RecordOk(b: Address, h: Host, m: Mail)
    requires HostOk(b, h)
    ensures HostOk(b, h.(sent := h.sent + [m]))
  {
  }

  lemma ArriveOk(b: Address, h: Host, w: seq<byte>)
    requires HostOk(b, h) && GoodWire(b, w)
    ensures HostOk(b, h.(socket := h.socket + [w]))
  {
  }

  /** Every step keeps every machine in order.  In particular the assertions on
      arriving packets and messages never fail. */
  lemma StepHosts(net: Net, step: Step)
    requires HostsOk(net) && Enabled(net, step)
    ensures HostsOk(Do(net, step))
  {
    hide HostOk;
    var a := step.at;
    match step
    case Send(_, m, lost, padding) =>
      WireIsGood(m, padding);
      SendOk(net, a, m, lost, padding);
    case Poll(_) => PollOk(a, net[a]);
    case WorkerP(_) => PermitOk(a, net[a]);
    case WorkerReceive(_) => TakePacketOk(a, net[a]);
    case WorkerPut(_) => PutMailOk(a, net[a]);
    case Receive(_, box) => BoxInRange(a, net[a]); GetMailOk(a, net[a], box);
  }

  lemma PermitOk(b: Address, h: Host)
    requires HostOk(b, h) && h.worker.AtP? && h.messageAvailable > 0
    ensures HostOk(b, h.(messageAvailable := h.messageAvailable - 1, worker := HasPermit))
  {
  }

  lemma BoxInRange(b: Address, h: Host)
    requires HostOk(b, h)
    ensures |h.boxes| == |h.taken| == NUM_BOXES
  {
  }
}

/** The network device and the post office of one machine, with the buffers they copy
    between, each routine proved to be the step it stands for. */
module PostMachines {
  import opened Words
  import opened Mails
  import opened PostOffices
  import opened InterruptQueues
  import opened MailBoxes

  const NETWORK_TIME: int := 100
  // which handler an interrupt of the network calls
  const READ_POLL: int := 1
  const SEND_DONE: int := 2

  /** bcopy: `src` moved into `dst` from position `at` on. */
  method BCopy(src: seq<byte>, dst: array<byte>, at: nat)
    requires at + |src| <= dst.Length
    modifies dst
    ensures dst[..] == old(dst[..at]) + src + old(dst[at + |src|..])
  {
    var i := 0;
    while i < |src|
      invariant 0 <= i <= |src|
      invariant forall j :: 0 <= j < dst.Length ==> dst[j] == if at <= j < at + i then src[j - at] else old(dst[j])
    {
      dst[at + i] := src[i];
      i := i + 1;
    }
  }

  class Network {
    const ident: Address
    var inHdr: Hdr
    const inbox: array<byte>
    var socket: seq<seq<byte>>
    ghost var packet: seq<byte>

    /** What is buffered in the inbox is the payload of the last packet read. */
    ghost predicate Valid()
      reads this, inbox
    {
      && inbox.Length == MAX_PACKET_SIZE
      && (inHdr.length != 0 ==> inHdr.length <= MAX_PACKET_SIZE && inbox[..inHdr.length] == packet)
    }

    constructor (addr: Address)
      ensures Valid() && fresh(inbox) && ident == addr && inHdr == Hdr(0, 0, 0) && socket == [] && packet == []
    {
      ident, inHdr, socket, packet := addr, Hdr(0, 0, 0), [], [];
      inbox := new byte[MAX_PACKET_SIZE];
    }

    /** Reads the next packet off the socket when the inbox is free; `arrived` is the call
        of the read handler.  The assertion on the packet holds of every packet sent here.
        In every case the next poll is scheduled. */
    method CheckPktAvail() returns (arrived: bool, poll: Request)
      requires Valid() && (socket != [] ==> GoodWire(ident, socket[0]))
      modifies this, inbox
      ensures Valid() && (arrived <==> old(inHdr.length) == 0 && old(socket) != [])
      ensures poll == Request(READ_POLL, ident, NETWORK_TIME, NetworkRecvInt)
      ensures !arrived ==> inHdr == old(inHdr) && socket == old(socket) && packet == old(packet)
      ensures arrived ==>
        && socket == old(socket)[1..] && inHdr == PacketHdr(old(socket)[0]) && packet == PacketData(old(socket)[0])
    {
      poll := Request(READ_POLL, ident, NETWORK_TIME, NetworkRecvInt);
      if inHdr.length != 0 {
        return false, poll;
      }
      if socket == [] {
        return false, poll;
      }
      var buffer := socket[0];
      socket := socket[1..];
      inHdr := DecodeHdr(buffer[..HEADER_SIZE]);
      assert inHdr.to == ident && inHdr.length <= MAX_PACKET_SIZE;
      BCopy(buffer[HEADER_SIZE..HEADER_SIZE + inHdr.length], inbox, 0);
      packet := PacketData(buffer);
      arrived := true;
    }

    /** Header and data in one packet, padded to the fixed size with whatever the buffer
        holds; nothing when the packet is lost.  The sender hears of it all the same. */
    method Send(hdr: Hdr, data: array<byte>, lost: bool) returns (packets: seq<seq<byte>>, done: Request)
      requires 0 < hdr.length <= MAX_PACKET_SIZE && hdr.from == ident && hdr.length <= data.Length
      ensures done == Request(SEND_DONE, ident, NETWORK_TIME, NetworkSendInt)
      ensures lost ==> packets == []
      ensures !lost ==>
        |packets| == 1 && |packets[0]| == MAX_WIRE_SIZE && packets[0][..HEADER_SIZE + hdr.length] == EncodeHdr(hdr) + data[..hdr.length]
    {
      done := Request(SEND_DONE, ident, NETWORK_TIME, NetworkSendInt);
      if lost {
        return [], done;
      }
      var buffer := new byte[MAX_WIRE_SIZE];
      BCopy(EncodeHdr(hdr), buffer, 0);
      BCopy(data[..hdr.length], buffer, HEADER_SIZE);
      packets := [buffer[..]];
    }

    /** Hands over the buffered packet, if there is one, and frees the inbox. */
    method Receive(data: array<byte>) returns (hdr: Hdr)
      requires Valid() && data.Length == MAX_PACKET_SIZE && data != inbox
      modifies this`inHdr, data
      ensures Valid() && hdr == old(inHdr) && inHdr == old(inHdr).(length := 0)
      ensures hdr.length != 0 ==> hdr.length <= MAX_PACKET_SIZE && data[..hdr.length] == packet
      ensures hdr.length == 0 ==> data[..] == old(data[..])
    {
      hdr := inHdr;
      inHdr := inHdr.(length := 0);
      if hdr.length != 0 {
        BCopy(inbox[..hdr.length], data, 0);
      }
    }
  }

  class PostOffice {
    const network: Network
    var messageAvailable: nat
    const mailboxes: Boxes
    // the postal worker's variables, and where it is
    const buffer: array<byte>
    var pktHdr: Hdr
    ghost var worker: Worker
    ghost var taken: seq<seq<Mail>>
    ghost var sent: seq<Mail>

    /** What belongs to the post office besides its mailboxes. */
    ghost function Counter(): set<object> {
      {this, network, network.inbox, buffer}
    }

    ghost function Repr(): set<object>
      reads mailboxes
    {
      Counter() + mailboxes.repr
    }

    ghost predicate Valid()
      reads mailboxes, Repr()
    {
      && network.Valid() && buffer.Length == MAX_PACKET_SIZE && buffer != network.inbox
      && mailboxes.Valid() && this !in mailboxes.repr && network !in mailboxes.repr
      && network.inbox !in mailboxes.repr && buffer !in mailboxes.repr
      && (worker.Holding? ==> worker.pkt == pktHdr && pktHdr.length <= MAX_PACKET_SIZE && worker.buffer == buffer[..pktHdr.length])
    }

    ghost function State(): Host
      requires Valid()
      reads mailboxes, Repr()
    {
      Host(network.socket, network.inHdr, network.packet, messageAvailable, worker, mailboxes.Contents(), taken, sent)
    }

    constructor (addr: Address)
      ensures Valid() && fresh(Repr()) && network.ident == addr
      ensures State() == Host([], Hdr(0, 0, 0), [], 0, AtP, seq(NUM_BOXES, _ => []), seq(NUM_BOXES, _ => []), [])
    {
      hide Boxes.Valid, Boxes.Contents;
      network := new Network(addr);
      messageAvailable := 0;
      var boxes := NewBoxes(NUM_BOXES);
      mailboxes := boxes;
      buffer := new byte[MAX_PACKET_SIZE];
      pktHdr := Hdr(0, 0, 0);
      worker, taken, sent := AtP, seq(NUM_BOXES, _ => []), [];
    }

    /** The polling interrupt, with IncomingPacket as its handler. */
    method Poll() returns (poll: Request)
      requires Valid() && HostOk(network.ident, State())
      modifies Counter()
      ensures Valid() && Repr() == old(Repr()) && State() == PollHost(old(State()))
      ensures poll.fromNow == NETWORK_TIME && poll.kind == NetworkRecvInt
    {
      hide Boxes.Valid, Boxes.Contents;
      assert network.socket != [] ==> GoodWire(network.ident, network.socket[0]);
      var arrived;
      arrived, poll := network.CheckPktAvail();
      if arrived {
        messageAvailable := messageAvailable + 1;
      }
    }

    /** The worker gets past P. */
    method WaitForMessage()
      requires Valid() && worker.AtP? && messageAvailable > 0
      modifies this`messageAvailable, this`worker
      ensures Valid() && Repr() == old(Repr())
      ensures State() == old(State()).(messageAvailable := old(messageAvailable) - 1, worker := HasPermit)
    {
      hide Boxes.Valid, Boxes.Contents;
      messageAvailable := messageAvailable - 1;
      worker := HasPermit;
    }

    /** The worker takes the packet, which is there. */
    method FetchPacket()
      requires Valid() && HostOk(network.ident, State()) && worker.HasPermit?
      modifies Counter()
      ensures Valid() && Repr() == old(Repr()) && pktHdr.length != 0 && State() == TakePacket(old(State()))
    {
      hide Boxes.Valid, Boxes.Contents;
      TakePacketOk(network.ident, State());
      assert |network.packet| == network.inHdr.length;
      pktHdr := network.Receive(buffer);
      worker := Holding(pktHdr, buffer[..pktHdr.length]);
    }

    /** The worker puts the message into its mailbox; the assertions on arriving mail hold. */
    method PutIntoBox()
      requires Valid() && HostOk(network.ident, State()) && worker.Holding?
      modifies Repr()
      ensures Valid() && fresh(Repr() - old(Repr())) && State() == PutMail(old(State()))
    {
      hide Boxes.Valid, Boxes.Contents;
      var mail := Unpack();
      mailboxes.Put(mail.hdr.to, mail);
      worker := AtP;
    }

    /** The message in the worker's buffer. */
    method Unpack() returns (mail: Mail)
      requires Valid() && HostOk(network.ident, State()) && worker.Holding?
      ensures mail == MailIn(worker.pkt, worker.buffer) && 0 <= mail.hdr.to < |State().boxes|
    {
      GoodPacketMail(network.ident, pktHdr, buffer[..pktHdr.length]);
      HoldsHeader(network.ident, State());
      ghost var b := worker.buffer;
      assert b[..HEADER_SIZE] == buffer[..HEADER_SIZE];
      var mailHdr := DecodeHdr(buffer[..HEADER_SIZE]);
      assert 0 <= mailHdr.to < NUM_BOXES && mailHdr.length <= MAX_MAIL_SIZE;
      assert b[HEADER_SIZE..HEADER_SIZE + mailHdr.length] == buffer[HEADER_SIZE..HEADER_SIZE + mailHdr.length];
      mail := Mail(pktHdr, mailHdr, buffer[HEADER_SIZE..HEADER_SIZE + mailHdr.length]);
    }

    /** Fills in the packet header and hands header, mail header and data to the network. */
    method Send(to: Address, mailHdr: Hdr, data: seq<byte>, lost: bool) returns (packets: seq<seq<byte>>, done: Request)
      requires Valid() && mailHdr.length <= MAX_MAIL_SIZE && 0 <= mailHdr.to < NUM_BOXES && mailHdr.length <= |data|
      modifies this`sent
      ensures Valid() && Repr() == old(Repr()) && done.fromNow == NETWORK_TIME && done.kind == NetworkSendInt
      ensures var m := Mail(Hdr(to, network.ident, mailHdr.length + HEADER_SIZE), mailHdr, data[..mailHdr.length]);
        && Legal(m) && State() == old(State()).(sent := old(sent) + [m])
        && (lost ==> packets == [])
        && (!lost ==> |packets| == 1 && |packets[0]| == MAX_WIRE_SIZE && exists padding :: packets[0] == Wire(m, padding))
    {
      hide Boxes.Valid, Boxes.Contents;
      var buffer := new byte[MAX_PACKET_SIZE];
      var pktHdr := Hdr(to, network.ident, mailHdr.length + HEADER_SIZE);
      ghost var m := Mail(pktHdr, mailHdr, data[..mailHdr.length]);
      BCopy(EncodeHdr(mailHdr), buffer, 0);
      BCopy(data[..mailHdr.length], buffer, HEADER_SIZE);
      assert buffer[..pktHdr.length] == Payload(m);
      packets, done := network.Send(pktHdr, buffer, lost);
      if !lost {
        ghost var padding := packets[0][HEADER_SIZE + pktHdr.length..];
        assert packets[0] == packets[0][..HEADER_SIZE + pktHdr.length] + padding == Wire(m, padding);
      }
      sent := sent + [m];
    }

    /** Takes the oldest message out of a mailbox that has one. */
    method Receive(box: nat) returns (mail: Mail)
      requires Valid() && box < |State().boxes| == |taken| && State().boxes[box] != []
      modifies Repr()
      ensures Valid() && fresh(Repr() - old(Repr()))
      ensures mail == old(State()).boxes[box][0] && State() == GetMail(old(State()), box)
    {
      hide Boxes.Valid, Boxes.Contents;
      mail := mailboxes.Get(box);
      taken := taken[box := taken[box] + [mail]];
    }
  }

  lemma HoldsHeader(b: Address, h: Host)
    requires HostOk(b, h) && h.worker.Holding?
    ensures |h.boxes| == NUM_BOXES && HEADER_SIZE <= h.worker.pkt.length == |h.worker.buffer|
    ensures DecodeHdr(h.worker.buffer[..HEADER_SIZE]).length == h.worker.pkt.length - HEADER_SIZE
    ensures 0 <= DecodeHdr(h.worker.buffer[..HEADER_SIZE]).to < NUM_BOXES
  {
  }
}

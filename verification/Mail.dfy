/** code/network/post.h and code/machine/network.h: what a message looks like on the
    wire.  Packet header, mail header and data follow one another; the rest of the
    fixed-size packet is padding with no meaning. */
module Mails {
  import opened Words

  const MAX_WIRE_SIZE: nat := 64
  const MAX_PACKET_SIZE: nat := 52
  const MAX_MAIL_SIZE: nat := 40
  const HEADER_SIZE: nat := 12

  /** Both headers: where to, where from, and how many bytes follow.  Addresses are
      machines in a packet header and mailboxes in a mail header. */
  datatype Hdr = Hdr(to: int32, from: int32, length: word)

  /** A message with both headers. */
  datatype Mail = Mail(pkt: Hdr, hdr: Hdr, data: seq<byte>)

  function EncodeHdr(h: Hdr): (b: seq<byte>)
    ensures |b| == HEADER_SIZE
  {
    EncodeWords([ToWord(h.to), ToWord(h.from), h.length])
  }

  function DecodeHdr(b: seq<byte>): Hdr
    requires |b| == HEADER_SIZE
  {
    var ws := DecodeWords(b);
    Hdr(FromWord(ws[0]), FromWord(ws[1]), ws[2])
  }

  lemma HdrRoundTrip(h: Hdr)
    ensures DecodeHdr(EncodeHdr(h)) == h
  {
    WordsRoundTrip([ToWord(h.to), ToWord(h.from), h.length]);
  }

  /** What PostOffice::Send lets through: the lengths agree and fit. */
  ghost predicate Legal(m: Mail) {
    && |m.data| == m.hdr.length <= MAX_MAIL_SIZE
    && m.pkt.length == m.hdr.length + HEADER_SIZE
  }

  /** The payload the network sees: mail header and data. */
  function Payload(m: Mail): (b: seq<byte>)
    ensures |b| == HEADER_SIZE + |m.data|
  {
    EncodeHdr(m.hdr) + m.data
  }

  /** The packet on the wire, with `padding` behind what counts. */
  function Wire(m: Mail, padding: seq<byte>): (w: seq<byte>) {
    EncodeHdr(m.pkt) + Payload(m) + padding
  }

  /** What Network::CheckPktAvail makes of a packet: its header and its payload. */
  function PacketHdr(w: seq<byte>): Hdr
    requires |w| >= HEADER_SIZE
  {
    DecodeHdr(w[..HEADER_SIZE])
  }

  function PacketData(w: seq<byte>): (b: seq<byte>)
    requires |w| >= HEADER_SIZE && PacketHdr(w).length <= |w| - HEADER_SIZE
  {
    w[HEADER_SIZE..HEADER_SIZE + PacketHdr(w).length]
  }

  /** What PostOffice::PostalDelivery makes of a payload. */
  function Parse(pkt: Hdr, b: seq<byte>): Mail
    requires |b| >= HEADER_SIZE && DecodeHdr(b[..HEADER_SIZE]).length <= |b| - HEADER_SIZE
  {
    var hdr := DecodeHdr(b[..HEADER_SIZE]);
    Mail(pkt, hdr, b[HEADER_SIZE..HEADER_SIZE + hdr.length])
  }

  /** Where both headers and the data are on the wire. */
  lemma OnTheWire(m: Mail, padding: seq<byte>)
    ensures var w := Wire(m, padding);
      && |w| == 24 + |m.data| + |padding| && w[24..24 + |m.data|] == m.data
      && Spells(w[..4], ToWord(m.pkt.to)) && Spells(w[4..8], ToWord(m.pkt.from)) && Spells(w[8..12], m.pkt.length)
      && Spells(w[12..16], ToWord(m.hdr.to)) && Spells(w[16..20], ToWord(m.hdr.from)) && Spells(w[20..24], m.hdr.length)
  {
    hide EncodeHdr, Spells;
    var w := Wire(m, padding);
    HdrInBytes(m.pkt);
    HdrInBytes(m.hdr);
    var p, h := EncodeHdr(m.pkt), EncodeHdr(m.hdr);
    assert w[..4] == p[..4] && w[4..8] == p[4..8] && w[8..12] == p[8..12];
    assert w[12..16] == h[..4] && w[16..20] == h[4..8] && w[20..24] == h[8..12];
  }

  lemma HdrInBytes(h: Hdr)
    ensures var b := EncodeHdr(h);
      Spells(b[..4], ToWord(h.to)) && Spells(b[4..8], ToWord(h.from)) && Spells(b[8..12], h.length)
  {
    var ws := [ToWord(h.to), ToWord(h.from), h.length];
    WordsInBytes(ws, 0);
    WordsInBytes(ws, 1);
    WordsInBytes(ws, 2);
    assert EncodeWords(ws)[0..4] == EncodeWords(ws)[..4];
  }

  lemma PacketRoundTrip(m: Mail, padding: seq<byte>)
    requires Legal(m)
    ensures |Wire(m, padding)| >= HEADER_SIZE && PacketHdr(Wire(m, padding)) == m.pkt
    ensures m.pkt.length <= |Wire(m, padding)| - HEADER_SIZE && PacketData(Wire(m, padding)) == Payload(m)
  {
    var w := Wire(m, padding);
    assert w[..HEADER_SIZE] == EncodeHdr(m.pkt);
    HdrRoundTrip(m.pkt);
    assert w[HEADER_SIZE..HEADER_SIZE + m.pkt.length] == Payload(m);
  }

  /** Taking a payload apart gives back the headers and every byte of the data. */
  lemma MailRoundTrip(m: Mail)
    requires Legal(m)
    ensures var b := Payload(m);
      |b| >= HEADER_SIZE && DecodeHdr(b[..HEADER_SIZE]).length <= |b| - HEADER_SIZE && Parse(m.pkt, b) == m
  {
    var b := Payload(m);
    assert b[..HEADER_SIZE] == EncodeHdr(m.hdr);
    HdrRoundTrip(m.hdr);
    assert b[HEADER_SIZE..HEADER_SIZE + m.hdr.length] == m.data;
  }
}

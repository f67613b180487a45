/** TCP segments as bytes (section 3.1 of RFC 9293): how they are written, by `tcp_send_packet` and by any
    peer, and what `tcp_process` reads of them. */
module TcpWire {
  import opened Machine
  import opened Tcp
  import Sum = Checksum

  const FLAG_FIN := 0x01
  const FLAG_SYN := 0x02
  const FLAG_PSH := 0x08
  const FLAG_ACK := 0x10
  const WINDOW := 8192
  const FRAME_SIZE := 1500     // the buffer of `tcp_send_packet`
  const CHECKSUM_AT := 16

  // ---------------------------------------------------------------- what is read

  function HeaderLen(packet: seq<byte>): nat
    requires |packet| >= HEADER_LEN
  {
    packet[12] / 16 * 4
  }

  /** A packet whose header, by its own length field, lies inside it. */
  predicate PacketOk(packet: seq<byte>) {
    |packet| >= HEADER_LEN ==> HeaderLen(packet) <= |packet|
  }

  function Flag(flags: byte, mask: nat): bool
    requires mask > 0
  {
    flags / mask % 2 == 1
  }

  function Parse(packet: seq<byte>): Segment
    requires |packet| >= HEADER_LEN && PacketOk(packet)
  {
    Segment(Net32(packet, 4), Net32(packet, 8),
            Flag(packet[13], FLAG_SYN), Flag(packet[13], FLAG_ACK), Flag(packet[13], FLAG_FIN),
            packet[HeaderLen(packet)..])
  }

  // ---------------------------------------------------------------- what is written

  /** The control bits; `rest` holds the two above URG. */
  datatype Bits = Bits(fin: bool, syn: bool, rst: bool, psh: bool, ack: bool, urg: bool, rest: nat)

  function One(on: bool): nat {
    if on then 1 else 0
  }

  function BitsByte(b: Bits): byte
    requires b.rest < 4
  {
    One(b.fin) + 2 * One(b.syn) + 4 * One(b.rst) + 8 * One(b.psh) + 16 * One(b.ack) + 32 * One(b.urg) + 64 * b.rest
  }

  /** The header; `reserved` is the low half of the byte with the data offset. */
  datatype Header = Header(srcPort: nat, destPort: nat, seqNo: nat, ackNo: nat, reserved: nat, bits: Bits,
                           window: nat, checksum: nat, urgent: nat, options: seq<byte>)

  predicate HeaderOk(h: Header) {
    && h.srcPort < TWO_16 && h.destPort < TWO_16 && h.seqNo < TWO_32 && h.ackNo < TWO_32
    && h.reserved < 16 && h.bits.rest < 4 && h.window < TWO_16 && h.checksum < TWO_16 && h.urgent < TWO_16
    && |h.options| % 4 == 0 && |h.options| <= 40
  }

  /** The length of the header in words of four bytes, and the reserved bits. */
  function OffsetByte(h: Header): byte
    requires HeaderOk(h)
  {
    (5 + |h.options| / 4) * 16 + h.reserved
  }

  /** The bytes behind the acknowledgement number. */
  function Trailer(h: Header): (r: seq<byte>)
    requires HeaderOk(h)
    ensures |r| == 8 + |h.options|
  {
    [OffsetByte(h), BitsByte(h.bits)] + Be16(h.window) + Be16(h.checksum) + Be16(h.urgent) + h.options
  }

  /** A whole segment. */
  function PacketBytes(h: Header, payload: seq<byte>): (r: seq<byte>)
    requires HeaderOk(h)
    ensures |r| == HEADER_LEN + |h.options| + |payload|
  {
    Be16(h.srcPort) + Be16(h.destPort) + Be32(h.seqNo) + Be32(h.ackNo) + Trailer(h) + payload
  }

  // ---------------------------------------------------------------- reading undoes writing

  lemma OffsetReads(n: nat, reserved: nat)
    requires n % 4 == 0 && n <= 40 && reserved < 16
    ensures ((5 + n / 4) * 16 + reserved) / 16 * 4 == HEADER_LEN + n
  {
  }

  lemma BitRead(f: byte, mask: nat, low: nat, on: bool, high: nat)
    requires mask == 1 || mask == 2 || mask == 16
    requires low < mask && f == low + mask * One(on) + 2 * mask * high
    ensures Flag(f, mask) == on
  {
    if mask == 1 {
    } else if mask == 2 {
    }
  }

  lemma BitsRead(b: Bits)
    requires b.rest < 4
    ensures var f := BitsByte(b);
      Flag(f, FLAG_FIN) == b.fin && Flag(f, FLAG_SYN) == b.syn && Flag(f, FLAG_ACK) == b.ack
  {
    var f, high := BitsByte(b), One(b.urg) + 2 * b.rest;
    var mid := One(b.rst) + 2 * One(b.psh);
    BitRead(f, FLAG_FIN, 0, b.fin, One(b.syn) + 2 * mid + 8 * (One(b.ack) + 2 * high));
    BitRead(f, FLAG_SYN, One(b.fin), b.syn, mid + 4 * (One(b.ack) + 2 * high));
    BitRead(f, FLAG_ACK, One(b.fin) + 2 * One(b.syn) + 4 * mid, b.ack, high);
  }

  lemma NumbersRead(ports: seq<byte>, seqNo: nat, ackNo: nat, rest: seq<byte>)
    requires |ports| == 4 && seqNo < TWO_32 && ackNo < TWO_32
    ensures var d := ports + Be32(seqNo) + Be32(ackNo) + rest; Net32(d, 4) == seqNo && Net32(d, 8) == ackNo
  {
    var d := ports + Be32(seqNo) + Be32(ackNo) + rest;
    assert Match(d, 4, Be32(seqNo)) && Match(d, 8, Be32(ackNo));
    Net32Reads(d, 4, seqNo);
    Net32Reads(d, 8, ackNo);
  }

  lemma PacketParts(h: Header, payload: seq<byte>)
    requires HeaderOk(h)
    ensures var d, ports := PacketBytes(h, payload), Be16(h.srcPort) + Be16(h.destPort);
      && d == ports + Be32(h.seqNo) + Be32(h.ackNo) + (Trailer(h) + payload)
      && d[12] == OffsetByte(h) && d[13] == BitsByte(h.bits) && d[HEADER_LEN + |h.options|..] == payload
  {
    var d, t := PacketBytes(h, payload), Trailer(h);
    assert d[12] == t[0] && d[13] == t[1];
  }

  /** What `tcp_process` reads of a segment is what its sender wrote: sequence and acknowledgement number,
      the three flags it looks at, and the payload behind header and options. */
  lemma ParseReadsBack(h: Header, payload: seq<byte>)
    requires HeaderOk(h)
    ensures var d := PacketBytes(h, payload);
      && |d| >= HEADER_LEN && PacketOk(d)
      && Parse(d) == Segment(h.seqNo, h.ackNo, h.bits.syn, h.bits.ack, h.bits.fin, payload)
  {
    PacketParts(h, payload);
    OffsetReads(|h.options|, h.reserved);
    NumbersRead(Be16(h.srcPort) + Be16(h.destPort), h.seqNo, h.ackNo, Trailer(h) + payload);
    BitsRead(h.bits);
  }

  // ---------------------------------------------------------------- tcp_send_packet

  /** A segment handed to `tcp_send_packet`. */
  datatype Out = Out(seqNo: nat, ackNo: nat, flags: nat, payload: seq<byte>)

  predicate OutOk(o: Out) {
    o.seqNo < TWO_32 && o.ackNo < TWO_32 && o.flags < 0x100 && HEADER_LEN + |o.payload| <= FRAME_SIZE
  }

  function BitsOf(f: byte): (b: Bits)
    ensures b.rest < 4
  {
    Bits(f % 2 == 1, f / 2 % 2 == 1, f / 4 % 2 == 1, f / 8 % 2 == 1, f / 16 % 2 == 1, f / 32 % 2 == 1, f / 64)
  }

  /** The last bit of a number divided by `k`. */
  lemma BitBelow(f: nat, k: nat)
    requires k == 1 || k == 2 || k == 4 || k == 8 || k == 16 || k == 32
    ensures f / k == One(f / k % 2 == 1) + 2 * (f / (2 * k))
  {
  }

  lemma Weights(b: Bits, f0: nat, f1: nat, f2: nat, f3: nat, f4: nat, f5: nat)
    requires b.rest < 4 && f5 == One(b.urg) + 2 * b.rest && f4 == One(b.ack) + 2 * f5 && f3 == One(b.psh) + 2 * f4
    requires f2 == One(b.rst) + 2 * f3 && f1 == One(b.syn) + 2 * f2 && f0 == One(b.fin) + 2 * f1
    ensures BitsByte(b) == f0
  {
  }

  lemma BitsByteOf(f: byte)
    ensures BitsByte(BitsOf(f)) == f
  {
    BitBelow(f, 1);
    BitBelow(f, 2);
    BitBelow(f, 4);
    BitBelow(f, 8);
    BitBelow(f, 16);
    BitBelow(f, 32);
    Weights(BitsOf(f), f, f / 2, f / 4, f / 8, f / 16, f / 32);
  }

  datatype Ends = Ends(srcIp: nat, destIp: nat, srcPort: nat, destPort: nat)

  predicate EndsOk(e: Ends) {
    e.srcIp < TWO_32 && e.destIp < TWO_32 && e.srcPort < TWO_16 && e.destPort < TWO_16
  }

  /** The header of an outgoing segment, with this checksum. */
  function OutHeader(e: Ends, o: Out, checksum: nat): (h: Header)
    requires EndsOk(e) && OutOk(o) && checksum < TWO_16
    ensures HeaderOk(h)
  {
    Header(e.srcPort, e.destPort, o.seqNo, o.ackNo, 0, BitsOf(o.flags), WINDOW, checksum, 0, [])
  }

  function OutBytes(e: Ends, o: Out, checksum: nat): (d: seq<byte>)
    requires EndsOk(e) && OutOk(o) && checksum < TWO_16
    ensures |d| == HEADER_LEN + |o.payload|
  {
    PacketBytes(OutHeader(e, o, checksum), o.payload)
  }

  /** The checksum that goes into it. */
  function OutSum(e: Ends, o: Out): (c: nat)
    requires EndsOk(e) && OutOk(o)
    ensures c < TWO_16
  {
    Sum.Complement(Sum.PseudoHeader(e.srcIp, e.destIp, HEADER_LEN + |o.payload|) + OutBytes(e, o, 0))
  }

  lemma ChecksumInPlace(e: Ends, o: Out, c: nat)
    requires EndsOk(e) && OutOk(o) && c < TWO_16
    ensures var d := OutBytes(e, o, 0);
      && d[CHECKSUM_AT] == d[CHECKSUM_AT + 1] == 0
      && OutBytes(e, o, c) == d[..CHECKSUM_AT] + Sum.Stored(Sum.Swap(c)) + d[CHECKSUM_AT + 2..]
  {
    Sum.StoredSwap(c);
    var h := OutHeader(e, o, c);
    var front := Be16(h.srcPort) + Be16(h.destPort) + Be32(h.seqNo) + Be32(h.ackNo) +
      [OffsetByte(h), BitsByte(h.bits)] + Be16(h.window);
    var back := Be16(h.urgent) + [] + o.payload;
    assert |front| == CHECKSUM_AT;
    assert OutBytes(e, o, c) == front + Be16(c) + back;
    assert OutBytes(e, o, 0) == front + Be16(0) + back;
    assert Sum.Stored(Sum.Swap(c)) == Be16(c);
  }

  /** What goes out is read by a peer with the same code as it was meant, and passes the checksum test. */
  lemma SentReadsBack(e: Ends, o: Out)
    requires EndsOk(e) && OutOk(o)
    ensures var d := OutBytes(e, o, OutSum(e, o));
      && |d| >= HEADER_LEN && PacketOk(d)
      && Parse(d) == Segment(o.seqNo, o.ackNo, Flag(o.flags, 0x02), Flag(o.flags, 0x10), Flag(o.flags, 0x01), o.payload)
      && Sum.Ones(Sum.BeSum(Sum.PseudoHeader(e.srcIp, e.destIp, |d|) + d)) == Sum.ONES
  {
    var c := OutSum(e, o);
    BitsByteOf(o.flags);
    ParseReadsBack(OutHeader(e, o, c), o.payload);
    BitsRead(BitsOf(o.flags));
    ChecksumInPlace(e, o, c);
    Sum.SegmentVerifies(e.srcIp, e.destIp, OutBytes(e, o, 0));
  }

  /** Stores bytes one by one. */
  method Store(buf: array<byte>, at: nat, bytes: seq<byte>)
    requires at + |bytes| <= buf.Length
    modifies buf
    ensures buf[..] == old(buf[..at]) + bytes + old(buf[at + |bytes|..])
  {
    for i := 0 to |bytes|
      invariant buf[..at + i] == old(buf[..at]) + bytes[..i]
      invariant buf[at + i..] == old(buf[at + i..])
    {
      buf[at + i] := bytes[i];
      assert buf[..at + i + 1] == buf[..at + i] + [bytes[i]] && bytes[..i + 1] == bytes[..i] + [bytes[i]];
      assert buf[at + i + 1..] == old(buf[at + i..])[1..];
    }
    assert bytes[..|bytes|] == bytes;
    assert buf[..] == buf[..at + |bytes|] + buf[at + |bytes|..];
  }

  /** Appends bytes to the first `at` that are written. */
  method Emit(buf: array<byte>, at: nat, bytes: seq<byte>, ghost done: seq<byte>) returns (next: nat)
    requires at + |bytes| <= buf.Length && buf[..at] == done
    modifies buf
    ensures next == at + |bytes| && buf[..next] == done + bytes
  {
    Store(buf, at, bytes);
    next := at + |bytes|;
    assert buf[..next] == buf[..][..next];
  }

  /** The header fields in their order, with a zero checksum, and the payload. */
  method Draft(buf: array<byte>, e: Ends, o: Out) returns (len: nat)
    requires EndsOk(e) && OutOk(o) && buf.Length == FRAME_SIZE
    modifies buf
    ensures len == HEADER_LEN + |o.payload| && buf[..len] == OutBytes(e, o, 0)
  {
    ghost var h := OutHeader(e, o, 0);
    BitsByteOf(o.flags);
    assert OffsetByte(h) == 0x50;
    ghost var a := Be16(e.srcPort);
    len := Emit(buf, 0, Be16(e.srcPort), []);
    len := Emit(buf, len, Be16(e.destPort), a);
    len := Emit(buf, len, Be32(o.seqNo), a + Be16(e.destPort));
    len := Emit(buf, len, Be32(o.ackNo), a + Be16(e.destPort) + Be32(o.seqNo));
    ghost var front := a + Be16(e.destPort) + Be32(o.seqNo) + Be32(o.ackNo);
    len := DraftTrailer(buf, len, o, front);
    ghost var trailer := [0x50, o.flags] + Be16(WINDOW) + Be16(0) + Be16(0);
    assert Trailer(h) == trailer;
    len := Emit(buf, len, o.payload, front + trailer);
  }

  method DraftTrailer(buf: array<byte>, at: nat, o: Out, ghost front: seq<byte>) returns (len: nat)
    requires OutOk(o) && at + 8 <= buf.Length && buf[..at] == front
    modifies buf
    ensures len == at + 8 && buf[..len] == front + ([0x50, o.flags] + Be16(WINDOW) + Be16(0) + Be16(0))
  {
    len := Emit(buf, at, [HEADER_LEN / 4 * 16, o.flags], front);
    len := Emit(buf, len, Be16(WINDOW), front + [0x50, o.flags]);
    len := Emit(buf, len, [0, 0], front + [0x50, o.flags] + Be16(WINDOW));
    len := Emit(buf, len, [0, 0], front + [0x50, o.flags] + Be16(WINDOW) + [0, 0]);
    assert Be16(0) == [0, 0];
    assert front + [0x50, o.flags] + Be16(WINDOW) + [0, 0] + [0, 0] ==
      front + ([0x50, o.flags] + Be16(WINDOW) + Be16(0) + Be16(0));
  }

  /** `tcp_send_packet` up to the call of `ip_send`: the buffer holds the segment, its checksum in place. */
  method SendPacket(buf: array<byte>, e: Ends, o: Out) returns (len: nat)
    requires EndsOk(e) && OutOk(o) && buf.Length == FRAME_SIZE
    modifies buf
    ensures len == HEADER_LEN + |o.payload| && PacketOk(buf[..len])
    ensures Parse(buf[..len]) ==
      Segment(o.seqNo, o.ackNo, Flag(o.flags, 0x02), Flag(o.flags, 0x10), Flag(o.flags, 0x01), o.payload)
    ensures Sum.Ones(Sum.BeSum(Sum.PseudoHeader(e.srcIp, e.destIp, len) + buf[..len])) == Sum.ONES
    ensures buf[..len] == OutBytes(e, o, OutSum(e, o))
  {
    len := Draft(buf, e, o);
    var c := Sum.TcpChecksum(e.srcIp, e.destIp, buf[..len]);
    ChecksumInPlace(e, o, OutSum(e, o));
    ghost var d := OutBytes(e, o, 0);
    Store(buf, CHECKSUM_AT, Sum.Stored(c));
    assert buf[..len] == d[..CHECKSUM_AT] + Sum.Stored(c) + d[CHECKSUM_AT + 2..];
    SentReadsBack(e, o);
  }
}

/** The TCP control block as a state machine over segment arrivals and calls, with sequence numbers
    modulo 2^32 (sections 3.3.2 and 3.4 of RFC 9293). */
module Tcp {
  import opened Machine

  const RX_SIZE := 16384
  const HEADER_LEN := 20

  datatype State = Closed | SynSent | Established | FinWait

  /** A segment as `tcp_process` reads it. */
  datatype Segment = Segment(seqNo: nat, ackNo: nat, syn: bool, ack: bool, fin: bool, payload: seq<byte>)

  /** The control block; `rx` is the filled part of the receive buffer. */
  datatype Tcb = Tcb(state: State, sndNxt: nat, rcvNxt: nat, rx: seq<byte>, processed: nat, hasData: bool)

  // ---------------------------------------------------------------- transitions

  /** The control block once `tcp_connect` has sent its SYN. */
  function Connecting(isn: nat): Tcb {
    Tcb(SynSent, isn, 0, [], 0, false)
  }

  predicate Accepts(t: Tcb, s: Segment) {
    t.state == Established && s.payload != [] && |t.rx| + |s.payload| < RX_SIZE
  }

  /** `tcp_process`. */
  function Arrive(t: Tcb, s: Segment): Tcb {
    if t.state == SynSent && s.syn && s.ack then
      t.(state := Established, rcvNxt := U32(s.seqNo + 1), sndNxt := s.ackNo)
    else if t.state == Established then
      var t1 := if Accepts(t, s)
        then t.(rx := t.rx + s.payload, hasData := true, rcvNxt := U32(t.rcvNxt + |s.payload|))
        else t;
      if s.fin then t1.(rcvNxt := U32(t1.rcvNxt + 1), state := Closed) else t1
    else t
  }

  function Available(t: Tcb, maxLen: nat): nat {
    if |t.rx| <= t.processed then 0 else Min(|t.rx| - t.processed, maxLen)
  }

  /** The copy at the end of `tcp_receive`. */
  function Read(t: Tcb, maxLen: nat): Tcb {
    if |t.rx| <= t.processed then t else
    var p := t.processed + Available(t, maxLen);
    t.(processed := p, hasData := if p == |t.rx| then false else t.hasData)
  }

  /** `tcp_send`. */
  function Send(t: Tcb, len: nat): Tcb {
    if t.state == Established then t.(sndNxt := U32(t.sndNxt + len)) else t
  }

  /** `tcp_close`. */
  function Close(t: Tcb): Tcb {
    if t.state == Established then t.(state := Closed) else t
  }

  // ---------------------------------------------------------------- runs

  datatype Event = Arrival(s: Segment) | Receive(maxLen: nat) | Transmit(len: nat) | Shutdown

  /** What has happened on the connection: the peer's initial sequence number and the number it
      acknowledged, the payload bytes accepted, the bytes handed to the caller, those sent. */
  datatype Log = Log(synced: bool, peerIsn: nat, ackBase: nat, fin: bool,
                     accepted: seq<byte>, returned: seq<byte>, transmitted: nat)

  datatype Conn = Conn(t: Tcb, log: Log)

  function Start(isn: nat): Conn {
    Conn(Connecting(isn), Log(false, 0, 0, false, [], [], 0))
  }

  function Next(c: Conn, e: Event): Conn {
    match e
    case Arrival(s) =>
      var log :=
        if c.t.state == SynSent && s.syn && s.ack then
          c.log.(synced := true, peerIsn := s.seqNo, ackBase := s.ackNo)
        else if c.t.state == Established then
          c.log.(accepted := if Accepts(c.t, s) then c.log.accepted + s.payload else c.log.accepted,
                 fin := s.fin)
        else c.log;
      Conn(Arrive(c.t, s), log)
    case Receive(maxLen) =>
      var n := Available(c.t, maxLen);
      var got := if n == 0 then [] else c.t.rx[c.t.processed..c.t.processed + n];
      Conn(Read(c.t, maxLen), c.log.(returned := c.log.returned + got))
    case Transmit(len) =>
      Conn(Send(c.t, len),
           if c.t.state == Established then c.log.(transmitted := c.log.transmitted + len) else c.log)
    case Shutdown => Conn(Close(c.t), c.log)
  }

  function Run(c: Conn, es: seq<Event>): Conn {
    if es == [] then c else Next(Run(c, es[..|es| - 1]), es[|es| - 1])
  }

  ghost predicate Inv(c: Conn) {
    && c.t.processed <= |c.t.rx| < RX_SIZE
    && (c.t.hasData <==> c.t.processed < |c.t.rx|)
    && c.t.rx == c.log.accepted
    && c.log.returned == c.log.accepted[..c.t.processed]
    && (c.t.state == Established ==> c.log.synced && !c.log.fin)
    && (!c.log.synced ==> c.t.rx == [] && !c.log.fin && c.log.transmitted == 0)
    && (c.log.synced ==>
          && c.t.state != SynSent
          && c.t.rcvNxt == U32(c.log.peerIsn + 1 + |c.t.rx| + if c.log.fin then 1 else 0)
          && c.t.sndNxt == U32(c.log.ackBase + c.log.transmitted))
  }

  /** Sequence numbers in a segment are 32 bits wide. */
  predicate EventOk(e: Event) {
    e.Arrival? ==> e.s.seqNo < TWO_32 && e.s.ackNo < TWO_32
  }

  lemma WrapAdd(a: nat, b: nat)
    ensures U32(U32(a) + b) == U32(a + b)
  {
  }

  lemma DataKeepsInv(c: Conn, s: Segment)
    requires Inv(c) && c.t.state == Established && !s.fin
    ensures Inv(Next(c, Arrival(s)))
  {
    if Accepts(c.t, s) {
      WrapAdd(c.log.peerIsn + 1 + |c.t.rx|, |s.payload|);
      assert (c.log.accepted + s.payload)[..c.t.processed] == c.log.accepted[..c.t.processed];
    }
  }

  lemma FinKeepsInv(c: Conn, s: Segment)
    requires Inv(c) && c.t.state == Established && s.fin
    ensures Inv(Next(c, Arrival(s)))
  {
    var data := s.(fin := false);
    DataKeepsInv(c, data);
    var c1 := Next(c, Arrival(data));
    WrapAdd(c1.log.peerIsn + 1 + |c1.t.rx|, 1);
    assert Next(c, Arrival(s)) ==
      Conn(c1.t.(rcvNxt := U32(c1.t.rcvNxt + 1), state := Closed), c1.log.(fin := true));
  }

  lemma ArrivalKeepsInv(c: Conn, s: Segment)
    requires Inv(c) && s.seqNo < TWO_32 && s.ackNo < TWO_32
    ensures Inv(Next(c, Arrival(s)))
  {
    if c.t.state == Established {
      if s.fin {
        FinKeepsInv(c, s);
      } else {
        DataKeepsInv(c, s);
      }
    }
  }

  lemma ReceiveKeepsInv(c: Conn, maxLen: nat)
    requires Inv(c)
    ensures Inv(Next(c, Receive(maxLen)))
  {
    var p, n := c.t.processed, Available(c.t, maxLen);
    assert c.log.accepted[..p] + c.log.accepted[p..p + n] == c.log.accepted[..p + n];
  }

  lemma StepKeepsInv(c: Conn, e: Event)
    requires Inv(c) && EventOk(e)
    ensures Inv(Next(c, e))
  {
    match e
    case Arrival(s) => ArrivalKeepsInv(c, s);
    case Receive(maxLen) => ReceiveKeepsInv(c, maxLen);
    case Transmit(len) => WrapAdd(c.log.ackBase + c.log.transmitted, len);
    case Shutdown =>
  }

  /** Over every run from a fresh connection: the buffer bounds, `has_data` exactly when bytes are
      unread, `rcv_nxt` exactly past what was accepted, and the bytes handed out a prefix of the
      accepted payloads. */
  lemma {:induction false} RunKeepsInv(isn: nat, es: seq<Event>)
    requires forall e :: e in es ==> EventOk(e)
    ensures Inv(Run(Start(isn), es))
  {
    if es != [] {
      var n := |es| - 1;
      RunKeepsInv(isn, es[..n]);
      StepKeepsInv(Run(Start(isn), es[..n]), es[n]);
    }
  }

  // ---------------------------------------------------------------- the peer's stream

  /** The segment carries the bytes of `stream` at the offset its sequence number stands for. */
  ghost predicate Carries(s: Segment, peerIsn: nat, stream: seq<byte>, offset: nat) {
    && offset + |s.payload| <= |stream|
    && s.payload == stream[offset..offset + |s.payload|]
    && s.seqNo == U32(peerIsn + 1 + offset)
  }

  /** An arriving segment with data comes from the peer's stream and starts at `rcv_nxt`. */
  ghost predicate InOrder(c: Conn, e: Event, stream: seq<byte>) {
    e.Arrival? && c.t.state == Established && e.s.payload != [] ==>
      && e.s.seqNo == c.t.rcvNxt
      && exists offset :: Carries(e.s, c.log.peerIsn, stream, offset)
  }

  /** A sequence number stands for one offset. */
  lemma SameOffset(a: nat, x: nat, y: nat)
    requires x < TWO_32 && y < TWO_32
    ensures U32(a + x) == U32(a + y) <==> x == y
  {
    var i, j := (a + x) / TWO_32, (a + y) / TWO_32;
    assert a + x == i * TWO_32 + U32(a + x) && a + y == j * TWO_32 + U32(a + y);
    if U32(a + x) == U32(a + y) {
      assert x - y == (i - j) * TWO_32;
    }
  }

  /** A segment of the peer's stream starts at `rcv_nxt` exactly when its bytes are the ones due next. */
  lemma StartsAtNextIff(c: Conn, s: Segment, stream: seq<byte>, offset: nat)
    requires Inv(c) && c.t.state == Established && |stream| < TWO_32
    requires Carries(s, c.log.peerIsn, stream, offset)
    ensures s.seqNo == c.t.rcvNxt <==> offset == |c.t.rx|
  {
    SameOffset(c.log.peerIsn + 1, offset, |c.t.rx|);
  }

  lemma NextBytesAccepted(accepted: seq<byte>, payload: seq<byte>, stream: seq<byte>)
    requires accepted <= stream && |accepted| + |payload| <= |stream|
    requires payload == stream[|accepted|..|accepted| + |payload|]
    ensures accepted + payload <= stream
  {
    var n, m := |accepted|, |accepted| + |payload|;
    assert stream[..m] == stream[..n] + stream[n..m];
  }

  lemma InOrderStep(c: Conn, e: Event, stream: seq<byte>)
    requires Inv(c) && |stream| < TWO_32 && c.log.accepted <= stream && InOrder(c, e, stream)
    ensures Next(c, e).log.accepted <= stream
  {
    if e.Arrival? && Accepts(c.t, e.s) {
      var offset :| Carries(e.s, c.log.peerIsn, stream, offset);
      StartsAtNextIff(c, e.s, stream, offset);
      NextBytesAccepted(c.log.accepted, e.s.payload, stream);
    }
  }

  /** When every arriving segment starts at `rcv_nxt`, the bytes handed to the caller are a prefix
      of the peer's stream. */
  lemma {:induction false} ReturnsStreamPrefix(isn: nat, es: seq<Event>, stream: seq<byte>)
    requires |stream| < TWO_32 && forall e :: e in es ==> EventOk(e)
    requires forall n :: 0 <= n < |es| ==> InOrder(Run(Start(isn), es[..n]), es[n], stream)
    ensures var log := Run(Start(isn), es).log; log.accepted <= stream && log.returned <= stream
  {
    if es != [] {
      var n := |es| - 1;
      var before := es[..n];
      forall m | 0 <= m < n
        ensures InOrder(Run(Start(isn), before[..m]), before[m], stream)
      {
        assert before[..m] == es[..m];
      }
      ReturnsStreamPrefix(isn, before, stream);
      RunKeepsInv(isn, before);
      InOrderStep(Run(Start(isn), before), es[n], stream);
    }
    RunKeepsInv(isn, es);
  }

  // ---------------------------------------------------------------- which bytes of the stream were accepted

  /** The place in the peer's stream that a segment's sequence number stands for. */
  function OffsetOf(s: Segment, peerIsn: nat): nat {
    U32(s.seqNo - (peerIsn + 1))
  }

  /** The stream offsets of the bytes that an event adds to the receive buffer. */
  function NewOffsets(c: Conn, e: Event): seq<nat> {
    if e.Arrival? && Accepts(c.t, e.s) then seq(|e.s.payload|, i => OffsetOf(e.s, c.log.peerIsn) + i) else []
  }

  /** The stream offset of each accepted byte of a run, in the order of acceptance. */
  function Offsets(isn: nat, es: seq<Event>): seq<nat> {
    if es == [] then [] else
    var n := |es| - 1;
    Offsets(isn, es[..n]) + NewOffsets(Run(Start(isn), es[..n]), es[n])
  }

  /** The test that the code does not make: a segment it accepts starts at `rcv_nxt`. */
  predicate Due(c: Conn, e: Event) {
    e.Arrival? && Accepts(c.t, e.s) ==> e.s.seqNo == c.t.rcvNxt
  }

  ghost predicate AllDue(isn: nat, es: seq<Event>) {
    forall n :: 0 <= n < |es| ==> Due(Run(Start(isn), es[..n]), es[n])
  }

  /** The offsets are 0, 1, 2 and so on. */
  predicate Consecutive(offsets: seq<nat>) {
    forall i :: 0 <= i < |offsets| ==> offsets[i] == i
  }

  lemma OffsetIsDueIff(peerIsn: nat, seqNo: nat, n: nat)
    requires seqNo < TWO_32 && n < TWO_32
    ensures U32(seqNo - (peerIsn + 1)) == n <==> seqNo == U32(peerIsn + 1 + n)
  {
    var a := peerIsn + 1;
    var d := U32(seqNo - a);
    var k := (seqNo - a) / TWO_32;
    assert seqNo - a == k * TWO_32 + d;
    if d == n {
      assert a + n == seqNo + (-k) * TWO_32;
      ModuloMultiple(seqNo, -k);
    }
    if seqNo == U32(a + n) {
      var j := (a + n) / TWO_32;
      assert seqNo - a == n + (-j) * TWO_32;
      ModuloMultiple(n, -j);
    }
  }

  lemma ModuloMultiple(r: nat, k: int)
    requires r < TWO_32
    ensures U32(r + k * TWO_32) == r
  {
  }

  /** The offsets go on from `n`. */
  predicate FollowsOn(offsets: seq<nat>, n: nat) {
    forall i :: 0 <= i < |offsets| ==> offsets[i] == n + i
  }

  lemma ConsecutiveSplit(a: seq<nat>, b: seq<nat>)
    ensures Consecutive(a + b) <==> Consecutive(a) && FollowsOn(b, |a|)
  {
    if Consecutive(a + b) {
      assert forall i :: 0 <= i < |a| ==> (a + b)[i] == a[i];
      forall i | 0 <= i < |b| ensures b[i] == |a| + i {
        assert (a + b)[|a| + i] == b[i];
      }
    }
  }

  lemma NewOffsetsDue(c: Conn, e: Event)
    requires Inv(c) && EventOk(e)
    ensures Due(c, e) <==> FollowsOn(NewOffsets(c, e), |c.t.rx|)
  {
    if e.Arrival? && Accepts(c.t, e.s) {
      OffsetIsDueIff(c.log.peerIsn, e.s.seqNo, |c.t.rx|);
      assert NewOffsets(c, e)[0] == OffsetOf(e.s, c.log.peerIsn);
    }
  }

  lemma AllDueSplit(isn: nat, es: seq<Event>, n: nat)
    requires n + 1 == |es|
    ensures AllDue(isn, es) <==> AllDue(isn, es[..n]) && Due(Run(Start(isn), es[..n]), es[n])
  {
    assert forall m :: 0 <= m <= n ==> es[..n][..m] == es[..m];
  }

  /** Over every run: the accepted bytes are those at offsets 0, 1, 2, ... of the peer's stream exactly
      when every segment accepted started at `rcv_nxt`. */
  lemma {:induction false} InOrderIffAllDue(isn: nat, es: seq<Event>)
    requires forall e :: e in es ==> EventOk(e)
    ensures |Offsets(isn, es)| == |Run(Start(isn), es).log.accepted|
    ensures Consecutive(Offsets(isn, es)) <==> AllDue(isn, es)
  {
    if es != [] {
      var n := |es| - 1;
      var c := Run(Start(isn), es[..n]);
      InOrderIffAllDue(isn, es[..n]);
      RunKeepsInv(isn, es[..n]);
      ConsecutiveSplit(Offsets(isn, es[..n]), NewOffsets(c, es[n]));
      NewOffsetsDue(c, es[n]);
      AllDueSplit(isn, es, n);
      NewBytesAccepted(c, es[n]);
      assert |NewOffsets(c, es[n])| == |NewBytes(c, es[n])|;
    }
  }

  /** Each byte of `bytes` is the byte of the stream at its offset. */
  predicate AtOffsets(offsets: seq<nat>, bytes: seq<byte>, stream: seq<byte>) {
    |offsets| == |bytes| && forall i :: 0 <= i < |offsets| ==> offsets[i] < |stream| && bytes[i] == stream[offsets[i]]
  }

  lemma AtOffsetsAppend(o: seq<nat>, a: seq<byte>, p: seq<nat>, b: seq<byte>, stream: seq<byte>)
    requires AtOffsets(o, a, stream) && AtOffsets(p, b, stream)
    ensures AtOffsets(o + p, a + b, stream)
  {
  }

  /** A segment that is accepted carries bytes of the stream. */
  ghost predicate FromStream(c: Conn, e: Event, stream: seq<byte>) {
    e.Arrival? && Accepts(c.t, e.s) ==> exists offset :: Carries(e.s, c.log.peerIsn, stream, offset)
  }

  function NewBytes(c: Conn, e: Event): seq<byte> {
    if e.Arrival? && Accepts(c.t, e.s) then e.s.payload else []
  }

  lemma NewBytesAccepted(c: Conn, e: Event)
    ensures Next(c, e).log.accepted == c.log.accepted + NewBytes(c, e)
  {
    assert c.log.accepted + [] == c.log.accepted;
  }

  lemma NewBytesAtOffsets(c: Conn, e: Event, stream: seq<byte>)
    requires |stream| < TWO_32 && EventOk(e) && FromStream(c, e, stream)
    ensures AtOffsets(NewOffsets(c, e), NewBytes(c, e), stream)
  {
    if e.Arrival? && Accepts(c.t, e.s) {
      var offset :| Carries(e.s, c.log.peerIsn, stream, offset);
      OffsetIsDueIff(c.log.peerIsn, e.s.seqNo, offset);
    }
  }

  /** Every accepted byte is the byte of the peer's stream at the offset logged for it. */
  lemma {:induction false} AcceptedAtOffsets(isn: nat, es: seq<Event>, stream: seq<byte>)
    requires |stream| < TWO_32 && forall e :: e in es ==> EventOk(e)
    requires forall n :: 0 <= n < |es| ==> FromStream(Run(Start(isn), es[..n]), es[n], stream)
    ensures AtOffsets(Offsets(isn, es), Run(Start(isn), es).log.accepted, stream)
  {
    if es != [] {
      var n := |es| - 1;
      var before := es[..n];
      forall m | 0 <= m < n ensures FromStream(Run(Start(isn), before[..m]), before[m], stream) {
        assert before[..m] == es[..m];
      }
      AcceptedAtOffsets(isn, before, stream);
      var c := Run(Start(isn), before);
      NewBytesAtOffsets(c, es[n], stream);
      NewBytesAccepted(c, es[n]);
      AtOffsetsAppend(Offsets(isn, before), c.log.accepted, NewOffsets(c, es[n]), NewBytes(c, es[n]), stream);
    }
  }

  /** Sequence numbers are not compared, so a segment that arrives again is accepted again, the bytes
      of its offsets stand in the buffer twice, and from then on the bytes are out of order. */
  lemma RetransmissionBreaksOrder(isn: nat, es: seq<Event>, s: Segment)
    requires (forall e :: e in es ==> EventOk(e)) && EventOk(Arrival(s)) && !s.fin
    requires var c := Run(Start(isn), es); Accepts(c.t, s) && |c.t.rx| + 2 * |s.payload| < RX_SIZE
    ensures var once, twice := es + [Arrival(s)], es + [Arrival(s)] + [Arrival(s)];
      && Offsets(isn, twice) == Offsets(isn, once) + NewOffsets(Run(Start(isn), es), Arrival(s))
      && !Consecutive(Offsets(isn, twice))
  {
    var c, once, twice := Run(Start(isn), es), es + [Arrival(s)], es + [Arrival(s)] + [Arrival(s)];
    assert once[..|es|] == es && twice[..|once|] == once;
    var d := Run(Start(isn), once);
    assert d == Next(c, Arrival(s));
    RunKeepsInv(isn, es);
    RunKeepsInv(isn, once);
    assert NewOffsets(d, Arrival(s)) == NewOffsets(c, Arrival(s));
    AllDueSplit(isn, once, |es|);
    AllDueSplit(isn, twice, |once|);
    InOrderIffAllDue(isn, twice);
    NotDueTwice(c, s);
  }

  lemma NotDueTwice(c: Conn, s: Segment)
    requires Inv(c) && s.seqNo < TWO_32 && Accepts(c.t, s) && !s.fin
    ensures !(s.seqNo == c.t.rcvNxt && s.seqNo == Next(c, Arrival(s)).t.rcvNxt)
  {
    var a, n := c.log.peerIsn + 1, |c.t.rx|;
    WrapAdd(a + n, |s.payload|);
    SameOffset(a, n, n + |s.payload|);
  }

  /** One such run: the peer sends 7 and 8, its first byte arrives twice, and what is accepted is not a
      prefix of what was sent. */
  lemma DuplicatedByte()
    ensures var s := Segment(1, 0, false, true, false, [7]);
      var es := [Arrival(Segment(0, 1, true, true, false, [])), Arrival(s), Arrival(s)];
      Run(Start(0), es).log.accepted == [7, 7] && !(Run(Start(0), es).log.accepted <= [7, 8])
  {
    var s := Segment(1, 0, false, true, false, [7]);
    var e := Arrival(Segment(0, 1, true, true, false, []));
    var es := [e, Arrival(s), Arrival(s)];
    assert es[..2] == [e, Arrival(s)] && es[..2][..1] == [e] && [e][..0] == [];
    assert Run(Start(0), []) == Start(0);
    var c1 := Run(Start(0), [e]);
    assert c1 == Next(Start(0), e) && c1.t.state == Established;
    var c2 := Run(Start(0), es[..2]);
    assert c2 == Next(c1, Arrival(s)) && c2.log.accepted == [7];
    assert Run(Start(0), es) == Next(c2, Arrival(s));
    assert [7, 7][1] != [7, 8][1];
  }
}

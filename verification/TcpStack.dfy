/** `tcp_process`, `tcp_connect`, `tcp_send`, `tcp_receive` and `tcp_close` on the control block with
    its fixed receive buffer. */
module TcpStack {
  import opened Machine
  import opened Tcp
  import opened TcpWire

  const RETRIES := 5
  const POLLS := 10            // polls between two looks at the clock

  /** The effect of a packet; one shorter than a header has none. */
  function ArrivePacket(t: Tcb, packet: seq<byte>): Tcb
    requires PacketOk(packet)
  {
    if |packet| < HEADER_LEN then t else Arrive(t, Parse(packet))
  }

  /** What `tcp_process` sends in answer to a segment: an ACK that completes the handshake, one for data it
      has taken, and a FIN-ACK for a FIN. */
  function Answers(t: Tcb, s: Segment): seq<Out> {
    if t.state == SynSent && s.syn && s.ack then [Out(s.ackNo, U32(s.seqNo + 1), FLAG_ACK, [])]
    else if t.state == Established then
      var next := if Accepts(t, s) then U32(t.rcvNxt + |s.payload|) else t.rcvNxt;
      (if Accepts(t, s) then [Out(t.sndNxt, next, FLAG_ACK, [])] else []) +
      (if s.fin then [Out(t.sndNxt, U32(next + 1), FLAG_ACK + FLAG_FIN, [])] else [])
    else []
  }

  function AnswersTo(t: Tcb, packet: seq<byte>): seq<Out>
    requires PacketOk(packet)
  {
    if |packet| < HEADER_LEN then [] else Answers(t, Parse(packet))
  }

  /** Every answer carries the sequence number that is next to send, and the last one acknowledges exactly up
      to `rcv_nxt`; nothing is answered exactly when the connection has not moved. */
  lemma AnswersAcknowledge(t: Tcb, s: Segment)
    requires t.rcvNxt < TWO_32
    ensures var r, out := Arrive(t, s), Answers(t, s);
      && (forall i :: 0 <= i < |out| ==> out[i].seqNo == r.sndNxt && out[i].payload == [])
      && (out != [] ==> out[|out| - 1].ackNo == r.rcvNxt)
      && (out == [] <==> r == t)
  {
    if t.state == Established {
      WrapMoves(t.rcvNxt, 1);
      if Accepts(t, s) {
        WrapMoves(t.rcvNxt, |s.payload|);
      }
    }
  }

  /** A FIN is handled after the data it comes with. */
  lemma FinLast(t: Tcb, s: Segment, w: seq<Out>)
    requires t.state == Established && s.fin
    ensures var t1 := Arrive(t, s.(fin := false));
      && Arrive(t, s) == t1.(rcvNxt := U32(t1.rcvNxt + 1), state := Closed)
      && w + Answers(t, s) ==
           w + Answers(t, s.(fin := false)) + [Out(t1.sndNxt, U32(t1.rcvNxt + 1), FLAG_ACK + FLAG_FIN, [])]
  {
  }

  lemma WrapMoves(n: nat, k: nat)
    requires n < TWO_32 && 0 < k < TWO_32
    ensures U32(n + k) != n
  {
  }

  /** One try to connect: whether the SYN could be sent, and the packets polled before the timeout. */
  datatype Attempt = Attempt(sent: bool, packets: seq<seq<byte>>)

  predicate PacketsOk(packets: seq<seq<byte>>) {
    forall i :: 0 <= i < |packets| ==> PacketOk(packets[i])
  }

  /** The segment opens or closes the connection: then `tcp_process` returns 1. */
  predicate Turns(t: Tcb, s: Segment) {
    (t.state == SynSent && s.syn && s.ack) || (t.state == Established && s.fin)
  }

  /** `tcp_receive` goes on polling. */
  predicate Waiting(t: Tcb) {
    !t.hasData && t.state == Established
  }

  lemma SliceOfFront(s: seq<byte>, len: nat, a: nat, b: nat)
    requires a <= b <= len <= |s|
    ensures s[a..b] == s[..len][a..b]
  {
  }

  class Stack {
    var state: State
    var sndNxt: nat
    var rcvNxt: nat
    const rxBuffer: array<byte>
    var rxLen: nat
    var rxProcessed: nat
    var hasData: bool
    var wire: seq<Out>             // what has been sent

    ghost predicate Valid()
      reads this, rxBuffer
    {
      rxBuffer.Length == RX_SIZE && rxProcessed <= rxLen < RX_SIZE && rcvNxt < TWO_32 && sndNxt < TWO_32
    }

    ghost function Block(): Tcb
      reads this, rxBuffer
      requires Valid()
    {
      Tcb(state, sndNxt, rcvNxt, rxBuffer[..rxLen], rxProcessed, hasData)
    }

    constructor ()
      ensures Valid() && fresh(rxBuffer) && Block() == Tcb(Closed, 0, 0, [], 0, false) && wire == []
    {
      state, sndNxt, rcvNxt, rxLen, rxProcessed, hasData, wire := Closed, 0, 0, 0, 0, false, [];
      rxBuffer := new byte[RX_SIZE](_ => 0);
    }

    /** Appends a payload to the receive buffer, byte by byte. */
    method Append(data: seq<byte>)
      requires Valid() && rxLen + |data| < RX_SIZE
      modifies this`rxLen, rxBuffer
      ensures Valid() && rxLen == old(rxLen) + |data|
      ensures rxBuffer[..rxLen] == old(rxBuffer[..rxLen]) + data
    {
      for i := 0 to |data|
        invariant rxLen == old(rxLen) && rxBuffer[..rxLen + i] == old(rxBuffer[..rxLen]) + data[..i]
      {
        rxBuffer[rxLen + i] := data[i];
        assert rxBuffer[..rxLen + i + 1] == rxBuffer[..rxLen + i] + [data[i]];
      }
      rxLen := rxLen + |data|;
      assert data[..|data|] == data;
    }

    /** `tcp_process`. */
    method Process(packet: seq<byte>) returns (r: int)
      requires Valid() && PacketOk(packet)
      modifies this, rxBuffer
      ensures Valid() && Block() == ArrivePacket(old(Block()), packet)
      ensures r == if |packet| < HEADER_LEN then -1 else if Turns(old(Block()), Parse(packet)) then 1 else 0
      ensures wire == old(wire) + AnswersTo(old(Block()), packet)
    {
      if |packet| < HEADER_LEN {
        return -1;
      }
      if state == Closed {
        return 0;
      }
      r := 0;
      if state == SynSent {
        if Flag(packet[13], FLAG_SYN) && Flag(packet[13], FLAG_ACK) {
          rcvNxt := U32(Net32(packet, 4) + 1);
          sndNxt := Net32(packet, 8);
          state := Established;
          wire := wire + [Out(sndNxt, rcvNxt, FLAG_ACK, [])];
          r := 1;
        }
      } else if state == Established {
        r := ProcessEstablished(packet[HeaderLen(packet)..], Flag(packet[13], FLAG_FIN), Parse(packet));
      }
    }

    /** The part of `tcp_process` for an open connection. */
    method ProcessEstablished(data: seq<byte>, fin: bool, ghost s: Segment) returns (r: int)
      requires Valid() && state == Established && s.payload == data && s.fin == fin
      modifies this, rxBuffer
      ensures Valid() && Block() == Arrive(old(Block()), s) && wire == old(wire) + Answers(old(Block()), s)
      ensures r == if fin then 1 else 0
    {
      r := 0;
      ghost var t := Block();
      TakeData(data, s.(fin := false));
      if fin {
        FinLast(t, s, old(wire));
        rcvNxt := U32(rcvNxt + 1);
        wire := wire + [Out(sndNxt, rcvNxt, FLAG_ACK + FLAG_FIN, [])];
        state := Closed;
        r := 1;
      }
    }

    /** The data of a segment, if there is any and it fits. */
    method TakeData(data: seq<byte>, ghost s: Segment)
      requires Valid() && state == Established && s.payload == data && !s.fin
      modifies this, rxBuffer
      ensures Valid() && Block() == Arrive(old(Block()), s) && wire == old(wire) + Answers(old(Block()), s)
    {
      if |data| > 0 && rxLen + |data| < RX_SIZE {
        Append(data);
        hasData := true;
        rcvNxt := U32(rcvNxt + |data|);
        wire := wire + [Out(sndNxt, rcvNxt, FLAG_ACK, [])];
      }
    }

    /** `tcp_send`. */
    method SendData(data: seq<byte>) returns (r: int)
      requires Valid() && |data| < TWO_32
      modifies this`sndNxt, this`wire
      ensures Valid() && Block() == Send(old(Block()), |data|)
      ensures state != Established ==> r == -1 && wire == old(wire)
      ensures state == Established ==>
        r == |data| && wire == old(wire) + [Out(old(sndNxt), rcvNxt, FLAG_PSH + FLAG_ACK, data)]
    {
      if state != Established {
        return -1;
      }
      wire := wire + [Out(sndNxt, rcvNxt, FLAG_PSH + FLAG_ACK, data)];
      sndNxt := U32(sndNxt + |data|);
      r := |data|;
    }

    /** `tcp_close`. */
    method CloseConnection()
      requires Valid()
      modifies this`state, this`wire
      ensures Valid() && Block() == Close(old(Block())) && state != Established
      ensures sndNxt == old(sndNxt) && rcvNxt == old(rcvNxt) && (old(state) == Established ==> state == Closed)
      ensures wire == old(wire) +
        if old(state) == Established then [Out(sndNxt, rcvNxt, FLAG_FIN + FLAG_ACK, [])] else []
    {
      if state == Established {
        wire := wire + [Out(sndNxt, rcvNxt, FLAG_FIN + FLAG_ACK, [])];
        state := Closed;
      }
    }

    /** The copy at the end of `tcp_receive`. */
    method CopyOut(buffer: array<byte>, maxLen: nat) returns (n: nat)
      requires Valid() && maxLen <= buffer.Length && buffer != rxBuffer
      modifies this`rxProcessed, this`hasData, buffer
      ensures Valid() && Block() == Read(old(Block()), maxLen)
      ensures n == Available(old(Block()), maxLen) <= maxLen
      ensures buffer[..n] == rxBuffer[old(rxProcessed)..old(rxProcessed) + n]
    {
      if rxLen <= rxProcessed {
        return 0;
      }
      var available := rxLen - rxProcessed;
      n := if available > maxLen then maxLen else available;
      for i := 0 to n
        invariant rxProcessed == old(rxProcessed) && hasData == old(hasData)
        invariant rxBuffer[..] == old(rxBuffer[..])
        invariant buffer[..i] == rxBuffer[rxProcessed..rxProcessed + i]
      {
        buffer[i] := rxBuffer[rxProcessed + i];
        assert buffer[..i + 1] == buffer[..i] + [buffer[i]];
      }
      rxProcessed := rxProcessed + n;
      if rxProcessed == rxLen {
        hasData := false;
      }
    }

    /** One poll. */
    method PollOne(packets: seq<seq<byte>>, k: nat, ghost tr: Trace)
      requires Valid() && PacketsOk(packets) && k < |packets| && tr.Ok(packets) && At(tr, k)
      modifies this, rxBuffer
      ensures Valid() && At(tr, k + 1)
    {
      assert tr.Step(packets, k);
      var _ := Process(packets[k]);
    }

    /** The state is number `k` of the trace. */
    ghost predicate At(tr: Trace, k: nat)
      reads this, rxBuffer
      requires Valid() && k < |tr.states| == |tr.sent|
    {
      Block() == tr.states[k] && wire == tr.sent[k]
    }

    /** Ten polls, or fewer if one brings data; whether the connection is still open is not looked at. */
    method PollRound(packets: seq<seq<byte>>, k: nat, ghost tr: Trace) returns (used: nat)
      requires Valid() && PacketsOk(packets) && k + POLLS <= |packets| && tr.Ok(packets) && At(tr, k) && !hasData
      modifies this, rxBuffer
      ensures Valid() && k < used <= k + POLLS && At(tr, used)
      ensures forall j :: k <= j < used ==> !tr.states[j].hasData
      ensures used < k + POLLS ==> hasData
    {
      used := k;
      for i := 0 to POLLS
        invariant Valid() && used == k + i && At(tr, used) && !hasData
        invariant forall j :: k <= j < used ==> !tr.states[j].hasData
      {
        PollOne(packets, used, tr);
        used := used + 1;
        if hasData {
          return;
        }
      }
    }

    /** The waiting loop of `tcp_receive`: rounds of ten polls until there is data, the connection is gone
        or the time is up. `packets` is what the polls up to the timeout bring, one each, with an empty
        packet where there is none; `used` is how many of them were made. */
    method AwaitData(rounds: nat, packets: seq<seq<byte>>, ghost tr: Trace) returns (used: nat)
      requires Valid() && PacketsOk(packets) && |packets| == POLLS * rounds && tr.Ok(packets) && At(tr, 0)
      modifies this, rxBuffer
      ensures Valid() && used <= |packets| && At(tr, used)
      ensures forall k :: 0 <= k < used ==> !tr.states[k].hasData
      ensures forall r :: 0 <= r && POLLS * r < used ==> tr.RoundWaits(r)
      ensures used < |packets| ==> hasData || (used % POLLS == 0 && state != Established)
    {
      used := 0;
      var r := 0;
      while !hasData && state == Established && r < rounds
        invariant Valid() && r <= rounds && used <= POLLS * r && At(tr, used)
        invariant hasData || used == POLLS * r
        invariant forall j :: 0 <= j < used ==> !tr.states[j].hasData
        invariant forall q :: 0 <= q && POLLS * q < used ==> tr.RoundWaits(q)
      {
        assert tr.RoundWaits(r);
        used := PollRound(packets, used, tr);
        r := r + 1;
      }
    }

    /** `tcp_receive`. The trace holds the states that the polls lead through, and what is sent on the way. */
    method ReceiveData(buffer: array<byte>, maxLen: nat, rounds: nat, packets: seq<seq<byte>>)
      returns (n: nat, ghost used: nat, ghost tr: Trace)
      requires Valid() && PacketsOk(packets) && |packets| == POLLS * rounds
      requires maxLen <= buffer.Length && buffer != rxBuffer
      modifies this, rxBuffer, buffer
      ensures Valid() && used <= |packets| && tr == TraceOf(old(Block()), old(wire), packets)
      ensures Block() == Read(tr.states[used], maxLen) && wire == tr.sent[used]
      ensures forall k :: 0 <= k < used ==> !tr.states[k].hasData
      ensures forall r :: 0 <= r && POLLS * r < used ==> tr.RoundWaits(r)
      ensures var t := tr.states[used];
        && (used < |packets| ==> t.hasData || (used % POLLS == 0 && t.state != Established))
        && n == Available(t, maxLen) <= maxLen
        && (n > 0 ==> buffer[..n] == t.rx[t.processed..t.processed + n])
    {
      tr := TraceOf(Block(), wire, packets);
      used := AwaitData(rounds, packets, tr);
      ghost var t := Block();
      n := CopyOut(buffer, maxLen);
      if n > 0 {
        SliceOfFront(rxBuffer[..], rxLen, t.processed, t.processed + n);
      }
    }

    /** Polls while waiting for the answer to the SYN. */
    method AwaitSynAck(ghost isn: nat, packets: seq<seq<byte>>)
      requires Valid() && PacketsOk(packets) && Block() == Connecting(isn)
      modifies this, rxBuffer
      ensures Valid()
      ensures match SynAckIn(packets)
        case None => Block() == Connecting(isn) && wire == old(wire)
        case Some(s) => Block() == Arrive(Connecting(isn), s) && wire == old(wire) + Answers(Connecting(isn), s)
    {
      assert packets[0..] == packets;
      for k := 0 to |packets|
        invariant Valid() && Block() == Connecting(isn) && wire == old(wire)
        invariant PacketsOk(packets[k..]) && SynAckIn(packets[k..]) == SynAckIn(packets)
      {
        assert packets[k..][1..] == packets[k + 1..];
        var _ := Process(packets[k]);
        if state == Established {
          return;
        }
      }
    }

    /** `tcp_connect`. `isn` is the tick count it takes as initial sequence number; `ready` is what
        its checks of the interface come to. It connects exactly when the interface is ready and a SYN-ACK
        comes in one of the tries whose SYN was sent, with the first that comes. */
    method Connect(isn: nat, ready: bool, attempts: seq<Attempt>) returns (r: int)
      requires Valid() && isn < TWO_32 && |attempts| == RETRIES && AttemptsOk(attempts)
      modifies this, rxBuffer
      ensures Valid() && r == if ready && FirstSynAck(attempts).Some? then 0 else -1
      ensures Block() == if r == 0 then Arrive(Connecting(isn), FirstSynAck(attempts).value)
                         else Connecting(isn).(state := Closed)
      ensures wire == old(wire) + if ready then Handshake(isn, attempts) else []
    {
      state, rxLen, rxProcessed, hasData := Closed, 0, 0, false;
      sndNxt, rcvNxt := isn, 0;
      assert rxBuffer[..0] == [];
      if !ready {
        return -1;
      }
      ghost var before := wire;
      assert attempts[0..] == attempts;
      for retry := 0 to RETRIES
        invariant Valid() && Trying(isn, attempts, retry, before)
      {
        var connected := Try(isn, attempts, retry, before);
        if connected {
          return 0;
        }
      }
      state := Closed;
      r := -1;
    }

    /** No try before this one has connected; what is left of them decides. */
    ghost predicate Trying(isn: nat, attempts: seq<Attempt>, i: nat, before: seq<Out>)
      reads this, rxBuffer
      requires Valid() && AttemptsOk(attempts) && i <= |attempts|
    {
      && (Block() == Connecting(isn) || Block() == Connecting(isn).(state := Closed))
      && FirstSynAck(attempts[i..]) == FirstSynAck(attempts)
      && before + Handshake(isn, attempts) == wire + Handshake(isn, attempts[i..])
    }

    /** One try: a SYN, and if it was sent the wait for its answer. */
    method Try(isn: nat, attempts: seq<Attempt>, i: nat, ghost before: seq<Out>) returns (connected: bool)
      requires Valid() && AttemptsOk(attempts) && i < |attempts| && Trying(isn, attempts, i, before)
      modifies this, rxBuffer
      ensures Valid() && (!connected ==> Trying(isn, attempts, i + 1, before))
      ensures connected ==>
        && FirstSynAck(attempts).Some? && wire == before + Handshake(isn, attempts)
        && Block() == Arrive(Connecting(isn), FirstSynAck(attempts).value)
    {
      HandshakeStep(isn, attempts, i, wire);
      wire := wire + [Out(sndNxt, 0, FLAG_SYN, [])];
      if attempts[i].sent {
        state := SynSent;
        AwaitSynAck(isn, attempts[i].packets);
      }
      connected := state == Established;
    }
  }

  predicate IsSynAck(packet: seq<byte>)
    requires PacketOk(packet)
  {
    |packet| >= HEADER_LEN && Parse(packet).syn && Parse(packet).ack
  }

  /** The first packet that is a SYN-ACK. */
  function SynAckIn(packets: seq<seq<byte>>): (s: Option<Segment>)
    requires PacketsOk(packets)
    ensures s.Some? <==> exists k :: 0 <= k < |packets| && PacketOk(packets[k]) && IsSynAck(packets[k])
    ensures s.Some? ==> s.value.syn && s.value.ack
  {
    if packets == [] then None else
    if IsSynAck(packets[0]) then Some(Parse(packets[0])) else SynAckIn(packets[1..])
  }

  predicate AttemptsOk(attempts: seq<Attempt>) {
    forall i :: 0 <= i < |attempts| ==> PacketsOk(attempts[i].packets)
  }

  /** The first SYN-ACK that comes in a try whose SYN was sent. */
  function FirstSynAck(attempts: seq<Attempt>): (s: Option<Segment>)
    requires AttemptsOk(attempts)
    ensures s.Some? <==> exists i :: 0 <= i < |attempts| && attempts[i].sent && SynAckIn(attempts[i].packets).Some?
    ensures s.Some? ==> s.value.syn && s.value.ack
  {
    if attempts == [] then None
    else if attempts[0].sent && SynAckIn(attempts[0].packets).Some? then SynAckIn(attempts[0].packets)
    else FirstSynAck(attempts[1..])
  }

  /** What the tries send: a SYN each, and the ACK after which there are no more. */
  function Handshake(isn: nat, attempts: seq<Attempt>): seq<Out>
    requires AttemptsOk(attempts)
  {
    if attempts == [] then [] else
    [Out(isn, 0, FLAG_SYN, [])] +
    (if attempts[0].sent && SynAckIn(attempts[0].packets).Some?
     then var s := SynAckIn(attempts[0].packets).value; [Out(s.ackNo, U32(s.seqNo + 1), FLAG_ACK, [])]
     else Handshake(isn, attempts[1..]))
  }

  lemma HandshakeStep(isn: nat, attempts: seq<Attempt>, i: nat, done: seq<Out>)
    requires AttemptsOk(attempts) && i < |attempts| && AttemptsOk(attempts[i..])
    ensures attempts[i..][0] == attempts[i] && attempts[i..][1..] == attempts[i + 1..] && AttemptsOk(attempts[i + 1..])
    ensures var a := attempts[i];
      done + Handshake(isn, attempts[i..]) == done + [Out(isn, 0, FLAG_SYN, [])] +
        if a.sent && SynAckIn(a.packets).Some? then Answers(Connecting(isn), SynAckIn(a.packets).value)
        else Handshake(isn, attempts[i + 1..])
  {
    assert attempts[i..][1..] == attempts[i + 1..];
  }

  /** The control block after the first `k` of the packets. */
  function Polled(t: Tcb, packets: seq<seq<byte>>, k: nat): Tcb
    requires PacketsOk(packets) && k <= |packets|
  {
    if k == 0 then t else ArrivePacket(Polled(t, packets, k - 1), packets[k - 1])
  }

  /** What has been sent in answer to them. */
  function Replies(t: Tcb, packets: seq<seq<byte>>, k: nat): seq<Out>
    requires PacketsOk(packets) && k <= |packets|
  {
    if k == 0 then [] else Replies(t, packets, k - 1) + AnswersTo(Polled(t, packets, k - 1), packets[k - 1])
  }

  /** What the rest of a round brings after the connection has gone has no effect. */
  lemma {:induction false} ClosedStays(t: Tcb, packets: seq<seq<byte>>, k: nat)
    requires PacketsOk(packets) && k <= |packets| && t.state == Closed
    ensures Polled(t, packets, k) == t && Replies(t, packets, k) == []
  {
    if k > 0 {
      ClosedStays(t, packets, k - 1);
    }
  }

  /** Control blocks and what has been sent, before the first packet and after each. */
  datatype Trace = Trace(states: seq<Tcb>, sent: seq<seq<Out>>) {
    ghost predicate Step(packets: seq<seq<byte>>, k: nat)
      requires |states| == |sent| == |packets| + 1 && k < |packets|
    {
      && PacketOk(packets[k])
      && states[k + 1] == ArrivePacket(states[k], packets[k])
      && sent[k + 1] == sent[k] + AnswersTo(states[k], packets[k])
    }

    ghost predicate Ok(packets: seq<seq<byte>>) {
      |states| == |sent| == |packets| + 1 && forall k {:trigger Step(packets, k)} :: 0 <= k < |packets| ==> Step(packets, k)
    }

    /** Round `r` of the polls starts with no data and the connection open. */
    ghost predicate RoundWaits(r: nat) {
      POLLS * r < |states| && Waiting(states[POLLS * r])
    }
  }

  function TraceOf(t: Tcb, w: seq<Out>, packets: seq<seq<byte>>): (tr: Trace)
    requires PacketsOk(packets)
    ensures tr.Ok(packets) && tr.states[0] == t && tr.sent[0] == w
  {
    var tr := Trace(seq(|packets| + 1, k requires 0 <= k <= |packets| => Polled(t, packets, k)),
                    seq(|packets| + 1, k requires 0 <= k <= |packets| => w + Replies(t, packets, k)));
    TraceSteps(t, w, packets, tr);
    tr
  }

  lemma TraceSteps(t: Tcb, w: seq<Out>, packets: seq<seq<byte>>, tr: Trace)
    requires PacketsOk(packets) && |tr.states| == |tr.sent| == |packets| + 1
    requires forall k :: 0 <= k <= |packets| ==> tr.states[k] == Polled(t, packets, k)
    requires forall k :: 0 <= k <= |packets| ==> tr.sent[k] == w + Replies(t, packets, k)
    ensures tr.Ok(packets) && tr.states[0] == t && tr.sent[0] == w
  {
    forall k | 0 <= k < |packets| ensures tr.Step(packets, k) {
      assert w + (Replies(t, packets, k) + AnswersTo(Polled(t, packets, k), packets[k])) ==
        w + Replies(t, packets, k) + AnswersTo(Polled(t, packets, k), packets[k]);
    }
    assert w + [] == w;
  }

  // ---------------------------------------------------------------- a peer's segments, from bytes to bytes

  /** A segment as the peer sends it. */
  datatype Sending = Sending(header: Header, payload: seq<byte>)

  predicate DataOk(ds: seq<Sending>) {
    forall i :: 0 <= i < |ds| ==> HeaderOk(ds[i].header) && !ds[i].header.bits.fin
  }

  function Payloads(ds: seq<Sending>): seq<byte> {
    if ds == [] then [] else Payloads(ds[..|ds| - 1]) + ds[|ds| - 1].payload
  }

  /** The packets of a connection: the SYN-ACK and the segments after it. */
  function Packets(synAck: Sending, ds: seq<Sending>): (ps: seq<seq<byte>>)
    requires HeaderOk(synAck.header) && DataOk(ds)
    ensures |ps| == |ds| + 1 && PacketsOk(ps)
  {
    var ps := seq(|ds| + 1, i requires 0 <= i <= |ds| =>
      var d := if i == 0 then synAck else ds[i - 1]; PacketBytes(d.header, d.payload));
    PacketsFine(synAck, ds, ps);
    ps
  }

  lemma PacketsFine(synAck: Sending, ds: seq<Sending>, ps: seq<seq<byte>>)
    requires HeaderOk(synAck.header) && DataOk(ds) && |ps| == |ds| + 1
    requires forall i :: 0 <= i <= |ds| ==>
      ps[i] == var d := if i == 0 then synAck else ds[i - 1]; PacketBytes(d.header, d.payload)
    ensures PacketsOk(ps)
  {
    forall i | 0 <= i < |ps| ensures PacketOk(ps[i]) {
      var d := if i == 0 then synAck else ds[i - 1];
      ParseReadsBack(d.header, d.payload);
    }
  }

  /** An open connection that has taken the bytes `all` since the handshake: they are in the buffer, none read
      yet, `rcv_nxt` is past them and `snd_nxt` is what the SYN-ACK acknowledged. */
  function Taken(synAck: Header, all: seq<byte>): Tcb {
    Tcb(Established, synAck.ackNo, U32(synAck.seqNo + 1 + |all|), all, 0, all != [])
  }

  lemma DataTaken(synAck: Header, all: seq<byte>, s: Segment)
    requires !s.fin && |all| + |s.payload| < RX_SIZE
    ensures Arrive(Taken(synAck, all), s) == Taken(synAck, all + s.payload)
  {
    if s.payload == [] {
      assert all + s.payload == all;
    } else {
      WrapAdd(synAck.seqNo + 1 + |all|, |s.payload|);
    }
  }

  lemma {:induction false} PayloadsGrow(ds: seq<Sending>, n: nat)
    requires n < |ds|
    ensures Payloads(ds[..n + 1]) == Payloads(ds[..n]) + ds[n].payload && |Payloads(ds[..n + 1])| <= |Payloads(ds)|
    decreases |ds| - n
  {
    assert ds[..n + 1][..n] == ds[..n];
    if n + 1 < |ds| {
      PayloadsGrow(ds, n + 1);
    } else {
      assert ds[..n + 1] == ds;
    }
  }

  lemma {:induction false} TakenSoFar(isn: nat, synAck: Sending, ds: seq<Sending>, n: nat)
    requires HeaderOk(synAck.header) && synAck.header.bits.syn && synAck.header.bits.ack && DataOk(ds)
    requires |Payloads(ds)| < RX_SIZE && n <= |ds|
    ensures Polled(Connecting(isn), Packets(synAck, ds), n + 1) == Taken(synAck.header, Payloads(ds[..n]))
  {
    var ps := Packets(synAck, ds);
    if n == 0 {
      ParseReadsBack(synAck.header, synAck.payload);
      assert Polled(Connecting(isn), ps, 0) == Connecting(isn);
    } else {
      TakenSoFar(isn, synAck, ds, n - 1);
      PayloadsGrow(ds, n - 1);
      var d := ds[n - 1];
      assert ps[n] == PacketBytes(d.header, d.payload);
      ParseReadsBack(d.header, d.payload);
      DataTaken(synAck.header, Payloads(ds[..n - 1]), Parse(ps[n]));
    }
  }

  /** From the bytes of the peer's segments to the bytes of its stream: however the stream is cut, as long as
      all of it fits the buffer, everything is taken in the order of arrival. */
  lemma StreamArrives(isn: nat, synAck: Sending, ds: seq<Sending>, packets: seq<seq<byte>>, all: seq<byte>)
    requires HeaderOk(synAck.header) && synAck.header.bits.syn && synAck.header.bits.ack && DataOk(ds)
    requires packets == Packets(synAck, ds) && all == Payloads(ds) && |all| < RX_SIZE
    ensures Polled(Connecting(isn), packets, |packets|) == Taken(synAck.header, all)
  {
    TakenSoFar(isn, synAck, ds, |ds|);
    assert ds[..|ds|] == ds;
  }
}

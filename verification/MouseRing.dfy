/** The mouse byte ring: filled by the interrupt stub, emptied by `c_mouse_read`, with the interrupt
    allowed between any two instructions of the reader, and the packet decoder it feeds. */
module MouseRing {
  import opened Machine

  const RING_SIZE := 256

  // ---------------------------------------------------------------- the packet decoder

  /** The state of `mouse.c`: position, buttons, bounds, and the packet being assembled. */
  datatype Mouse = Mouse(
    x: int, y: int, left: bool, right: bool,
    limitW: int, limitH: int,
    status: byte, dx: byte, packetIdx: nat)

  function Bit(b: byte, mask: nat): bool
    requires mask > 0
  {
    b / mask % 2 == 1
  }

  /** `(int8_t)b`. */
  function Int8(b: byte): int {
    if b < 0x80 then b else b - 0x100
  }

  /** The two comparisons after a move: below zero first, then the limit. */
  function Clamp(v: int, limit: int): int {
    var low := if v < 0 then 0 else v;
    if low >= limit then limit - 1 else low
  }

  /** A complete packet moves the pointer and sets the buttons. */
  function Move(m: Mouse, status: byte, dx: byte, dy: byte): Mouse {
    m.(left := Bit(status, 0x01), right := Bit(status, 0x02),
       x := Clamp(m.x + if Bit(status, 0x40) then 0 else Int8(dx), m.limitW),
       y := Clamp(m.y - if Bit(status, 0x80) then 0 else Int8(dy), m.limitH))
  }

  /** One pass of the loop in `mouse_poll`. */
  function Decode(m: Mouse, b: byte): Mouse {
    if m.packetIdx == 0 then
      if Bit(b, 0x08) then m.(status := b, packetIdx := 1) else m
    else if m.packetIdx == 1 then
      m.(dx := b, packetIdx := 2)
    else
      Move(m, m.status, m.dx, b).(packetIdx := 0)
  }

  function DecodeAll(m: Mouse, bytes: seq<byte>): Mouse {
    if bytes == [] then m
    else Decode(DecodeAll(m, bytes[..|bytes| - 1]), bytes[|bytes| - 1])
  }

  /** `mouse_set_bounds`. */
  function SetBounds(m: Mouse, width: int, height: int): Mouse {
    m.(limitW := width, limitH := height,
       x := if m.x >= width then width - 1 else m.x,
       y := if m.y >= height then height - 1 else m.y)
  }

  predicate Inside(m: Mouse) {
    0 <= m.x < m.limitW && 0 <= m.y < m.limitH
  }

  /** The pointer never leaves the bounds, whatever bytes arrive. */
  lemma {:induction false} PointerStaysInside(m: Mouse, bytes: seq<byte>)
    requires Inside(m)
    ensures Inside(DecodeAll(m, bytes))
    ensures DecodeAll(m, bytes).limitW == m.limitW && DecodeAll(m, bytes).limitH == m.limitH
  {
    if bytes != [] {
      PointerStaysInside(m, bytes[..|bytes| - 1]);
    }
  }

  /** Feeding bytes in two portions is feeding them at once, so the result does not depend on how
      the bytes are split across polls. */
  lemma {:induction false} PollsCompose(m: Mouse, a: seq<byte>, b: seq<byte>)
    ensures DecodeAll(DecodeAll(m, a), b) == DecodeAll(m, a + b)
  {
    if b == [] {
      assert a + b == a;
    } else {
      var n := |b| - 1;
      PollsCompose(m, a, b[..n]);
      assert (a + b)[..|a + b| - 1] == a + b[..n];
    }
  }

  datatype Packet = Packet(status: byte, dx: byte, dy: byte)

  function Wire(ps: seq<Packet>): seq<byte> {
    if ps == [] then []
    else Wire(ps[..|ps| - 1]) + [ps[|ps| - 1].status, ps[|ps| - 1].dx, ps[|ps| - 1].dy]
  }

  function MoveAll(m: Mouse, ps: seq<Packet>): Mouse {
    if ps == [] then m
    else
      var p := ps[|ps| - 1];
      Move(MoveAll(m, ps[..|ps| - 1]), p.status, p.dx, p.dy)
  }

  lemma DecodeOnePacket(m: Mouse, p: Packet)
    requires m.packetIdx == 0 && Bit(p.status, 0x08)
    ensures DecodeAll(m, [p.status, p.dx, p.dy]) == Move(m, p.status, p.dx, p.dy).(status := p.status, dx := p.dx)
  {
    var bs := [p.status, p.dx, p.dy];
    assert bs[..2] == [p.status, p.dx] && bs[..2][..1] == [p.status] && bs[..1][..0] == [];
    assert DecodeAll(m, bs[..1]) == Decode(m, p.status);
    assert DecodeAll(m, bs[..2]) == Decode(Decode(m, p.status), p.dx);
  }

  /** Same position, buttons, bounds and packet boundary. */
  predicate Agree(a: Mouse, b: Mouse) {
    && a.x == b.x && a.y == b.y && a.left == b.left && a.right == b.right
    && a.limitW == b.limitW && a.limitH == b.limitH && a.packetIdx == b.packetIdx
  }

  /** On a stream of packets the byte decoder moves the pointer packet by packet. */
  lemma {:induction false} PacketsMoveThePointer(m: Mouse, ps: seq<Packet>)
    requires m.packetIdx == 0 && forall p :: p in ps ==> Bit(p.status, 0x08)
    ensures Agree(DecodeAll(m, Wire(ps)), MoveAll(m, ps))
    ensures MoveAll(m, ps).packetIdx == 0
  {
    if ps != [] {
      var n := |ps| - 1;
      var p := ps[n];
      PacketsMoveThePointer(m, ps[..n]);
      PollsCompose(m, Wire(ps[..n]), [p.status, p.dx, p.dy]);
      DecodeOnePacket(DecodeAll(m, Wire(ps[..n])), p);
    }
  }

  // ---------------------------------------------------------------- what the packets stand for

  /** What the mouse has to tell: buttons, counters that ran over, and motion to the right and upwards. */
  datatype Report = Report(left: bool, right: bool, middle: bool, overX: bool, overY: bool, dx: int, dy: int)

  function Flag(on: bool, weight: nat): nat {
    if on then weight else 0
  }

  /** The three bytes of a report: the motion in nine bits each, the low eight in bytes of their own and
      the signs in the first byte. */
  function Encode(r: Report): Packet
    requires -256 <= r.dx < 256 && -256 <= r.dy < 256
  {
    Packet(Flag(r.left, 1) + Flag(r.right, 2) + Flag(r.middle, 4) + 8 + Flag(r.dx < 0, 16) + Flag(r.dy < 0, 32) +
           Flag(r.overX, 64) + Flag(r.overY, 128),
           r.dx % 0x100, r.dy % 0x100)
  }

  /** The motion is what a signed byte can say. */
  predicate Small(r: Report) {
    -128 <= r.dx < 128 && -128 <= r.dy < 128
  }

  /** The distance a report asks for; a counter that ran over asks for none. */
  function AskedX(r: Report): int { if r.overX then 0 else r.dx }
  function AskedY(r: Report): int { if r.overY then 0 else r.dy }

  function Distance(a: int, b: int): nat {
    if a <= b then b - a else a - b
  }

  /** No place inside is nearer to the target. */
  ghost predicate Nearest(p: int, target: int, limit: int) {
    0 <= p < limit && forall q :: 0 <= q < limit ==> Distance(p, target) <= Distance(q, target)
  }

  /** The pointer after a report: moved to the right and up by what it asks for, or as far as the bounds
      let it, with the buttons of the report. */
  ghost predicate Obeys(m: Mouse, r: Report, n: Mouse) {
    && n.left == r.left && n.right == r.right && n.limitW == m.limitW && n.limitH == m.limitH
    && Nearest(n.x, m.x + AskedX(r), m.limitW) && Nearest(n.y, m.y - AskedY(r), m.limitH)
  }

  lemma FlagRead(s: byte, mask: nat, low: nat, on: bool, high: nat)
    requires mask == 1 || mask == 2 || mask == 8 || mask == 64 || mask == 128
    requires low < mask && s == low + Flag(on, mask) + 2 * mask * high
    ensures Bit(s, mask) == on
  {
    if mask == 1 {
    } else if mask == 2 {
    } else if mask == 8 {
    } else if mask == 64 {
    }
  }

  lemma FlagsRead(r: Report)
    requires -256 <= r.dx < 256 && -256 <= r.dy < 256
    ensures var s := Encode(r).status;
      && Bit(s, 0x01) == r.left && Bit(s, 0x02) == r.right && Bit(s, 0x08)
      && Bit(s, 0x40) == r.overX && Bit(s, 0x80) == r.overY
  {
    var s := Encode(r).status;
    var high := Flag(r.dx < 0, 1) + Flag(r.dy < 0, 2) + Flag(r.overX, 4) + Flag(r.overY, 8);
    var low := Flag(r.left, 1) + Flag(r.right, 2) + Flag(r.middle, 4);
    assert s == low + 8 + 16 * high;
    FlagRead(s, 1, 0, r.left, Flag(r.right, 1) + Flag(r.middle, 2) + 4 + 8 * high);
    FlagRead(s, 2, Flag(r.left, 1), r.right, Flag(r.middle, 1) + 2 + 4 * high);
    FlagRead(s, 8, low, true, high);
    FlagRead(s, 64, low + 8 + Flag(r.dx < 0, 16) + Flag(r.dy < 0, 32), r.overX, Flag(r.overY, 1));
    FlagRead(s, 128, low + 8 + Flag(r.dx < 0, 16) + Flag(r.dy < 0, 32) + Flag(r.overX, 64), r.overY, 0);
  }

  lemma SignedRead(v: int)
    requires -256 <= v < 256
    ensures Int8(v % 0x100) == v <==> -128 <= v < 128
  {
  }

  lemma ClampNearest(v: int, limit: int)
    requires limit >= 1
    ensures Nearest(Clamp(v, limit), v, limit)
  {
  }

  lemma NearestUnique(p: int, q: int, target: int, limit: int)
    requires Nearest(p, target, limit) && Nearest(q, target, limit)
    ensures p == q && (0 <= target < limit ==> p == target)
  {
    assert Distance(p, target) <= Distance(q, target) && Distance(q, target) <= Distance(p, target);
    if 0 <= target < limit {
      assert Distance(p, target) <= Distance(target, target);
    } else {
      var edge := if target < 0 then 0 else limit - 1;
      assert Distance(p, target) <= Distance(edge, target);
    }
  }

  /** A packet does what the report in it asks for. */
  lemma ReportObeyed(m: Mouse, r: Report)
    requires Inside(m) && Small(r)
    ensures var p := Encode(r); Bit(p.status, 0x08) && Obeys(m, r, Move(m, p.status, p.dx, p.dy))
  {
    FlagsRead(r);
    SignedRead(r.dx);
    SignedRead(r.dy);
    ClampNearest(m.x + AskedX(r), m.limitW);
    ClampNearest(m.y - AskedY(r), m.limitH);
  }

  /** The sign bits of the first byte are not read: with room on both sides, the pointer moves by what
      was reported exactly when a signed byte can say it. */
  lemma MotionReadIff(m: Mouse, r: Report)
    requires -256 <= r.dx < 256 && -256 <= r.dy < 256 && !r.overX && !r.overY
    requires 256 <= m.x < m.limitW - 256 && 256 <= m.y < m.limitH - 256
    ensures var p := Encode(r); var n := Move(m, p.status, p.dx, p.dy);
      n.x == m.x + r.dx && n.y == m.y - r.dy <==> Small(r)
  {
    FlagsRead(r);
    SignedRead(r.dx);
    SignedRead(r.dy);
  }

  /** Such a report: 200 to the right moves the pointer 56 to the left. */
  lemma FastMotionTurns()
    ensures var p := Encode(Report(false, false, false, false, false, 200, 0));
      Move(Mouse(160, 100, false, false, 320, 200, 0, 0, 0), p.status, p.dx, p.dy).x == 104
  {
    FlagsRead(Report(false, false, false, false, false, 200, 0));
  }

  /** New bounds keep the pointer inside exactly when they are at least 1x1, and then move it no further
      than they must. */
  lemma BoundsKeepInside(m: Mouse, width: int, height: int)
    requires Inside(m)
    ensures var n := SetBounds(m, width, height);
      && n.limitW == width && n.limitH == height && n.left == m.left && n.right == m.right
      && (Inside(n) <==> width >= 1 && height >= 1)
      && (Inside(n) ==> Nearest(n.x, m.x, width) && Nearest(n.y, m.y, height))
  {
  }

  function EncodeAll(rs: seq<Report>): (ps: seq<Packet>)
    requires forall i :: 0 <= i < |rs| ==> Small(rs[i])
    ensures |ps| == |rs|
  {
    seq(|rs|, i requires 0 <= i < |rs| => assert Small(rs[i]); Encode(rs[i]))
  }

  /** One state for each report and the one before all, each obeying its report. */
  ghost predicate Track(rs: seq<Report>, states: seq<Mouse>) {
    |states| == |rs| + 1 && forall i :: 0 <= i < |rs| ==> Obeys(states[i], rs[i], states[i + 1])
  }

  /** The decoder follows every sequence of reports, byte by byte, from one packet boundary to another. */
  lemma {:induction false} ReportsObeyed(m: Mouse, rs: seq<Report>) returns (states: seq<Mouse>)
    requires Inside(m) && m.packetIdx == 0 && forall i :: 0 <= i < |rs| ==> Small(rs[i])
    ensures Track(rs, states) && states[0] == m && states[|rs|] == DecodeAll(m, Wire(EncodeAll(rs)))
    ensures states[|rs|].packetIdx == 0 && Inside(states[|rs|])
  {
    states := [m];
    if rs != [] {
      var n := |rs| - 1;
      var before := ReportsObeyed(m, rs[..n]);
      var p, ps := Encode(rs[n]), EncodeAll(rs);
      assert ps[..n] == EncodeAll(rs[..n]);
      ReportObeyed(before[n], rs[n]);
      PollsCompose(m, Wire(ps[..n]), [p.status, p.dx, p.dy]);
      DecodeOnePacket(before[n], p);
      states := before + [DecodeAll(m, Wire(ps))];
      assert Obeys(states[n], rs[n], states[n + 1]);
      forall i | 0 <= i < n ensures Obeys(states[i], rs[i], states[i + 1]) {
        assert Obeys(before[i], rs[..n][i], before[i + 1]);
      }
    }
  }

  function SumX(rs: seq<Report>): int {
    if rs == [] then 0 else SumX(rs[..|rs| - 1]) + AskedX(rs[|rs| - 1])
  }

  function SumY(rs: seq<Report>): int {
    if rs == [] then 0 else SumY(rs[..|rs| - 1]) + AskedY(rs[|rs| - 1])
  }

  /** The reports never ask for a place outside. */
  ghost predicate Unhindered(m: Mouse, rs: seq<Report>) {
    forall n :: 0 <= n <= |rs| ==> 0 <= m.x + SumX(rs[..n]) < m.limitW && 0 <= m.y - SumY(rs[..n]) < m.limitH
  }

  lemma {:induction false} TrackSums(rs: seq<Report>, states: seq<Mouse>, n: nat)
    requires Track(rs, states) && Unhindered(states[0], rs) && n <= |rs|
    ensures states[n].x == states[0].x + SumX(rs[..n]) && states[n].y == states[0].y - SumY(rs[..n])
    ensures states[n].limitW == states[0].limitW && states[n].limitH == states[0].limitH
  {
    if n > 0 {
      TrackSums(rs, states, n - 1);
      assert rs[..n][..n - 1] == rs[..n - 1];
      assert Obeys(states[n - 1], rs[n - 1], states[n]);
      NearestUnique(states[n].x, states[n].x, states[n - 1].x + AskedX(rs[n - 1]), states[0].limitW);
      NearestUnique(states[n].y, states[n].y, states[n - 1].y - AskedY(rs[n - 1]), states[0].limitH);
    }
  }

  /** Motion adds up: as long as no report asks for a place outside, the pointer is where the sums of what
      was reported put it, right and up from where it was. */
  lemma MotionAddsUp(m: Mouse, rs: seq<Report>)
    requires Inside(m) && m.packetIdx == 0 && Unhindered(m, rs) && forall i :: 0 <= i < |rs| ==> Small(rs[i])
    ensures var n := DecodeAll(m, Wire(EncodeAll(rs))); n.x == m.x + SumX(rs) && n.y == m.y - SumY(rs)
  {
    var states := ReportsObeyed(m, rs);
    TrackSums(rs, states, |rs|);
    assert rs[..|rs|] == rs;
  }

  // ---------------------------------------------------------------- the ring

  /** The instructions of `c_mouse_read`, with the registers that are live before each. */
  datatype Pc =
    | Outside
    | Compare(eax: nat)
    | Jump(eax: nat, equal: bool)
    | CopyIndex(eax: nat)
    | LoadByte(ebx: nat)
    | Increment(al: byte, ebx: nat)
    | Mask(al: byte, ebx: nat)
    | StoreTail(al: byte, ebx: nat)
    | Returned(al: byte)

  /** `produced` and `consumed` are the bytes that went in and came out; no step reads them. */
  datatype System = System(
    buffer: seq<byte>, head: nat, tail: nat, pc: Pc, mouse: Mouse,
    produced: seq<byte>, consumed: seq<byte>)

  datatype Action = ReaderStep | Interrupt(b: byte)

  function Init(m: Mouse): System {
    System(seq(RING_SIZE, _ => 0), 0, 0, Outside, m, [], [])
  }

  /** One instruction of `c_mouse_read`, or the decoding of the byte it returned. */
  function Reader(s: System): System
    requires |s.buffer| == RING_SIZE
  {
    match s.pc
    case Outside => s.(pc := Compare(s.tail))
    case Compare(eax) => s.(pc := Jump(eax, eax == s.head))
    case Jump(eax, equal) => s.(pc := if equal then Outside else CopyIndex(eax))
    case CopyIndex(eax) => s.(pc := LoadByte(eax))
    case LoadByte(ebx) => if ebx < RING_SIZE then s.(pc := Increment(s.buffer[ebx], ebx)) else s
    case Increment(al, ebx) => s.(pc := Mask(al, ebx + 1))
    case Mask(al, ebx) => s.(pc := StoreTail(al, ebx % RING_SIZE))
    case StoreTail(al, ebx) =>
      s.(tail := ebx, pc := Returned(al), consumed := s.consumed + [al])
    case Returned(al) => s.(pc := Outside, mouse := Decode(s.mouse, al))
  }

  function Next(s: System, a: Action): (r: System)
    requires |s.buffer| == RING_SIZE
    ensures |r.buffer| == RING_SIZE
  {
    match a
    case ReaderStep => Reader(s)
    case Interrupt(b) =>
      if s.head >= RING_SIZE then s else
      s.(buffer := s.buffer[s.head := b], head := (s.head + 1) % RING_SIZE, produced := s.produced + [b])
  }

  function Run(s: System, actions: seq<Action>): (r: System)
    requires |s.buffer| == RING_SIZE
    ensures |r.buffer| == RING_SIZE
  {
    if actions == [] then s else Next(Run(s, actions[..|actions| - 1]), actions[|actions| - 1])
  }

  function Backlog(s: System): int {
    |s.produced| - |s.consumed|
  }

  /** At no point of the run are more than 255 bytes waiting. */
  ghost predicate WithinBacklog(s: System, actions: seq<Action>)
    requires |s.buffer| == RING_SIZE
  {
    forall n :: 0 <= n <= |actions| ==> Backlog(Run(s, actions[..n])) < RING_SIZE
  }

  ghost predicate Unread(buffer: seq<byte>, produced: seq<byte>, from: nat)
    requires |buffer| == RING_SIZE
  {
    forall k :: from <= k < |produced| ==> buffer[k % RING_SIZE] == produced[k]
  }

  /** The reader's registers belong to the oldest unread byte. */
  ghost predicate ReaderOk(s: System) {
    match s.pc
    case Outside => true
    case Compare(eax) => eax == s.tail
    case Jump(eax, equal) => eax == s.tail && (!equal ==> |s.consumed| < |s.produced|)
    case CopyIndex(eax) => eax == s.tail && |s.consumed| < |s.produced|
    case LoadByte(ebx) => ebx == s.tail && |s.consumed| < |s.produced|
    case Increment(al, ebx) => ebx == s.tail && |s.consumed| < |s.produced| && al == s.produced[|s.consumed|]
    case Mask(al, ebx) => ebx == s.tail + 1 && |s.consumed| < |s.produced| && al == s.produced[|s.consumed|]
    case StoreTail(al, ebx) =>
      ebx == (s.tail + 1) % RING_SIZE && |s.consumed| < |s.produced| && al == s.produced[|s.consumed|]
    case Returned(al) => |s.consumed| > 0 && al == s.consumed[|s.consumed| - 1]
  }

  /** How many of the bytes handed out have reached the decoder. */
  function Decoded(s: System): int {
    |s.consumed| - if s.pc.Returned? then 1 else 0
  }

  ghost predicate Inv(s: System, start: Mouse) {
    && |s.buffer| == RING_SIZE
    && s.consumed <= s.produced
    && s.head == |s.produced| % RING_SIZE && s.tail == |s.consumed| % RING_SIZE
    && Unread(s.buffer, s.produced, |s.consumed|)
    && ReaderOk(s)
    && 0 <= Decoded(s) && s.mouse == DecodeAll(start, s.consumed[..Decoded(s)])
  }

  lemma UnreadSurvives(buffer: seq<byte>, produced: seq<byte>, from: nat, b: byte)
    requires |buffer| == RING_SIZE && Unread(buffer, produced, from)
    requires from <= |produced| < from + RING_SIZE
    ensures Unread(buffer[|produced| % RING_SIZE := b], produced + [b], from)
  {
  }

  lemma InterruptKeepsInv(s: System, start: Mouse, b: byte)
    requires Inv(s, start) && Backlog(s) < RING_SIZE
    ensures Inv(Next(s, Interrupt(b)), start)
  {
    UnreadSurvives(s.buffer, s.produced, |s.consumed|, b);
    SuccMod(|s.produced|);
  }

  lemma CompareIsExact(produced: nat, consumed: nat)
    requires consumed <= produced < consumed + RING_SIZE
    ensures produced % RING_SIZE == consumed % RING_SIZE <==> produced == consumed
  {
  }

  lemma StoreTailKeepsInv(s: System, start: Mouse)
    requires Inv(s, start) && s.pc.StoreTail?
    ensures Inv(Reader(s), start)
  {
    var n := |s.consumed|;
    SuccMod(n);
    assert Reader(s).consumed[..n] == s.consumed == s.consumed[..n];
    assert s.consumed + [s.produced[n]] == s.produced[..n + 1];
  }

  lemma SuccMod(n: nat)
    ensures (n % RING_SIZE + 1) % RING_SIZE == (n + 1) % RING_SIZE
  {
  }

  lemma DecodeKeepsInv(s: System, start: Mouse)
    requires Inv(s, start) && s.pc.Returned?
    ensures Inv(Reader(s), start)
  {
    var n := |s.consumed| - 1;
    assert s.consumed[..n + 1] == s.consumed && s.consumed[..n + 1][..n] == s.consumed[..n];
  }

  lemma ReaderKeepsInv(s: System, start: Mouse)
    requires Inv(s, start) && Backlog(s) < RING_SIZE
    ensures Inv(Reader(s), start)
  {
    if s.pc.StoreTail? {
      StoreTailKeepsInv(s, start);
    } else if s.pc.Returned? {
      DecodeKeepsInv(s, start);
    } else if s.pc.Compare? {
      CompareIsExact(|s.produced|, |s.consumed|);
    }
  }

  /** Between polls the decoder has seen every byte consumed. */
  lemma AllDecoded(s: System, start: Mouse)
    requires Inv(s, start) && s.pc == Outside
    ensures s.mouse == DecodeAll(start, s.produced[..|s.consumed|])
  {
    assert s.produced[..|s.consumed|] == s.consumed == s.consumed[..|s.consumed|];
  }

  lemma StepKeepsInv(s: System, start: Mouse, a: Action)
    requires Inv(s, start) && Backlog(s) < RING_SIZE
    ensures Inv(Next(s, a), start)
  {
    match a
    case ReaderStep => ReaderKeepsInv(s, start);
    case Interrupt(b) => InterruptKeepsInv(s, start, b);
  }

  lemma PrefixWithinBacklog(s: System, actions: seq<Action>)
    requires |s.buffer| == RING_SIZE && actions != [] && WithinBacklog(s, actions)
    ensures WithinBacklog(s, actions[..|actions| - 1])
    ensures Backlog(Run(s, actions[..|actions| - 1])) < RING_SIZE
  {
    var n := |actions| - 1;
    forall m | 0 <= m <= n ensures Backlog(Run(s, actions[..n][..m])) < RING_SIZE {
      assert actions[..n][..m] == actions[..m];
    }
  }

  lemma {:induction false} RunKeepsInv(start: Mouse, actions: seq<Action>)
    requires WithinBacklog(Init(start), actions)
    ensures Inv(Run(Init(start), actions), start)
  {
    if actions != [] {
      var n := |actions| - 1;
      PrefixWithinBacklog(Init(start), actions);
      RunKeepsInv(start, actions[..n]);
      StepKeepsInv(Run(Init(start), actions[..n]), start, actions[n]);
    }
  }

  /** In every run with at most 255 bytes waiting, the bytes the reader hands out are a prefix of
      the bytes the interrupt put in, and the decoder is where those bytes put it, wherever the
      interrupts fell. */
  lemma ConsumedIsPrefix(start: Mouse, actions: seq<Action>)
    requires WithinBacklog(Init(start), actions)
    ensures var s := Run(Init(start), actions);
      && s.consumed <= s.produced
      && 0 <= Decoded(s) && s.mouse == DecodeAll(start, s.produced[..Decoded(s)])
  {
    RunKeepsInv(start, actions);
    var s := Run(Init(start), actions);
    assert s.produced[..Decoded(s)] == s.consumed[..Decoded(s)];
  }

  /** The bound is exact: the byte that makes 256 wait, and no other, makes the ring look empty. */
  lemma FullRingLooksEmpty(s: System, start: Mouse, b: byte)
    requires Inv(s, start) && Backlog(s) < RING_SIZE
    ensures var r := Next(s, Interrupt(b)); r.head == r.tail <==> Backlog(r) == RING_SIZE
  {
    SuccMod(|s.produced|);
    HeadMeetsTail(|s.produced|, |s.consumed|);
  }

  lemma HeadMeetsTail(produced: nat, consumed: nat)
    requires consumed <= produced < consumed + RING_SIZE
    ensures (produced + 1) % RING_SIZE == consumed % RING_SIZE <==> produced + 1 == consumed + RING_SIZE
  {
    SameSlot(consumed);
  }

  /** And the next interrupt after that leaves the unread bytes in the ring exactly when it happens to
      bring the very byte that it overwrites. */
  lemma UnreadKeptIff(s: System, start: Mouse, b: byte)
    requires Inv(s, start) && Backlog(s) <= RING_SIZE
    ensures var r, n := Next(s, Interrupt(b)), |s.consumed|;
      Unread(r.buffer, r.produced, n) <==> Backlog(s) < RING_SIZE || b == s.produced[n]
  {
    var n, r := |s.consumed|, Next(s, Interrupt(b));
    if Backlog(s) < RING_SIZE {
      UnreadSurvives(s.buffer, s.produced, n, b);
    } else {
      SameSlot(n);
      assert r.produced[n] == s.produced[n] && s.buffer[n % RING_SIZE] == s.produced[n];
      if b == s.produced[n] {
        assert r.buffer == s.buffer;
        SameSlot(n);
      } else {
        assert r.buffer[n % RING_SIZE] == b;
      }
    }
  }

  lemma SameSlot(n: nat)
    ensures (n + RING_SIZE) % RING_SIZE == n % RING_SIZE
  {
  }
}

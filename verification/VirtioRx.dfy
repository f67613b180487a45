/** The receive half of the VirtIO-Net driver as it runs: two rings of 256 slots, four shared
    buffers and free-running 16-bit indices, with the driver's micro-steps and those of a
    conforming device interleaved in any order (split virtqueues, section 2.6 of VIRTIO 1.1).
    Every run of it is a run of `ReceiveChannel`. */
module VirtioRx {
  import opened Machine
  import C = ReceiveChannel

  const RING_SIZE := 256       // queue size the device reports
  const DESC_F_WRITE := 2

  type Frame = C.Frame
  type Buffer = b: seq<byte> | |b| == C.PKT_BUF_SIZE witness seq(C.PKT_BUF_SIZE, _ => 0)

  datatype UsedElem = UsedElem(id: nat, len: nat)
  datatype Descriptor = Descriptor(addr: nat, len: nat, flags: nat, next: nat)

  /** Memory that both sides see. A descriptor's address is modelled by the number of its buffer. */
  datatype MemoryRaw = Memory(
    desc: seq<Descriptor>,
    availIdx: nat, availRing: seq<nat>,
    usedIdx: nat, usedRing: seq<UsedElem>,
    buffers: seq<Buffer>)
  {
    predicate Shape() {
      && |desc| == |buffers| == C.QUEUE_SIZE
      && |availRing| == |usedRing| == RING_SIZE
    }
  }
  type Memory = m: MemoryRaw | m.Shape() witness InitialMemory(seq(C.QUEUE_SIZE, _ => seq(C.PKT_BUF_SIZE, _ => 0)))

  datatype Driver = Driver(rxLastUsed: nat, rxAvailIdx: nat, pc: C.Pc)

  /** The device: its own read position, the buffers it holds with the bytes it has written to each,
      and those whose used elements are written but not yet published, oldest first. */
  datatype Device = Device(nextAvail: nat, held: map<nat, Frame>, sealed: seq<nat>)

  datatype System = System(mem: Memory, drv: Driver, dev: Device, log: C.Log)

  // ---------------------------------------------------------------- the machine

  function RxDescriptor(id: nat): Descriptor {
    Descriptor(id, C.PKT_BUF_SIZE, DESC_F_WRITE, 0)
  }

  function InitialMemory(buffers: seq<Buffer>): (m: MemoryRaw)
    requires |buffers| == C.QUEUE_SIZE
    ensures m.Shape()
  {
    Memory(seq(C.QUEUE_SIZE, (i: nat) => RxDescriptor(i)),
           C.QUEUE_SIZE, seq(RING_SIZE, (i: nat) => if i < C.QUEUE_SIZE then i else 0),
           0, seq(RING_SIZE, _ => UsedElem(0, 0)),
           buffers)
  }

  /** The state `wifi_driver_init` leaves: the four buffers on offer, everything else zero. */
  function Init(buffers: seq<Buffer>): System
    requires |buffers| == C.QUEUE_SIZE
  {
    System(InitialMemory(buffers), Driver(0, C.QUEUE_SIZE, C.Idle), Device(0, map[], []), C.Log([], [], []))
  }

  function Slot(idx: nat): (r: nat)
    ensures r < RING_SIZE
  {
    idx % RING_SIZE
  }

  /** One micro-step of `wifi_recv`. */
  function DriverNext(s: System): System {
    var d, m := s.drv, s.mem;
    match d.pc
    case Idle => s
    case Entered(maxLen) =>
      s.(drv := d.(pc := if U16(m.usedIdx - d.rxLastUsed) == 0 then C.Idle else C.Pending(maxLen)))
    case Pending(maxLen) =>
      s.(drv := d.(pc := C.HaveId(maxLen, m.usedRing[Slot(d.rxLastUsed)].id)))
    case HaveId(maxLen, id) =>
      s.(drv := d.(pc := C.HaveElem(maxLen, id, m.usedRing[Slot(d.rxLastUsed)].len)))
    case HaveElem(maxLen, id, len) =>
      var bumped := d.(rxLastUsed := U16(d.rxLastUsed + 1));
      if id >= C.QUEUE_SIZE then
        s.(drv := bumped.(pc := C.Idle))
      else
        s.(drv := bumped.(pc := C.Consumed(maxLen, id, len)),
           log := s.log.(maxLens := s.log.maxLens + [maxLen]))
    case Consumed(maxLen, id, len) =>
      if id >= C.QUEUE_SIZE then s else
      var pc := if len <= C.NET_HDR then C.SlotFree(id, [])
                else C.Copying(id, Min(len - C.NET_HDR, maxLen), []);
      s.(mem := m.(desc := m.desc[id := RxDescriptor(id)]), drv := d.(pc := pc))
    case Copying(id, pktLen, data) =>
      if |data| < pktLen && id < C.QUEUE_SIZE && C.NET_HDR + |data| < C.PKT_BUF_SIZE then
        s.(drv := d.(pc := C.Copying(id, pktLen, data + [m.buffers[id][C.NET_HDR + |data|]])))
      else
        s.(drv := d.(pc := C.SlotFree(id, data)))
    case SlotFree(id, data) =>
      s.(mem := m.(availRing := m.availRing[Slot(d.rxAvailIdx) := id]),
         drv := d.(pc := C.SlotWritten(id, data)))
    case SlotWritten(id, data) =>
      s.(drv := d.(rxAvailIdx := U16(d.rxAvailIdx + 1), pc := C.Counted(id, data)))
    case Counted(id, data) =>
      s.(mem := m.(availIdx := d.rxAvailIdx), drv := d.(pc := C.Idle),
         log := s.log.(returned := s.log.returned + C.Outcome(data)))
  }

  /** How many sealed buffers one update of the used index publishes. */
  function Batch(d: Device, n: nat): (k: nat)
    ensures k <= n && k <= |d.sealed|
  {
    Min(n, |d.sealed|)
  }

  function Content(held: map<nat, Frame>, id: nat): Frame {
    if id in held then held[id] else []
  }

  function Contents(held: map<nat, Frame>, ids: seq<nat>): seq<Frame> {
    seq(|ids|, i requires 0 <= i < |ids| => Content(held, ids[i]))
  }

  /** One step of the device on the memory it shares and its own state. */
  function DeviceStep(m: Memory, d: Device, a: C.Action): (Memory, Device) {
    match a
    case DevTake =>
      if U16(m.availIdx - d.nextAvail) == 0 then (m, d) else
      (m, d.(nextAvail := U16(d.nextAvail + 1), held := d.held[m.availRing[Slot(d.nextAvail)] := []]))
    case DevWrite(id, b) =>
      if !(id in d.held && id !in d.sealed && id < C.QUEUE_SIZE) then (m, d) else
      var desc, at := m.desc[id], |d.held[id]|;
      if !(desc.addr < C.QUEUE_SIZE && at < desc.len <= C.PKT_BUF_SIZE && desc.flags == DESC_F_WRITE) then (m, d) else
      (m.(buffers := m.buffers[desc.addr := m.buffers[desc.addr][at := b]]),
       d.(held := d.held[id := d.held[id] + [b]]))
    case DevComplete(id) =>
      if !(id in d.held && id !in d.sealed) then (m, d) else
      (m.(usedRing := m.usedRing[Slot(U16(m.usedIdx + |d.sealed|)) := UsedElem(id, |d.held[id]|)]),
       d.(sealed := d.sealed + [id]))
    case DevPublish(n) =>
      var k := Batch(d, n);
      (m.(usedIdx := U16(m.usedIdx + k)),
       d.(held := d.held - (set id | id in d.sealed[..k]), sealed := d.sealed[k..]))
    case _ => (m, d)
  }

  /** The frame that a device step completes, if any. */
  function Published(d: Device, a: C.Action): seq<Frame> {
    match a
    case DevPublish(n) => Contents(d.held, d.sealed[..Batch(d, n)])
    case _ => []
  }

  /** One step of the whole system. An action that is not enabled changes nothing. */
  function Next(s: System, a: C.Action): System {
    match a
    case Call(maxLen) =>
      if s.drv.pc == C.Idle && maxLen > 0 then s.(drv := s.drv.(pc := C.Entered(maxLen))) else s
    case DriverStep => DriverNext(s)
    case _ =>
      var (m, d) := DeviceStep(s.mem, s.dev, a);
      s.(mem := m, dev := d, log := s.log.(completed := s.log.completed + Published(s.dev, a)))
  }

  function Run(s: System, actions: seq<C.Action>): System {
    if actions == [] then s
    else Next(Run(s, actions[..|actions| - 1]), actions[|actions| - 1])
  }

  // ---------------------------------------------------------------- rings

  /** The ring slots from the free-running position `from` on hold the queue `q`. */
  ghost predicate Shows<T>(ring: seq<T>, from: nat, q: seq<T>)
    requires |ring| == RING_SIZE
  {
    forall k :: 0 <= k < |q| ==> ring[(from + k) % RING_SIZE] == q[k]
  }

  lemma ShowsDrop<T>(ring: seq<T>, from: nat, q: seq<T>)
    requires |ring| == RING_SIZE && Shows(ring, from, q) && q != []
    ensures ring[from % RING_SIZE] == q[0] && Shows(ring, from + 1, q[1..])
  {
    assert ring[(from + 0) % RING_SIZE] == q[0];
    forall k | 0 <= k < |q[1..]|
      ensures ring[(from + 1 + k) % RING_SIZE] == q[1..][k]
    {
      assert q[1..][k] == q[k + 1];
    }
  }

  lemma ShowsGrow<T>(ring: seq<T>, from: nat, q: seq<T>, x: T)
    requires |ring| == RING_SIZE && Shows(ring, from, q) && ring[(from + |q|) % RING_SIZE] == x
    ensures Shows(ring, from, q + [x])
  {
  }

  lemma DifferentSlots(from: nat, k: nat, n: nat)
    requires k < n < RING_SIZE
    ensures (from + k) % RING_SIZE != (from + n) % RING_SIZE
  {
  }

  /** Writing the slot just past a queue shorter than the ring overwrites nothing unread. */
  lemma ShowsUnread<T>(ring: seq<T>, from: nat, q: seq<T>, x: T)
    requires |ring| == RING_SIZE && Shows(ring, from, q) && |q| < RING_SIZE
    ensures Shows(ring[(from + |q|) % RING_SIZE := x], from, q)
  {
    forall k | 0 <= k < |q|
      ensures ring[(from + |q|) % RING_SIZE := x][(from + k) % RING_SIZE] == q[k]
    {
      DifferentSlots(from, k, |q|);
    }
  }

  lemma SlotOfWrapped(n: nat)
    ensures Slot(U16(n)) == n % RING_SIZE
  {
    var q, r := n / TWO_16, n % TWO_16;
    assert n == RING_SIZE * (RING_SIZE * q + r / RING_SIZE) + r % RING_SIZE;
  }

  lemma WrappedDistance(a: nat, b: nat)
    requires b <= a < b + TWO_16
    ensures U16(U16(a) - U16(b)) == a - b
  {
    var k := a / TWO_16 - b / TWO_16;
    assert U16(a) - U16(b) == (a - b) - TWO_16 * k;
  }

  lemma WrappedSum(n: nat, k: nat)
    ensures U16(U16(n) + k) == U16(n + k)
  {
  }

  lemma WrappedSucc(n: nat)
    ensures U16(U16(n) + 1) == U16(n + 1)
  {
  }

  // ---------------------------------------------------------------- refinement

  function Elems(used: seq<C.Completion>): (r: seq<UsedElem>)
    ensures |r| == |used|
  {
    seq(|used|, i requires 0 <= i < |used| => UsedElem(used[i].id, |used[i].frame|))
  }

  /** The buffer whose slot is written but not yet counted. */
  function Reserved(pc: C.Pc): seq<nat> {
    if pc.SlotWritten? || pc.Counted? then [pc.id] else []
  }

  /** The used elements that are written but not yet published. */
  function SealedElems(c: C.Channel): (r: seq<UsedElem>)
    ensures |r| == |c.sealed|
  {
    seq(|c.sealed|, i requires 0 <= i < |c.sealed| => UsedElem(c.sealed[i], |Content(c.held, c.sealed[i])|))
  }

  /** Buffer `id` begins with the bytes of `frame`. */
  ghost predicate Holds(buffers: seq<Buffer>, id: nat, frame: Frame) {
    && id < |buffers|
    && frame <= buffers[id]
  }

  ghost predicate Same(s: System, c: C.Channel) {
    && s.drv.pc == c.pc && s.log == c.log
    && s.dev.held == c.held && s.dev.sealed == c.sealed
  }

  ghost predicate Indices(s: System, c: C.Channel) {
    && s.mem.availIdx == U16(c.taken + |c.avail|)
    && s.dev.nextAvail == U16(c.taken)
    && s.mem.usedIdx == U16(c.consumed + |c.used|)
    && s.drv.rxLastUsed == U16(c.consumed)
    && s.drv.rxAvailIdx == U16(c.taken + |c.avail| + if c.pc.Counted? then 1 else 0)
  }

  ghost predicate Rings(m: Memory, c: C.Channel) {
    && Shows(m.availRing, c.taken, c.avail + Reserved(c.pc))
    && Shows(m.usedRing, c.consumed, Elems(c.used) + SealedElems(c))
  }

  ghost predicate Bytes(m: Memory, c: C.Channel) {
    && (forall i :: 0 <= i < C.QUEUE_SIZE ==> m.desc[i] == RxDescriptor(i))
    && (forall id :: id in c.held ==> Holds(m.buffers, id, c.held[id]))
    && (forall e :: e in c.used ==> Holds(m.buffers, e.id, e.frame))
    && (C.Owning(c.pc) ==> Holds(m.buffers, c.pc.id, c.frame))
  }

  ghost predicate Refines(s: System, c: C.Channel) {
    Same(s, c) && Indices(s, c) && Rings(s.mem, c) && Bytes(s.mem, c)
  }

  /** The wrapped indices tell each side exactly what it needs: whether its queue is empty, and
      which slot is next. */
  lemma IndicesExact(s: System, c: C.Channel)
    requires Indices(s, c) && |c.avail| <= C.QUEUE_SIZE && |c.used| <= C.QUEUE_SIZE
    ensures U16(s.mem.availIdx - s.dev.nextAvail) == |c.avail|
    ensures U16(s.mem.usedIdx - s.drv.rxLastUsed) == |c.used|
    ensures Slot(s.dev.nextAvail) == c.taken % RING_SIZE
    ensures Slot(s.drv.rxLastUsed) == c.consumed % RING_SIZE
    ensures Slot(s.mem.usedIdx) == (c.consumed + |c.used|) % RING_SIZE
    ensures !c.pc.Counted? ==> Slot(s.drv.rxAvailIdx) == (c.taken + |c.avail|) % RING_SIZE
  {
    WrappedDistance(c.taken + |c.avail|, c.taken);
    WrappedDistance(c.consumed + |c.used|, c.consumed);
    SlotOfWrapped(c.taken);
    SlotOfWrapped(c.consumed);
    SlotOfWrapped(c.consumed + |c.used|);
    SlotOfWrapped(c.taken + |c.avail|);
  }

  lemma TakeRings(m: Memory, c: C.Channel)
    requires Rings(m, c) && c.avail != [] && c.avail[0] !in c.held
    requires C.AllHeld(c.sealed, c.held)
    ensures m.availRing[c.taken % RING_SIZE] == c.avail[0]
    ensures Rings(m, C.Next(c, C.DevTake))
  {
    var r, q := C.Next(c, C.DevTake), c.avail + Reserved(c.pc);
    ShowsDrop(m.availRing, c.taken, q);
    assert q[1..] == r.avail + Reserved(r.pc);
    assert SealedElems(r) == SealedElems(c);
  }

  lemma TakeIndices(s: System, c: C.Channel)
    requires Indices(s, c) && c.avail != []
    ensures Indices(s.(dev := s.dev.(nextAvail := U16(s.dev.nextAvail + 1))), C.Next(c, C.DevTake))
  {
    WrappedSucc(c.taken);
  }

  lemma TakeRefines(s: System, c: C.Channel)
    requires Refines(s, c) && C.Ownership(c)
    ensures Refines(Next(s, C.DevTake), C.Next(c, C.DevTake))
  {
    C.Apart(c);
    WrappedDistance(c.taken + |c.avail|, c.taken);
    if c.avail != [] {
      TakeFirst(s, c, Next(s, C.DevTake), C.Next(c, C.DevTake));
    }
  }

  lemma TakeFirst(s: System, c: C.Channel, r: System, d: C.Channel)
    requires Refines(s, c) && C.Ownership(c) && c.avail != [] && r == Next(s, C.DevTake) && d == C.Next(c, C.DevTake)
    ensures Refines(r, d)
  {
    C.Apart(c);
    IndicesExact(s, c);
    TakeRings(s.mem, c);
    TakeIndices(s, c);
    TakeBytes(s.mem, c);
    assert r.mem == s.mem && r.drv == s.drv && r.dev.nextAvail == U16(s.dev.nextAvail + 1);
  }

  lemma TakeBytes(m: Memory, c: C.Channel)
    requires Bytes(m, c) && c.avail != [] && c.avail[0] < C.QUEUE_SIZE
    ensures Bytes(m, C.Next(c, C.DevTake))
  {
  }

  lemma WriteBytes(m: Memory, c: C.Channel, id: nat, b: byte)
    requires Bytes(m, c) && C.Ownership(c) && id in c.held && |c.held[id]| < C.PKT_BUF_SIZE && id < C.QUEUE_SIZE
    ensures Bytes(m.(buffers := m.buffers[id := m.buffers[id][|c.held[id]| := b]]),
                  c.(held := c.held[id := c.held[id] + [b]]))
  {
    C.Apart(c);
    var r := c.(held := c.held[id := c.held[id] + [b]]);
    assert c.held[id] + [b] <= m.buffers[id][|c.held[id]| := b];
  }

  lemma WriteRefines(s: System, c: C.Channel, id: nat, b: byte)
    requires Refines(s, c) && C.Ownership(c)
    ensures Refines(Next(s, C.DevWrite(id, b)), C.Next(c, C.DevWrite(id, b)))
  {
    C.Apart(c);
    if id in c.held && id !in c.sealed && |c.held[id]| < C.PKT_BUF_SIZE {
      WriteHeld(s, c, id, b, Next(s, C.DevWrite(id, b)), C.Next(c, C.DevWrite(id, b)));
    }
  }

  lemma WriteHeld(s: System, c: C.Channel, id: nat, b: byte, r: System, d: C.Channel)
    requires Refines(s, c) && C.Ownership(c) && id in c.held && id !in c.sealed && |c.held[id]| < C.PKT_BUF_SIZE
    requires r == Next(s, C.DevWrite(id, b)) && d == C.Next(c, C.DevWrite(id, b))
    ensures Refines(r, d)
  {
    C.Apart(c);
    WriteBytes(s.mem, c, id, b);
    assert d == c.(held := c.held[id := c.held[id] + [b]]) && SealedElems(d) == SealedElems(c);
    assert r.mem == s.mem.(buffers := s.mem.buffers[id := s.mem.buffers[id][|c.held[id]| := b]]);
  }

  lemma CompleteRings(m: Memory, c: C.Channel, id: nat)
    requires Rings(m, c) && id in c.held && id !in c.sealed && |c.used| + |c.sealed| < RING_SIZE
    ensures var elem := UsedElem(id, |c.held[id]|);
      Rings(m.(usedRing := m.usedRing[(c.consumed + |c.used| + |c.sealed|) % RING_SIZE := elem]),
            C.Next(c, C.DevComplete(id)))
  {
    var elem, q, d := UsedElem(id, |c.held[id]|), Elems(c.used) + SealedElems(c), C.Next(c, C.DevComplete(id));
    ShowsUnread(m.usedRing, c.consumed, q, elem);
    ShowsGrow(m.usedRing[(c.consumed + |q|) % RING_SIZE := elem], c.consumed, q, elem);
    assert SealedElems(d) == SealedElems(c) + [elem];
    assert Elems(d.used) + SealedElems(d) == q + [elem];
  }

  /** The slot that the next used element goes to. */
  lemma NextUsedSlot(s: System, c: C.Channel)
    requires Same(s, c) && Indices(s, c)
    ensures Slot(U16(s.mem.usedIdx + |s.dev.sealed|)) == (c.consumed + |c.used| + |c.sealed|) % RING_SIZE
  {
    WrappedSum(c.consumed + |c.used|, |c.sealed|);
    SlotOfWrapped(c.consumed + |c.used| + |c.sealed|);
  }

  lemma CompleteRefines(s: System, c: C.Channel, id: nat)
    requires Refines(s, c) && C.Ownership(c)
    ensures Refines(Next(s, C.DevComplete(id)), C.Next(c, C.DevComplete(id)))
  {
    if id in c.held && id !in c.sealed {
      CompleteHeld(s, c, id, Next(s, C.DevComplete(id)), C.Next(c, C.DevComplete(id)));
    }
  }

  lemma CompleteHeld(s: System, c: C.Channel, id: nat, r: System, d: C.Channel)
    requires Refines(s, c) && C.Ownership(c) && id in c.held && id !in c.sealed
    requires r == Next(s, C.DevComplete(id)) && d == C.Next(c, C.DevComplete(id))
    ensures Refines(r, d)
  {
    C.Apart(c);
    NextUsedSlot(s, c);
    CompleteRings(s.mem, c, id);
  }

  lemma PublishOneRefines(s: System, c: C.Channel, s1: System, c1: C.Channel)
    requires Refines(s, c) && C.Distinct(c.sealed) && C.AllHeld(c.sealed, c.held) && c.sealed != []
    requires s1 == Next(s, C.DevPublish(1)) && c1 == C.PublishOne(c)
    ensures Refines(s1, c1)
  {
    var id := c.sealed[0];
    assert id in c.sealed;
    assert c.sealed[..1] == [id];
    assert Contents(c.held, [id]) == [c.held[id]];
    assert (set x | x in [id]) == {id};
    PublishRings(s.mem, c);
    WrappedSucc(c.consumed + |c.used|);
    PublishBytes(s.mem, c);
  }

  lemma PublishOneSealed(c: C.Channel)
    requires C.Distinct(c.sealed) && C.AllHeld(c.sealed, c.held) && c.sealed != []
    ensures var c1 := C.PublishOne(c); C.Distinct(c1.sealed) && C.AllHeld(c1.sealed, c1.held)
  {
    assert c.sealed[0] in c.sealed;
    assert forall x :: x in c.sealed[1..] ==> x in c.sealed && x != c.sealed[0];
  }

  lemma PublishRings(m: Memory, c: C.Channel)
    requires Rings(m, c) && C.Distinct(c.sealed) && C.AllHeld(c.sealed, c.held) && c.sealed != []
    ensures Rings(m, C.PublishOne(c))
  {
    var d := C.PublishOne(c);
    assert c.sealed[0] in c.sealed;
    assert forall i :: 0 <= i < |d.sealed| ==> Content(d.held, d.sealed[i]) == Content(c.held, c.sealed[i + 1]);
    assert Elems(d.used) + SealedElems(d) == Elems(c.used) + SealedElems(c);
  }

  lemma PublishBytes(m: Memory, c: C.Channel)
    requires Bytes(m, c) && c.sealed != [] && c.sealed[0] in c.held
    ensures Bytes(m, C.PublishOne(c))
  {
  }

  /** One update of the used index by `n` is `n` updates by one. */
  lemma DeviceInSteps(m: Memory, d: Device, n: nat, m1: Memory, d1: Device)
    requires n > 0 && C.Distinct(d.sealed) && d.sealed != [] && (m1, d1) == DeviceStep(m, d, C.DevPublish(1))
    ensures DeviceStep(m, d, C.DevPublish(n)) == DeviceStep(m1, d1, C.DevPublish(n - 1))
    ensures Published(d, C.DevPublish(n)) == Published(d, C.DevPublish(1)) + Published(d1, C.DevPublish(n - 1))
  {
    var id, k := d.sealed[0], Batch(d, n);
    SealedInSteps(d.sealed, k);
    assert Batch(d, 1) == 1 && d1.sealed == d.sealed[1..] && Batch(d1, n - 1) == k - 1;
    WrappedSum(m.usedIdx + 1, k - 1);
    HeldInSteps(d.held, id, d1.sealed[..k - 1]);
  }

  lemma SealedInSteps(sealed: seq<nat>, k: nat)
    requires 0 < k <= |sealed| && C.Distinct(sealed)
    ensures sealed[..1] == [sealed[0]] && sealed[0] !in sealed[1..][..k - 1]
    ensures sealed[..k] == [sealed[0]] + sealed[1..][..k - 1] && sealed[k..] == sealed[1..][k - 1..]
  {
  }

  lemma PublishInSteps(s: System, n: nat, s1: System)
    requires n > 0 && C.Distinct(s.dev.sealed) && s.dev.sealed != [] && s1 == Next(s, C.DevPublish(1))
    ensures Next(s, C.DevPublish(n)) == Next(s1, C.DevPublish(n - 1))
  {
    DeviceInSteps(s.mem, s.dev, n, s1.mem, s1.dev);
  }

  lemma HeldInSteps(held: map<nat, Frame>, id: nat, ids: seq<nat>)
    requires id !in ids
    ensures held - (set x | x in [id] + ids) == held - (set x | x in [id]) - (set x | x in ids)
    ensures Contents(held, [id] + ids) == Contents(held, [id]) + Contents(held - (set x | x in [id]), ids)
  {
    assert forall i :: 0 <= i < |ids| ==> Content(held, ids[i]) == Content(held - (set x | x in [id]), ids[i]);
  }

  lemma NothingStored(s: System, n: nat)
    requires Batch(s.dev, n) == 0 && s.mem.usedIdx < TWO_16
    ensures Next(s, C.DevPublish(n)) == s
  {
    var d := s.dev;
    assert d.sealed[..0] == [] && d.sealed[0..] == d.sealed;
    assert d.held - (set id | id in d.sealed[..0]) == d.held;
    assert Contents(d.held, []) == [];
    assert s.log.completed + [] == s.log.completed;
  }

  lemma {:induction false} NothingPublished(c: C.Channel, n: nat)
    requires n == 0 || c.sealed == []
    ensures C.Publish(c, n) == c
    decreases n
  {
    if n > 0 {
      NothingPublished(c, n - 1);
    }
  }

  lemma NothingRefines(s: System, c: C.Channel, n: nat)
    requires Refines(s, c) && (n == 0 || c.sealed == [])
    ensures Refines(Next(s, C.DevPublish(n)), C.Publish(c, n))
  {
    NothingStored(s, n);
    NothingPublished(c, n);
  }

  lemma {:induction false} PublishRefines(s: System, c: C.Channel, n: nat, r: System, d: C.Channel)
    requires Refines(s, c) && C.Distinct(c.sealed) && C.AllHeld(c.sealed, c.held)
    requires r == Next(s, C.DevPublish(n)) && d == C.Publish(c, n)
    ensures Refines(r, d)
    decreases n
  {
    if n == 0 || c.sealed == [] {
      NothingRefines(s, c, n);
    } else {
      var s1, c1 := Next(s, C.DevPublish(1)), C.PublishOne(c);
      PublishOneRefines(s, c, s1, c1);
      PublishOneSealed(c);
      PublishInSteps(s, n, s1);
      PublishRefines(s1, c1, n - 1, r, d);
    }
  }

  lemma CallRefines(s: System, c: C.Channel, maxLen: nat)
    requires Refines(s, c)
    ensures Refines(Next(s, C.Call(maxLen)), C.Next(c, C.Call(maxLen)))
  {
  }

  lemma NextElem(m: Memory, c: C.Channel)
    requires Rings(m, c) && c.used != []
    ensures m.usedRing[c.consumed % RING_SIZE] == UsedElem(c.used[0].id, |c.used[0].frame|)
  {
    ShowsDrop(m.usedRing, c.consumed, Elems(c.used) + SealedElems(c));
  }

  function AtPc(s: System, pc: C.Pc): System { s.(drv := s.drv.(pc := pc)) }

  /** A step that only moves the driver's program counter. */
  lemma PcRefines(s: System, c: C.Channel, pc: C.Pc)
    requires Refines(s, c) && Reserved(pc) == Reserved(c.pc) && pc.Counted? == c.pc.Counted?
    requires C.Owning(pc) ==> C.Owning(c.pc) && pc.id == c.pc.id
    ensures Refines(AtPc(s, pc), c.(pc := pc))
  {
  }

  lemma EnteredRefines(s: System, c: C.Channel)
    requires Refines(s, c) && C.Ownership(c) && C.Progress(c) && c.pc.Entered?
    ensures Refines(DriverNext(s), C.DriverNext(c))
  {
    C.Apart(c);
    WrappedDistance(c.consumed + |c.used|, c.consumed);
    PcRefines(s, c, C.DriverNext(c).pc);
  }

  /** The element that the driver looks at is the first one published. */
  lemma ElemSeen(s: System, c: C.Channel)
    requires Indices(s, c) && Rings(s.mem, c) && c.used != []
    ensures s.mem.usedRing[Slot(s.drv.rxLastUsed)] == UsedElem(c.used[0].id, |c.used[0].frame|)
  {
    SlotOfWrapped(c.consumed);
    NextElem(s.mem, c);
  }

  lemma ElemRefines(s: System, c: C.Channel)
    requires Refines(s, c) && C.Progress(c) && (c.pc.Pending? || c.pc.HaveId?)
    ensures Refines(DriverNext(s), C.DriverNext(c))
  {
    ElemSeen(s, c);
    PcRefines(s, c, C.DriverNext(c).pc);
  }

  lemma LookRefines(s: System, c: C.Channel)
    requires Refines(s, c) && C.Ownership(c) && C.Progress(c)
    requires c.pc.Entered? || c.pc.Pending? || c.pc.HaveId?
    ensures Refines(DriverNext(s), C.DriverNext(c))
  {
    if c.pc.Entered? {
      EnteredRefines(s, c);
    } else {
      ElemRefines(s, c);
    }
  }

  lemma ConsumeRings(m: Memory, c: C.Channel)
    requires Rings(m, c) && c.used != [] && c.pc.HaveElem?
    ensures Rings(m, C.DriverNext(c))
  {
    var r, q := C.DriverNext(c), Elems(c.used) + SealedElems(c);
    ShowsDrop(m.usedRing, c.consumed, q);
    assert q[1..] == Elems(r.used) + SealedElems(r);
  }

  lemma ConsumeRefines(s: System, c: C.Channel)
    requires Refines(s, c) && C.Ownership(c) && C.Progress(c) && c.pc.HaveElem?
    ensures Refines(DriverNext(s), C.DriverNext(c))
  {
    ConsumeTo(s, c, DriverNext(s), C.DriverNext(c));
  }

  lemma ConsumeTo(s: System, c: C.Channel, r: System, d: C.Channel)
    requires Refines(s, c) && C.Ownership(c) && C.Progress(c) && c.pc.HaveElem?
    requires r == DriverNext(s) && d == C.DriverNext(c)
    ensures Refines(r, d)
  {
    C.Apart(c);
    assert c.used[0] in c.used;
    ConsumeRings(s.mem, c);
    WrappedSucc(c.consumed);
    assert r.mem == s.mem && r.dev == s.dev;
    ConsumeBytes(s.mem, c);
  }

  lemma ConsumeBytes(m: Memory, c: C.Channel)
    requires Bytes(m, c) && c.pc.HaveElem? && c.used != [] && c.pc.id == c.used[0].id
    ensures Bytes(m, C.DriverNext(c))
  {
    assert c.used[0] in c.used;
    assert forall e :: e in c.used[1..] ==> e in c.used;
  }

  lemma StartCopyRefines(s: System, c: C.Channel)
    requires Refines(s, c) && C.Ownership(c) && C.Progress(c) && C.Fits(c) && c.pc.Consumed?
    ensures Refines(DriverNext(s), C.DriverNext(c))
  {
    C.Apart(c);
    var id := c.pc.id;
    assert id in C.DriverIds(c.pc);
    assert s.mem.desc[id := RxDescriptor(id)] == s.mem.desc;
    assert DriverNext(s) == AtPc(s, C.Work(c.pc, c.frame));
    PcRefines(s, c, C.Work(c.pc, c.frame));
  }

  lemma CopyByteRefines(s: System, c: C.Channel)
    requires Refines(s, c) && C.Ownership(c) && C.Progress(c) && C.Fits(c) && c.pc.Copying?
    ensures Refines(DriverNext(s), C.DriverNext(c))
  {
    C.Apart(c);
    assert c.pc.id in C.DriverIds(c.pc);
    assert DriverNext(s) == AtPc(s, C.Work(c.pc, c.frame));
    PcRefines(s, c, C.Work(c.pc, c.frame));
  }

  lemma CopyRefines(s: System, c: C.Channel)
    requires Refines(s, c) && C.Ownership(c) && C.Progress(c) && C.Fits(c)
    requires c.pc.Consumed? || c.pc.Copying?
    ensures Refines(DriverNext(s), C.DriverNext(c))
  {
    if c.pc.Consumed? {
      StartCopyRefines(s, c);
    } else {
      CopyByteRefines(s, c);
    }
  }

  lemma SlotRings(m: Memory, c: C.Channel)
    requires Rings(m, c) && c.pc.SlotFree? && |c.avail| < RING_SIZE
    ensures Rings(m.(availRing := m.availRing[(c.taken + |c.avail|) % RING_SIZE := c.pc.id]), C.DriverNext(c))
  {
    var q := c.avail;
    assert q + Reserved(c.pc) == q;
    ShowsUnread(m.availRing, c.taken, q, c.pc.id);
    ShowsGrow(m.availRing[(c.taken + |q|) % RING_SIZE := c.pc.id], c.taken, q, c.pc.id);
  }

  lemma SlotRefines(s: System, c: C.Channel)
    requires Refines(s, c) && C.Ownership(c) && c.pc.SlotFree?
    ensures Refines(DriverNext(s), C.DriverNext(c))
  {
    C.Apart(c);
    IndicesExact(s, c);
    SlotRings(s.mem, c);
  }

  lemma CountRefines(s: System, c: C.Channel)
    requires Refines(s, c) && C.Ownership(c) && c.pc.SlotWritten?
    ensures Refines(DriverNext(s), C.DriverNext(c))
  {
    C.Apart(c);
    WrappedSucc(c.taken + |c.avail|);
  }

  lemma ExposeRefines(s: System, c: C.Channel)
    requires Refines(s, c) && C.Ownership(c) && c.pc.Counted?
    ensures Refines(DriverNext(s), C.DriverNext(c))
  {
    C.Apart(c);
    var r := C.DriverNext(c);
    assert r.avail + Reserved(r.pc) == c.avail + Reserved(c.pc);
  }

  lemma RequeueRefines(s: System, c: C.Channel)
    requires Refines(s, c) && C.Ownership(c)
    requires c.pc.SlotFree? || c.pc.SlotWritten? || c.pc.Counted?
    ensures Refines(DriverNext(s), C.DriverNext(c))
  {
    match c.pc
    case SlotFree(_, _) => SlotRefines(s, c);
    case SlotWritten(_, _) => CountRefines(s, c);
    case Counted(_, _) => ExposeRefines(s, c);
  }

  lemma StepRefines(s: System, c: C.Channel, a: C.Action)
    requires Refines(s, c) && C.Inv(c)
    ensures Refines(Next(s, a), C.Next(c, a))
  {
    match a
    case Call(maxLen) => CallRefines(s, c, maxLen);
    case DevTake => TakeRefines(s, c);
    case DevWrite(id, b) => WriteRefines(s, c, id, b);
    case DevComplete(id) => CompleteRefines(s, c, id);
    case DevPublish(n) => PublishRefines(s, c, n, Next(s, a), C.Next(c, a));
    case DriverStep =>
      match c.pc
      case Idle =>
      case HaveElem(_, _, _) => ConsumeRefines(s, c);
      case Consumed(_, _, _) => CopyRefines(s, c);
      case Copying(_, _, _) => CopyRefines(s, c);
      case SlotFree(_, _) => RequeueRefines(s, c);
      case SlotWritten(_, _) => RequeueRefines(s, c);
      case Counted(_, _) => RequeueRefines(s, c);
      case _ => LookRefines(s, c);
  }

  lemma InitRefines(buffers: seq<Buffer>)
    requires |buffers| == C.QUEUE_SIZE
    ensures Refines(Init(buffers), C.Init())
  {
    assert Elems([]) == [];
  }

  /** Rings, wrapped indices and shared buffers behave exactly like the unbounded queues, for every
      interleaving of driver and device and for any number of index wraps. */
  lemma {:induction false} RunRefines(buffers: seq<Buffer>, actions: seq<C.Action>)
    requires |buffers| == C.QUEUE_SIZE
    ensures Refines(Run(Init(buffers), actions), C.Run(C.Init(), actions))
    ensures C.Inv(C.Run(C.Init(), actions))
  {
    C.RunKeepsInv(actions);
    if actions == [] {
      InitRefines(buffers);
    } else {
      var n := |actions| - 1;
      RunRefines(buffers, actions[..n]);
      StepRefines(Run(Init(buffers), actions[..n]), C.Run(C.Init(), actions[..n]), actions[n]);
    }
  }

  // ---------------------------------------------------------------- the two theorems

  /** Whatever a step writes to a ring, the entries not yet read stay as they were, those not yet published
      included. */
  lemma UnreadSlotsSurvive(s: System, c: C.Channel, a: C.Action)
    requires Refines(s, c) && C.Ownership(c)
    ensures Shows(Next(s, a).mem.availRing, c.taken, c.avail)
    ensures Shows(Next(s, a).mem.usedRing, c.consumed, Elems(c.used) + SealedElems(c))
  {
    C.Apart(c);
    IndicesExact(s, c);
    NextUsedSlot(s, c);
    AvailSurvives(s, c, a);
    UsedSurvives(s, c, a);
  }

  lemma AvailSurvives(s: System, c: C.Channel, a: C.Action)
    requires Same(s, c) && Rings(s.mem, c) && |c.avail| < RING_SIZE
    requires !c.pc.Counted? ==> Slot(s.drv.rxAvailIdx) == (c.taken + |c.avail|) % RING_SIZE
    ensures Shows(Next(s, a).mem.availRing, c.taken, c.avail)
  {
    ShowsPrefix(s.mem.availRing, c.taken, c.avail, Reserved(c.pc));
    if a.DriverStep? && c.pc.SlotFree? {
      ShowsUnread(s.mem.availRing, c.taken, c.avail, c.pc.id);
    }
  }

  lemma UsedSurvives(s: System, c: C.Channel, a: C.Action)
    requires Same(s, c) && Rings(s.mem, c) && |c.used| + |c.sealed| < RING_SIZE
    requires Slot(U16(s.mem.usedIdx + |s.dev.sealed|)) == (c.consumed + |c.used| + |c.sealed|) % RING_SIZE
    ensures Shows(Next(s, a).mem.usedRing, c.consumed, Elems(c.used) + SealedElems(c))
  {
    if a.DevComplete? && a.id in c.held {
      ShowsUnread(s.mem.usedRing, c.consumed, Elems(c.used) + SealedElems(c), UsedElem(a.id, |c.held[a.id]|));
    }
  }

  lemma ShowsPrefix<T>(ring: seq<T>, from: nat, q: seq<T>, more: seq<T>)
    requires |ring| == RING_SIZE && Shows(ring, from, q + more)
    ensures Shows(ring, from, q)
  {
    assert forall k :: 0 <= k < |q| ==> (q + more)[k] == q[k];
  }

  lemma CountersFourApart(s: System, c: C.Channel)
    requires Indices(s, c) && c.pc == C.Idle
    requires c.taken + |c.avail| == c.consumed + C.QUEUE_SIZE
    ensures U16(s.drv.rxAvailIdx - s.drv.rxLastUsed) == C.QUEUE_SIZE
  {
    WrappedDistance(c.taken + |c.avail|, c.consumed);
  }

  /** In every reachable state each of the four buffers is in exactly one place, as read off the
      rings themselves, and between calls the driver's two counters are four apart. */
  lemma BuffersHaveOneOwner(buffers: seq<Buffer>, actions: seq<C.Action>)
    requires |buffers| == C.QUEUE_SIZE
    ensures var s, c := Run(Init(buffers), actions), C.Run(C.Init(), actions);
      && Indices(s, c)
      && Shows(s.mem.availRing, c.taken, c.avail)
      && Shows(s.mem.usedRing, c.consumed, Elems(c.used))
      && C.Places(c.avail, s.dev.held.Keys, C.Ids(c.used), C.DriverIds(s.drv.pc))
      && (s.drv.pc == C.Idle ==> U16(s.drv.rxAvailIdx - s.drv.rxLastUsed) == C.QUEUE_SIZE)
  {
    RunRefines(buffers, actions);
    OwnersRead(Run(Init(buffers), actions), C.Run(C.Init(), actions));
  }

  lemma OwnersRead(s: System, c: C.Channel)
    requires Refines(s, c) && C.Inv(c)
    ensures Shows(s.mem.availRing, c.taken, c.avail) && Shows(s.mem.usedRing, c.consumed, Elems(c.used))
    ensures C.Places(c.avail, s.dev.held.Keys, C.Ids(c.used), C.DriverIds(s.drv.pc))
    ensures s.drv.pc == C.Idle ==> U16(s.drv.rxAvailIdx - s.drv.rxLastUsed) == C.QUEUE_SIZE
  {
    ShowsPrefix(s.mem.availRing, c.taken, c.avail, Reserved(c.pc));
    ShowsPrefix(s.mem.usedRing, c.consumed, Elems(c.used), SealedElems(c));
    C.Apart(c);
    if s.drv.pc == C.Idle {
      CountersFourApart(s, c);
    }
  }

  /** In every reachable state the frames returned by `wifi_recv` are the completed frames longer
      than the header, in completion order, once each, without the header, cut to the caller's limit
      and with the bytes the device wrote. Only completions after the answered ones are missing. */
  lemma FramesDelivered(buffers: seq<Buffer>, actions: seq<C.Action>)
    requires |buffers| == C.QUEUE_SIZE
    ensures var s := Run(Init(buffers), actions);
      var n := |s.log.maxLens| - |C.DriverIds(s.drv.pc)|;
      && 0 <= n <= |s.log.completed|
      && s.log.returned == C.Deliver(s.log.completed[..n], s.log.maxLens[..n])
  {
    RunRefines(buffers, actions);
  }

  // ---------------------------------------------------------------- reachable states

  ghost predicate Reachable(buffers: seq<Buffer>, s: System)
    requires |buffers| == C.QUEUE_SIZE
  {
    exists actions :: Run(Init(buffers), actions) == s
  }

  lemma InitReachable(buffers: seq<Buffer>)
    requires |buffers| == C.QUEUE_SIZE
    ensures Reachable(buffers, Init(buffers))
  {
    assert Run(Init(buffers), []) == Init(buffers);
  }

  lemma StepReachable(buffers: seq<Buffer>, s: System, a: C.Action)
    requires |buffers| == C.QUEUE_SIZE && Reachable(buffers, s)
    ensures Reachable(buffers, Next(s, a))
  {
    var actions :| Run(Init(buffers), actions) == s;
    assert (actions + [a])[..|actions|] == actions;
    assert Run(Init(buffers), actions + [a]) == Next(s, a);
  }

  lemma CopyStaysInside(buffers: seq<Buffer>, s: System)
    requires |buffers| == C.QUEUE_SIZE && Reachable(buffers, s) && s.drv.pc.Copying?
    ensures s.drv.pc.id < C.QUEUE_SIZE && C.NET_HDR + s.drv.pc.pktLen <= C.PKT_BUF_SIZE
  {
    var actions :| Run(Init(buffers), actions) == s;
    RunRefines(buffers, actions);
    var c := C.Run(C.Init(), actions);
    C.Apart(c);
    assert c.pc.id in C.DriverIds(c.pc);
  }
}

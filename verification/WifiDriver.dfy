/** `wifi_recv` as code, with the device free to run between any two of its accesses to shared
    memory. Each access is a method of its own. */
module WifiDriver {
  import opened Machine
  import C = ReceiveChannel
  import opened VirtioRx

  predicate DeviceOnly(actions: seq<C.Action>) {
    forall a :: a in actions ==> a.DevTake? || a.DevWrite? || a.DevComplete? || a.DevPublish?
  }

  function ZeroMemory(buffers: seq<Buffer>): Memory
    requires |buffers| == C.QUEUE_SIZE
  {
    Memory(seq(C.QUEUE_SIZE, _ => Descriptor(0, 0, 0, 0)), 0, seq(RING_SIZE, _ => 0),
           0, seq(RING_SIZE, _ => UsedElem(0, 0)), buffers)
  }

  /** Queue memory with the first `n` buffers set up. */
  ghost function SetUp(buffers: seq<Buffer>, n: nat): Memory
    requires |buffers| == C.QUEUE_SIZE
  {
    Memory(seq(C.QUEUE_SIZE, (i: nat) => if i < n then RxDescriptor(i) else Descriptor(0, 0, 0, 0)),
           0, seq(RING_SIZE, (i: nat) => if i < n then i else 0),
           0, seq(RING_SIZE, _ => UsedElem(0, 0)), buffers)
  }

  lemma SetUpNext(buffers: seq<Buffer>, n: nat)
    requires |buffers| == C.QUEUE_SIZE && n < C.QUEUE_SIZE
    ensures ZeroMemory(buffers) == SetUp(buffers, 0)
    ensures var m := SetUp(buffers, n);
      SetUp(buffers, n + 1) == m.(desc := m.desc[n := RxDescriptor(n)], availRing := m.availRing[n := n])
  {
    var m, r := SetUp(buffers, n), SetUp(buffers, n + 1);
    assert r.desc == m.desc[n := RxDescriptor(n)] && r.availRing == m.availRing[n := n];
    assert ZeroMemory(buffers).desc == SetUp(buffers, 0).desc;
    assert ZeroMemory(buffers).availRing == SetUp(buffers, 0).availRing;
  }

  lemma SetUpDone(buffers: seq<Buffer>)
    requires |buffers| == C.QUEUE_SIZE
    ensures SetUp(buffers, C.QUEUE_SIZE).(availIdx := C.QUEUE_SIZE) == InitialMemory(buffers)
  {
    var m, r := SetUp(buffers, C.QUEUE_SIZE), InitialMemory(buffers);
    assert m.desc == r.desc && m.availRing == r.availRing;
  }

  /** What a call of `wifi_recv` in state `s` comes to, when `first` is what the device does before the
      used index is read: with a completion waiting then, that one is answered, with its bytes past the
      header cut to the limit; with none, nothing is. */
  ghost predicate Received(s: System, first: seq<C.Action>, maxLen: nat, log: C.Log, data: Frame) {
    var k := |s.log.maxLens|;
    && s.log.completed <= log.completed
    && if k < |Run(s, first).log.completed| then
         && log.maxLens == s.log.maxLens + [maxLen] && k < |log.completed|
         && C.Outcome(data) == C.DeliverOne(log.completed[k], maxLen)
         && log.returned == s.log.returned + C.DeliverOne(log.completed[k], maxLen)
       else
         log.maxLens == s.log.maxLens && log.returned == s.log.returned && data == []
  }

  /** The device does not see the call being made. */
  lemma {:induction false} CallUnseen(s: System, maxLen: nat, actions: seq<C.Action>)
    requires s.drv.pc == C.Idle && maxLen > 0 && DeviceOnly(actions)
    ensures var r, e := Run(s, actions), Run(Next(s, C.Call(maxLen)), actions);
      r.mem == e.mem && r.dev == e.dev && r.log == e.log
  {
    if actions != [] {
      var n := |actions| - 1;
      assert actions[n] in actions;
      CallUnseen(s, maxLen, actions[..n]);
    }
  }

  /** The used index tells how many completions are not yet answered. */
  lemma WaitingCounted(boot: seq<Buffer>, s: System)
    requires |boot| == C.QUEUE_SIZE && Reachable(boot, s) && s.drv.pc.Entered?
    ensures U16(s.mem.usedIdx - s.drv.rxLastUsed) == |s.log.completed| - |s.log.maxLens|
  {
    var actions :| Run(Init(boot), actions) == s;
    RunRefines(boot, actions);
    var c := C.Run(C.Init(), actions);
    C.Apart(c);
    IndicesExact(s, c);
  }

  /** The device names only buffers that it was given. */
  lemma UsedIdInRange(boot: seq<Buffer>, s: System)
    requires |boot| == C.QUEUE_SIZE && Reachable(boot, s) && s.drv.pc.HaveElem?
    ensures s.drv.pc.id < C.QUEUE_SIZE
  {
    var actions :| Run(Init(boot), actions) == s;
    RunRefines(boot, actions);
    var c := C.Run(C.Init(), actions);
    C.Apart(c);
    assert c.used[0] in c.used;
  }

  lemma SuffixIs(a: seq<Frame>, b: seq<Frame>, c: seq<Frame>)
    requires a + b == a + c
    ensures b == c
  {
    assert b == (a + b)[|a|..] && c == (a + c)[|a|..];
  }

  lemma DeliveredBetweenCalls(boot: seq<Buffer>, s: System)
    requires |boot| == C.QUEUE_SIZE && Reachable(boot, s) && s.drv.pc == C.Idle
    ensures var k := |s.log.maxLens|;
      && k <= |s.log.completed|
      && s.log.returned == C.Deliver(s.log.completed[..k], s.log.maxLens)
  {
    var actions :| Run(Init(boot), actions) == s;
    FramesDelivered(boot, actions);
    assert s.log.maxLens[..|s.log.maxLens|] == s.log.maxLens;
  }

  /** What one more answered call handed over is the completion next in line. */
  lemma LastDelivered(boot: seq<Buffer>, s: System, r: System, maxLen: nat, data: Frame)
    requires |boot| == C.QUEUE_SIZE && Reachable(boot, s) && Reachable(boot, r)
    requires s.drv.pc == C.Idle && r.drv.pc == C.Idle && s.log.completed <= r.log.completed
    requires r.log.returned == s.log.returned + C.Outcome(data)
    ensures r.log.maxLens == s.log.maxLens + [maxLen] ==>
      var k := |s.log.maxLens|;
      k < |r.log.completed| && C.Outcome(data) == C.DeliverOne(r.log.completed[k], maxLen)
  {
    var k := |s.log.maxLens|;
    DeliveredBetweenCalls(boot, s);
    DeliveredBetweenCalls(boot, r);
    if r.log.maxLens == s.log.maxLens + [maxLen] {
      C.DeliverSnoc(r.log.completed, r.log.maxLens, k);
      assert r.log.maxLens[..k] == s.log.maxLens && r.log.maxLens[..k + 1] == r.log.maxLens;
      assert r.log.completed[..k] == s.log.completed[..k];
      SuffixIs(s.log.returned, C.Outcome(data), C.DeliverOne(r.log.completed[k], maxLen));
    }
  }

  class Nic {
    var initialized: bool      // set when bring-up is complete
    var mem: Memory            // queue memory and packet buffers, shared with the device
    var dev: Device            // the device's own state
    var rxLastUsed: nat
    var rxAvailIdx: nat

    ghost var pc: C.Pc
    ghost var log: C.Log
    ghost const boot: seq<Buffer>

    ghost function Sys(): System
      reads this
    {
      System(mem, Driver(rxLastUsed, rxAvailIdx, pc), dev, log)
    }

    /** The state is one that the interleaved machine reaches. */
    ghost predicate Valid()
      reads this
    {
      |boot| == C.QUEUE_SIZE && Reachable(boot, Sys())
    }

    /** The receive-queue part of `wifi_driver_init`, on zeroed queue memory. All four buffers are on offer,
        each described by the descriptor of its number, nothing is used, and the queue is ready to receive. */
    constructor (buffers: seq<Buffer>)
      requires |buffers| == C.QUEUE_SIZE
      ensures Valid() && pc == C.Idle && log == C.Log([], [], []) && !initialized
      ensures forall i :: 0 <= i < C.QUEUE_SIZE ==>
        mem.desc[i] == Descriptor(i, C.PKT_BUF_SIZE, DESC_F_WRITE, 0) && mem.availRing[i] == i
      ensures mem.availIdx == rxAvailIdx == C.QUEUE_SIZE && mem.usedIdx == rxLastUsed == 0
      ensures mem.buffers == buffers && dev.held == map[]
    {
      mem := ZeroMemory(buffers);
      rxAvailIdx, rxLastUsed, initialized := 0, 0, false;
      dev := Device(0, map[], []);
      pc, log, boot := C.Idle, C.Log([], [], []), buffers;
      new;
      var i := 0;
      while i < C.QUEUE_SIZE
        invariant 0 <= i <= C.QUEUE_SIZE
        invariant mem == SetUp(buffers, i)
        invariant rxLastUsed == 0 && dev == Device(0, map[], []) && pc == C.Idle && log == C.Log([], [], [])
        invariant !initialized
      {
        SetUpNext(buffers, i);
        mem := mem.(desc := mem.desc[i := Descriptor(i, C.PKT_BUF_SIZE, DESC_F_WRITE, 0)]);
        mem := mem.(availRing := mem.availRing[i := i]);
        i := i + 1;
      }
      mem := mem.(availIdx := C.QUEUE_SIZE);
      rxAvailIdx, rxLastUsed := C.QUEUE_SIZE, 0;
      SetUpDone(buffers);
      InitReachable(buffers);
    }

    /** The device takes any number of steps. */
    method DeviceRuns(actions: seq<C.Action>)
      requires Valid() && DeviceOnly(actions)
      modifies this`mem, this`dev, this`log
      ensures Valid() && Sys() == Run(old(Sys()), actions)
      ensures log.maxLens == old(log.maxLens) && log.returned == old(log.returned)
      ensures old(log.completed) <= log.completed
    {
      for i := 0 to |actions|
        invariant Valid() && Sys() == Run(old(Sys()), actions[..i])
        invariant log.maxLens == old(log.maxLens) && log.returned == old(log.returned)
        invariant old(log.completed) <= log.completed
      {
        assert actions[i] in actions && actions[..i + 1][..i] == actions[..i];
        StepReachable(boot, Sys(), actions[i]);
        log := log.(completed := log.completed + Published(dev, actions[i]));
        var (m, d) := DeviceStep(mem, dev, actions[i]);
        mem, dev := m, d;
      }
      assert actions[..|actions|] == actions;
    }

    method Enter(maxLen: nat)
      requires Valid() && pc == C.Idle && maxLen > 0
      modifies this`pc
      ensures Valid() && Sys() == Next(old(Sys()), C.Call(maxLen))
    {
      StepReachable(boot, Sys(), C.Call(maxLen));
      pc := C.Entered(maxLen);
    }

    method CheckUsedIdx() returns (any: bool)
      requires Valid() && pc.Entered?
      modifies this`pc
      ensures Valid() && pc == if any then C.Pending(old(pc).maxLen) else C.Idle
      ensures any <==> |log.maxLens| < |log.completed|
    {
      WaitingCounted(boot, Sys());
      StepReachable(boot, Sys(), C.DriverStep);
      any := U16(mem.usedIdx - rxLastUsed) != 0;
      pc := if any then C.Pending(pc.maxLen) else C.Idle;
    }

    method ReadUsedId() returns (id: nat)
      requires Valid() && pc.Pending?
      modifies this`pc
      ensures Valid() && pc == C.HaveId(old(pc).maxLen, id)
    {
      StepReachable(boot, Sys(), C.DriverStep);
      id := mem.usedRing[Slot(rxLastUsed)].id;
      pc := C.HaveId(pc.maxLen, id);
    }

    method ReadUsedLen() returns (len: nat)
      requires Valid() && pc.HaveId?
      modifies this`pc
      ensures Valid() && pc == C.HaveElem(old(pc).maxLen, old(pc).id, len)
    {
      StepReachable(boot, Sys(), C.DriverStep);
      len := mem.usedRing[Slot(rxLastUsed)].len;
      pc := C.HaveElem(pc.maxLen, pc.id, len);
    }

    method BumpLastUsed(maxLen: nat, id: nat, len: nat)
      requires Valid() && pc == C.HaveElem(maxLen, id, len)
      modifies this`pc, this`rxLastUsed, this`log
      ensures Valid() && rxLastUsed == U16(old(rxLastUsed) + 1)
      ensures pc == if id >= C.QUEUE_SIZE then C.Idle else C.Consumed(maxLen, id, len)
      ensures log == if id >= C.QUEUE_SIZE then old(log)
                     else old(log).(maxLens := old(log).maxLens + [maxLen])
    {
      StepReachable(boot, Sys(), C.DriverStep);
      rxLastUsed := U16(rxLastUsed + 1);
      if id >= C.QUEUE_SIZE {
        pc := C.Idle;
      } else {
        pc, log := C.Consumed(maxLen, id, len), log.(maxLens := log.maxLens + [maxLen]);
      }
    }

    method ResetDescriptor(maxLen: nat, id: nat, len: nat) returns (pktLen: nat)
      requires Valid() && pc == C.Consumed(maxLen, id, len) && id < C.QUEUE_SIZE
      modifies this`pc, this`mem
      ensures Valid()
      ensures pktLen == if len <= C.NET_HDR then 0 else Min(len - C.NET_HDR, maxLen)
      ensures pc == if len <= C.NET_HDR then C.SlotFree(id, []) else C.Copying(id, pktLen, [])
    {
      StepReachable(boot, Sys(), C.DriverStep);
      mem := mem.(desc := mem.desc[id := RxDescriptor(id)]);
      if len <= C.NET_HDR {
        pktLen := 0;
        pc := C.SlotFree(id, []);
      } else {
        pktLen := Min(len - C.NET_HDR, maxLen);
        pc := C.Copying(id, pktLen, []);
      }
    }

    method ReadByte(id: nat, pktLen: nat, i: nat) returns (b: byte)
      requires Valid() && pc.Copying? && pc.id == id && pc.pktLen == pktLen && |pc.data| == i < pktLen
      modifies this`pc
      ensures Valid() && pc == C.Copying(id, pktLen, old(pc).data + [b])
    {
      CopyStaysInside(boot, Sys());
      StepReachable(boot, Sys(), C.DriverStep);
      b := mem.buffers[id][C.NET_HDR + i];
      pc := C.Copying(id, pktLen, pc.data + [b]);
    }

    /** The copy loop: the device may run before every byte. */
    method CopyOut(data: array<byte>, id: nat, pktLen: nat, device: nat -> seq<C.Action>)
      requires Valid() && pc == C.Copying(id, pktLen, []) && pktLen <= data.Length
      requires forall k :: DeviceOnly(device(k))
      modifies this`mem, this`dev, this`log, this`pc, data
      ensures Valid() && pc == C.SlotFree(id, data[..pktLen])
      ensures log.maxLens == old(log.maxLens) && log.returned == old(log.returned)
      ensures old(log.completed) <= log.completed
      ensures forall i :: pktLen <= i < data.Length ==> data[i] == old(data[i])
    {
      for i := 0 to pktLen
        invariant Valid() && pc == C.Copying(id, pktLen, data[..i])
        invariant log.maxLens == old(log.maxLens) && log.returned == old(log.returned)
        invariant old(log.completed) <= log.completed
        invariant forall j :: i <= j < data.Length ==> data[j] == old(data[j])
      {
        DeviceRuns(device(5 + i));
        data[i] := ReadByte(id, pktLen, i);
        assert data[..i + 1] == data[..i] + [data[i]];
      }
      StepReachable(boot, Sys(), C.DriverStep);
      pc := C.SlotFree(id, data[..pktLen]);
    }

    method WriteSlot(id: nat, ghost data: Frame)
      requires Valid() && pc == C.SlotFree(id, data)
      modifies this`pc, this`mem
      ensures Valid() && pc == C.SlotWritten(id, data)
    {
      StepReachable(boot, Sys(), C.DriverStep);
      mem := mem.(availRing := mem.availRing[Slot(rxAvailIdx) := id]);
      pc := C.SlotWritten(id, data);
    }

    method BumpAvailIdx(ghost id: nat, ghost data: Frame)
      requires Valid() && pc == C.SlotWritten(id, data)
      modifies this`pc, this`rxAvailIdx
      ensures Valid() && pc == C.Counted(id, data)
    {
      StepReachable(boot, Sys(), C.DriverStep);
      rxAvailIdx := U16(rxAvailIdx + 1);
      pc := C.Counted(id, data);
    }

    method PublishAvailIdx(ghost id: nat, ghost data: Frame)
      requires Valid() && pc == C.Counted(id, data)
      modifies this`pc, this`mem, this`log
      ensures Valid() && pc == C.Idle
      ensures log == old(log).(returned := old(log).returned + C.Outcome(data))
    {
      StepReachable(boot, Sys(), C.DriverStep);
      mem := mem.(availIdx := rxAvailIdx);
      pc, log := C.Idle, log.(returned := log.returned + C.Outcome(data));
    }

    /** Consumes the next used element. A descriptor number out of range stands for "none". */
    method TakeUsed(maxLen: nat, device: nat -> seq<C.Action>) returns (id: nat, len: nat)
      requires Valid() && pc == C.Entered(maxLen)
      requires forall k :: DeviceOnly(device(k))
      modifies this`mem, this`dev, this`rxLastUsed, this`rxAvailIdx, this`pc, this`log
      ensures Valid() && log.returned == old(log.returned) && old(log.completed) <= log.completed
      ensures id < C.QUEUE_SIZE <==> |old(log.maxLens)| < |Run(old(Sys()), device(0)).log.completed|
      ensures if id >= C.QUEUE_SIZE then pc == C.Idle && log.maxLens == old(log.maxLens)
              else pc == C.Consumed(maxLen, id, len) && log.maxLens == old(log.maxLens) + [maxLen]
    {
      DeviceRuns(device(0));
      var any := CheckUsedIdx();
      if !any {
        return C.QUEUE_SIZE, 0;
      }
      DeviceRuns(device(1));
      id := ReadUsedId();
      DeviceRuns(device(2));
      len := ReadUsedLen();
      DeviceRuns(device(3));
      UsedIdInRange(boot, Sys());
      BumpLastUsed(maxLen, id, len);
    }

    /** Puts the buffer back on offer. */
    method Requeue(id: nat, ghost data: Frame, k: nat, device: nat -> seq<C.Action>)
      requires Valid() && pc == C.SlotFree(id, data)
      requires forall k :: DeviceOnly(device(k))
      modifies this`mem, this`dev, this`rxLastUsed, this`rxAvailIdx, this`pc, this`log
      ensures Valid() && pc == C.Idle
      ensures log.maxLens == old(log.maxLens) && log.returned == old(log.returned) + C.Outcome(data)
      ensures old(log.completed) <= log.completed
    {
      DeviceRuns(device(k));
      WriteSlot(id, data);
      DeviceRuns(device(k + 1));
      BumpAvailIdx(id, data);
      DeviceRuns(device(k + 2));
      PublishAvailIdx(id, data);
    }

    /** Receives one frame into `data`; 0 when there is none. `device(k)` is what the device does
        before the driver's k-th access to shared memory. A frame that is published when the used index is
        looked at is taken, and what is handed over is that frame; only when none is does the call leave
        the queue as it was. */
    method WifiRecv(data: array?<byte>, maxLen: nat, device: nat -> seq<C.Action>) returns (n: nat)
      requires Valid() && pc == C.Idle && (data != null ==> maxLen <= data.Length)
      requires forall k :: DeviceOnly(device(k))
      modifies this`mem, this`dev, this`rxLastUsed, this`rxAvailIdx, this`pc, this`log, data
      ensures Valid() && pc == C.Idle && n <= maxLen
      ensures !initialized || data == null || maxLen == 0 ==> n == 0 && Sys() == old(Sys())
      ensures initialized && data != null && maxLen > 0 ==>
        Received(old(Sys()), device(0), maxLen, log, data[..n])
      ensures data != null ==> forall i :: n <= i < data.Length ==> data[i] == old(data[i])
    {
      if !initialized || data == null || maxLen == 0 {
        return 0;
      }
      Enter(maxLen);
      CallUnseen(old(Sys()), maxLen, device(0));
      n := ReceiveNext(data, maxLen, device);
      LastDelivered(boot, old(Sys()), Sys(), maxLen, data[..n]);
    }

    method ReceiveNext(data: array<byte>, maxLen: nat, device: nat -> seq<C.Action>) returns (n: nat)
      requires Valid() && pc == C.Entered(maxLen) && 0 < maxLen <= data.Length
      requires forall k :: DeviceOnly(device(k))
      modifies this`mem, this`dev, this`rxLastUsed, this`rxAvailIdx, this`pc, this`log, data
      ensures Valid() && pc == C.Idle && old(log.completed) <= log.completed
      ensures n <= maxLen && log.returned == old(log.returned) + C.Outcome(data[..n])
      ensures if |old(log.maxLens)| < |Run(old(Sys()), device(0)).log.completed|
              then log.maxLens == old(log.maxLens) + [maxLen] else log.maxLens == old(log.maxLens) && n == 0
      ensures forall i :: n <= i < data.Length ==> data[i] == old(data[i])
    {
      n := 0;
      var descIdx, totalLen := TakeUsed(maxLen, device);
      if descIdx >= C.QUEUE_SIZE {
        return;
      }
      DeviceRuns(device(4));
      n := ResetDescriptor(maxLen, descIdx, totalLen);
      if totalLen > C.NET_HDR {
        CopyOut(data, descIdx, n, device);
      }
      Requeue(descIdx, data[..n], n + 5, device);
    }
  }
}

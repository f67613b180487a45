/** The receive queue as it is meant to be read: unbounded FIFO queues of buffer numbers, and frames
    that travel as values. `VirtioRx` shows that the driver's rings, 16-bit indices and shared
    buffers behave exactly like this machine. */
module ReceiveChannel {
  import opened Machine

  const QUEUE_SIZE := 4        // buffers the driver puts on the queue
  const PKT_BUF_SIZE := 2048
  const NET_HDR := 10          // sizeof(virtio_net_hdr_t)

  type Frame = seq<byte>

  datatype Completion = Completion(id: nat, frame: Frame)

  /** The point `wifi_recv` has reached, with the local variables that are live there. */
  datatype Pc =
    | Idle
    | Entered(maxLen: nat)
    | Pending(maxLen: nat)
    | HaveId(maxLen: nat, id: nat)
    | HaveElem(maxLen: nat, id: nat, len: nat)
    | Consumed(maxLen: nat, id: nat, len: nat)
    | Copying(id: nat, pktLen: nat, data: Frame)
    | SlotFree(id: nat, data: Frame)
    | SlotWritten(id: nat, data: Frame)
    | Counted(id: nat, data: Frame)

  datatype Action =
    | Call(maxLen: nat)
    | DriverStep
    | DevTake
    | DevWrite(id: nat, b: byte)
    | DevComplete(id: nat)
    | DevPublish(n: nat)

  /** What the two ends have seen: the frames the device completed, the size limit each was read
      with, and the frames handed to callers. */
  datatype Log = Log(completed: seq<Frame>, maxLens: seq<nat>, returned: seq<Frame>)

  /** `avail`: buffers on offer. `held`: buffers at the device, with the bytes written so far.
      `sealed`: the held buffers whose used elements are written but not yet published, oldest first.
      `used`: completions not yet consumed. `frame`: the completion the driver is working on. */
  datatype Channel = Channel(
    avail: seq<nat>, taken: nat,
    held: map<nat, Frame>, sealed: seq<nat>,
    used: seq<Completion>, consumed: nat,
    pc: Pc, frame: Frame,
    log: Log)

  function Init(): Channel {
    Channel([0, 1, 2, 3], 0, map[], [], [], 0, Idle, [], Log([], [], []))
  }

  function DriverNext(c: Channel): Channel {
    match c.pc
    case Idle => c
    case Entered(maxLen) =>
      c.(pc := if c.used == [] then Idle else Pending(maxLen))
    case Pending(maxLen) =>
      if c.used == [] then c else c.(pc := HaveId(maxLen, c.used[0].id))
    case HaveId(maxLen, id) =>
      if c.used == [] then c else c.(pc := HaveElem(maxLen, id, |c.used[0].frame|))
    case HaveElem(maxLen, id, len) =>
      if c.used == [] then c else
      c.(used := c.used[1..], consumed := c.consumed + 1, frame := c.used[0].frame,
         pc := Consumed(maxLen, id, len), log := c.log.(maxLens := c.log.maxLens + [maxLen]))
    case Counted(id, data) =>
      c.(avail := c.avail + [id], pc := Idle,
         log := c.log.(returned := c.log.returned + Outcome(data)))
    case _ => c.(pc := Work(c.pc, c.frame))
  }

  /** The steps between taking a completion and offering its buffer again. */
  function Work(pc: Pc, frame: Frame): Pc {
    match pc
    case Consumed(maxLen, id, len) =>
      if len <= NET_HDR then SlotFree(id, []) else Copying(id, Min(len - NET_HDR, maxLen), [])
    case Copying(id, pktLen, data) =>
      if |data| < pktLen && NET_HDR + |data| < |frame| then
        Copying(id, pktLen, data + [frame[NET_HDR + |data|]])
      else
        SlotFree(id, data)
    case SlotFree(id, data) => SlotWritten(id, data)
    case SlotWritten(id, data) => Counted(id, data)
    case _ => pc
  }

  /** What `wifi_recv` hands over: nothing when it returns 0. */
  function Outcome(data: Frame): seq<Frame> {
    if data == [] then [] else [data]
  }

  /** One step. An action that is not enabled changes nothing. */
  function Next(c: Channel, a: Action): Channel {
    match a
    case Call(maxLen) => if c.pc == Idle && maxLen > 0 then c.(pc := Entered(maxLen)) else c
    case DriverStep => DriverNext(c)
    case DevTake =>
      if c.avail == [] then c
      else c.(avail := c.avail[1..], taken := c.taken + 1, held := c.held[c.avail[0] := []])
    case DevWrite(id, b) =>
      if id in c.held && id !in c.sealed && |c.held[id]| < PKT_BUF_SIZE
      then c.(held := c.held[id := c.held[id] + [b]]) else c
    case DevComplete(id) =>
      if id in c.held && id !in c.sealed then c.(sealed := c.sealed + [id]) else c
    case DevPublish(n) => Publish(c, n)
  }

  /** The oldest sealed buffer joins the used ones. */
  function PublishOne(c: Channel): Channel {
    if c.sealed == [] || c.sealed[0] !in c.held then c else
    var id := c.sealed[0];
    c.(held := c.held - {id}, sealed := c.sealed[1..], used := c.used + [Completion(id, c.held[id])],
       log := c.log.(completed := c.log.completed + [c.held[id]]))
  }

  /** One update of the used index publishes the `n` oldest sealed buffers, or all if there are fewer. */
  function Publish(c: Channel, n: nat): Channel
    decreases n
  {
    if n == 0 then c else Publish(PublishOne(c), n - 1)
  }

  function Run(c: Channel, actions: seq<Action>): Channel {
    if actions == [] then c
    else Next(Run(c, actions[..|actions| - 1]), actions[|actions| - 1])
  }

  // ---------------------------------------------------------------- ownership

  predicate Owning(pc: Pc) {
    pc.Consumed? || pc.Copying? || pc.SlotFree? || pc.SlotWritten? || pc.Counted?
  }

  /** The buffer that the driver is working on, if any. */
  function DriverIds(pc: Pc): seq<nat> {
    if Owning(pc) then [pc.id] else []
  }

  function Ids(used: seq<Completion>): (r: seq<nat>)
    ensures |r| == |used|
  {
    seq(|used|, i requires 0 <= i < |used| => used[i].id)
  }

  function Frames(used: seq<Completion>): (r: seq<Frame>)
    ensures |r| == |used|
  {
    seq(|used|, i requires 0 <= i < |used| => used[i].frame)
  }

  /** How many times buffer `id` occurs on offer, at the device, used but unconsumed, and in the
      driver's hands. */
  function Copies(id: nat, avail: seq<nat>, held: set<nat>, used: seq<nat>, driver: seq<nat>): nat {
    multiset(avail)[id] + (if id in held then 1 else 0) + multiset(used)[id] + multiset(driver)[id]
  }

  /** Every one of the four buffers is in exactly one of the four places, once, and nothing else is
      in any of them. */
  ghost predicate Places(avail: seq<nat>, held: set<nat>, used: seq<nat>, driver: seq<nat>) {
    forall id: nat {:trigger Copies(id, avail, held, used, driver)} ::
      Copies(id, avail, held, used, driver) == if id < QUEUE_SIZE then 1 else 0
  }

  lemma TakeMoves(avail: seq<nat>, held: set<nat>, used: seq<nat>, driver: seq<nat>)
    requires Places(avail, held, used, driver) && avail != []
    ensures avail[0] < QUEUE_SIZE && avail[0] !in held
    ensures Places(avail[1..], held + {avail[0]}, used, driver)
  {
    assert avail == [avail[0]] + avail[1..];
    assert multiset(avail) == multiset{avail[0]} + multiset(avail[1..]);
    assert Copies(avail[0], avail, held, used, driver) >= 1;
    forall id: nat
      ensures Copies(id, avail[1..], held + {avail[0]}, used, driver) == Copies(id, avail, held, used, driver)
    {
    }
  }

  lemma PublishMoves(id: nat, avail: seq<nat>, held: set<nat>, used: seq<nat>, driver: seq<nat>)
    requires Places(avail, held, used, driver) && id in held
    ensures Places(avail, held - {id}, used + [id], driver)
  {
    forall x: nat
      ensures Copies(x, avail, held - {id}, used + [id], driver) == Copies(x, avail, held, used, driver)
    {
      assert multiset(used + [id]) == multiset(used) + multiset{id};
    }
  }

  lemma ConsumeMoves(avail: seq<nat>, held: set<nat>, used: seq<nat>)
    requires Places(avail, held, used, []) && used != []
    ensures Places(avail, held, used[1..], [used[0]])
  {
    assert used == [used[0]] + used[1..];
    forall id: nat
      ensures Copies(id, avail, held, used[1..], [used[0]]) == Copies(id, avail, held, used, [])
    {
    }
  }

  lemma RequeueMoves(id: nat, avail: seq<nat>, held: set<nat>, used: seq<nat>)
    requires Places(avail, held, used, [id])
    ensures Places(avail + [id], held, used, [])
  {
    forall x: nat
      ensures Copies(x, avail + [id], held, used, []) == Copies(x, avail, held, used, [id])
    {
    }
  }

  /** What sharing no buffer comes to, place by place. */
  lemma PlacesApart(avail: seq<nat>, held: set<nat>, used: seq<nat>, driver: seq<nat>)
    requires Places(avail, held, used, driver)
    ensures |avail| + |held| + |used| + |driver| == QUEUE_SIZE
    ensures forall id :: id in held ==> id < QUEUE_SIZE && id !in used && id !in driver
    ensures forall id :: id in used ==> id < QUEUE_SIZE && id !in driver
    ensures forall id :: id in driver ==> id < QUEUE_SIZE
  {
    var all := multiset(avail) + multiset(held) + multiset(used) + multiset(driver);
    forall id: nat
      ensures all[id] == multiset{0, 1, 2, 3}[id]
      ensures id in held ==> id < QUEUE_SIZE && id !in used && id !in driver
      ensures id in used ==> id < QUEUE_SIZE && id !in driver
      ensures id in driver ==> id < QUEUE_SIZE
    {
      assert all[id] == Copies(id, avail, held, used, driver);
      assert id in used ==> id in multiset(used);
      assert id in driver ==> id in multiset(driver);
    }
    assert all == multiset{0, 1, 2, 3};
    assert |all| == 4;
  }

  ghost predicate Distinct(s: seq<nat>) {
    forall i, j :: 0 <= i < j < |s| ==> s[i] != s[j]
  }

  lemma {:induction false} NoMoreThan(s: seq<nat>, all: set<nat>)
    requires Distinct(s) && forall x :: x in s ==> x in all
    ensures |s| <= |all|
  {
    if s != [] {
      NoMoreThan(s[1..], all - {s[0]});
    }
  }

  ghost predicate AllHeld(ids: seq<nat>, held: map<nat, Frame>) {
    forall id :: id in ids ==> id in held
  }

  ghost predicate Ownership(c: Channel) {
    && Places(c.avail, c.held.Keys, Ids(c.used), DriverIds(c.pc))
    && Distinct(c.sealed) && AllHeld(c.sealed, c.held)
    && c.taken == |c.log.completed| + |c.held|
  }

  lemma Apart(c: Channel)
    requires Ownership(c)
    ensures |c.avail| + |c.held| + |c.used| + |DriverIds(c.pc)| == QUEUE_SIZE && |c.sealed| <= |c.held|
    ensures forall id :: id in c.held ==> id < QUEUE_SIZE && id !in DriverIds(c.pc)
    ensures forall e :: e in c.used ==> e.id < QUEUE_SIZE && e.id !in c.held && e.id !in DriverIds(c.pc)
    ensures forall id :: id in DriverIds(c.pc) ==> id < QUEUE_SIZE
    ensures c.avail != [] ==> c.avail[0] < QUEUE_SIZE && c.avail[0] !in c.held
  {
    PlacesApart(c.avail, c.held.Keys, Ids(c.used), DriverIds(c.pc));
    assert |c.held.Keys| == |c.held|;
    NoMoreThan(c.sealed, c.held.Keys);
    forall e | e in c.used
      ensures e.id in Ids(c.used)
    {
      var i :| 0 <= i < |c.used| && c.used[i] == e;
      assert Ids(c.used)[i] == e.id;
    }
    if c.avail != [] {
      TakeMoves(c.avail, c.held.Keys, Ids(c.used), DriverIds(c.pc));
    }
  }

  // ---------------------------------------------------------------- delivery

  /** The frames a caller gets for a list of completions and the size limit each was read with:
      those longer than the header, without it, cut to the limit. */
  function Deliver(completed: seq<Frame>, maxLens: seq<nat>): seq<Frame>
    requires |completed| == |maxLens|
  {
    if completed == [] then [] else
    var last := |completed| - 1;
    Deliver(completed[..last], maxLens[..last]) + DeliverOne(completed[last], maxLens[last])
  }

  function DeliverOne(frame: Frame, maxLen: nat): seq<Frame> {
    if |frame| <= NET_HDR then []
    else [frame[NET_HDR..NET_HDR + Min(|frame| - NET_HDR, maxLen)]]
  }

  /** How many completions `wifi_recv` has answered: all it consumed but the one in progress. */
  function Answered(c: Channel): int {
    c.consumed - |DriverIds(c.pc)|
  }

  ghost predicate Delivery(c: Channel) {
    && |c.log.maxLens| == c.consumed
    && |c.log.completed| == c.consumed + |c.used|
    && c.log.completed[c.consumed..] == Frames(c.used)
    && 0 <= Answered(c)
    && c.log.returned == Deliver(c.log.completed[..Answered(c)], c.log.maxLens[..Answered(c)])
  }

  /** The driver's local variables agree with the completion it is working on. */
  ghost predicate Progress(c: Channel) {
    && c.consumed <= |c.log.completed| && |c.log.maxLens| == c.consumed
    && (c.pc.Entered? ==> c.pc.maxLen > 0)
    && (c.pc.Pending? || c.pc.HaveId? || c.pc.HaveElem? ==> c.used != [] && c.pc.maxLen > 0)
    && (c.pc.HaveId? || c.pc.HaveElem? ==> c.pc.id == c.used[0].id)
    && (c.pc.HaveElem? ==> c.pc.len == |c.used[0].frame|)
    && (Owning(c.pc) ==>
          && c.consumed > 0
          && c.frame == c.log.completed[c.consumed - 1]
          && c.log.maxLens[c.consumed - 1] > 0
          && Working(c.pc, c.frame, c.log.maxLens[c.consumed - 1]))
  }

  ghost predicate Working(pc: Pc, frame: Frame, maxLen: nat) {
    match pc
    case Consumed(m, _, len) => m == maxLen && len == |frame|
    case Copying(_, pktLen, data) =>
      && |frame| > NET_HDR && pktLen == Min(|frame| - NET_HDR, maxLen)
      && |data| <= pktLen && data == frame[NET_HDR..NET_HDR + |data|]
    case SlotFree(_, data) => Outcome(data) == DeliverOne(frame, maxLen)
    case SlotWritten(_, data) => Outcome(data) == DeliverOne(frame, maxLen)
    case Counted(_, data) => Outcome(data) == DeliverOne(frame, maxLen)
    case _ => true
  }

  ghost predicate Fits(c: Channel) {
    && (forall id :: id in c.held ==> |c.held[id]| <= PKT_BUF_SIZE)
    && (forall e :: e in c.used ==> |e.frame| <= PKT_BUF_SIZE)
    && |c.frame| <= PKT_BUF_SIZE
  }

  ghost predicate Inv(c: Channel) {
    Ownership(c) && Delivery(c) && Progress(c) && Fits(c)
  }

  lemma TakeKeepsInv(c: Channel)
    requires Inv(c)
    ensures Inv(Next(c, DevTake))
  {
    if c.avail != [] {
      TakeMoves(c.avail, c.held.Keys, Ids(c.used), DriverIds(c.pc));
      assert Next(c, DevTake).held.Keys == c.held.Keys + {c.avail[0]};
    }
  }

  lemma HeldKeepsInv(c: Channel, held: map<nat, Frame>)
    requires Inv(c) && held.Keys == c.held.Keys
    requires forall id :: id in held ==> |held[id]| <= PKT_BUF_SIZE
    ensures Inv(c.(held := held))
  {
    assert |held| == |held.Keys| == |c.held|;
  }

  lemma WriteKeepsInv(c: Channel, id: nat, b: byte)
    requires Inv(c)
    ensures Inv(Next(c, DevWrite(id, b)))
  {
    if id in c.held && id !in c.sealed && |c.held[id]| < PKT_BUF_SIZE {
      var held := c.held[id := c.held[id] + [b]];
      assert held.Keys == c.held.Keys;
      HeldKeepsInv(c, held);
    }
  }

  lemma PublishOwnership(c: Channel)
    requires Ownership(c) && c.sealed != []
    ensures Ownership(PublishOne(c))
  {
    var id, r := c.sealed[0], PublishOne(c);
    assert id in c.sealed;
    PublishMoves(id, c.avail, c.held.Keys, Ids(c.used), DriverIds(c.pc));
    assert r.held.Keys == c.held.Keys - {id};
    assert Ids(r.used) == Ids(c.used) + [id];
    assert forall x :: x in r.sealed ==> x in c.sealed && x != id;
  }

  lemma PublishDelivery(c: Channel)
    requires Delivery(c) && c.sealed != [] && c.sealed[0] in c.held
    ensures Delivery(PublishOne(c))
  {
    var r := PublishOne(c);
    assert Frames(r.used) == Frames(c.used) + [c.held[c.sealed[0]]];
    assert r.log.completed[..Answered(c)] == c.log.completed[..Answered(c)];
  }

  lemma PublishProgress(c: Channel)
    requires Progress(c) && Fits(c)
    ensures Progress(PublishOne(c)) && Fits(PublishOne(c))
  {
  }

  lemma {:induction false} PublishKeepsInv(c: Channel, n: nat)
    requires Inv(c)
    ensures Inv(Publish(c, n))
    decreases n
  {
    if n > 0 {
      if c.sealed != [] {
        assert c.sealed[0] in c.sealed;
        PublishOwnership(c);
        PublishDelivery(c);
        PublishProgress(c);
      }
      PublishKeepsInv(PublishOne(c), n - 1);
    }
  }

  lemma ConsumeOwnership(c: Channel)
    requires Ownership(c) && c.pc.HaveElem? && c.used != [] && c.pc.id == c.used[0].id
    ensures Ownership(DriverNext(c))
  {
    ConsumeMoves(c.avail, c.held.Keys, Ids(c.used));
    assert Ids(DriverNext(c).used) == Ids(c.used)[1..];
  }

  lemma ConsumeDelivery(c: Channel)
    requires Delivery(c) && c.pc.HaveElem? && c.used != []
    ensures Delivery(DriverNext(c))
    ensures c.log.completed[c.consumed] == c.used[0].frame
  {
    assert Frames(DriverNext(c).used) == Frames(c.used)[1..];
    assert c.log.completed[c.consumed] == c.log.completed[c.consumed..][0];
    assert DriverNext(c).log.maxLens[..c.consumed] == c.log.maxLens[..c.consumed];
  }

  lemma ConsumeKeepsInv(c: Channel)
    requires Inv(c) && c.pc.HaveElem?
    ensures Inv(DriverNext(c))
  {
    ConsumeOwnership(c);
    ConsumeDelivery(c);
    assert Fits(DriverNext(c)) && Progress(DriverNext(c));
  }

  lemma WorkMovesOn(pc: Pc, frame: Frame, maxLen: nat)
    requires Owning(pc) && Working(pc, frame, maxLen) && maxLen > 0
    ensures Owning(Work(pc, frame)) && Work(pc, frame).id == pc.id
    ensures Working(Work(pc, frame), frame, maxLen)
  {
    if pc.Copying? {
      if |pc.data| < pc.pktLen {
        assert frame[NET_HDR..NET_HDR + |pc.data| + 1] == pc.data + [frame[NET_HDR + |pc.data|]];
      }
    }
  }

  /** A step that only moves the driver on keeps everything that does not mention its position. */
  lemma PcKeepsInv(c: Channel, pc: Pc)
    requires Inv(c) && DriverIds(pc) == DriverIds(c.pc)
    requires Progress(c.(pc := pc))
    ensures Inv(c.(pc := pc))
  {
  }

  lemma WorkProgress(c: Channel)
    requires Progress(c) && Owning(c.pc)
    ensures DriverIds(Work(c.pc, c.frame)) == DriverIds(c.pc)
    ensures Progress(c.(pc := Work(c.pc, c.frame)))
  {
    WorkMovesOn(c.pc, c.frame, c.log.maxLens[c.consumed - 1]);
  }

  lemma WorkKeepsInv(c: Channel)
    requires Inv(c) && Owning(c.pc) && !c.pc.Counted?
    ensures Inv(DriverNext(c))
  {
    WorkProgress(c);
    PcKeepsInv(c, Work(c.pc, c.frame));
  }

  lemma LookProgress(c: Channel)
    requires Progress(c) && (c.pc.Entered? || c.pc.Pending? || c.pc.HaveId?)
    ensures var pc := DriverNext(c).pc;
      && DriverNext(c) == c.(pc := pc) && !Owning(pc) && Progress(c.(pc := pc))
  {
  }

  lemma LookKeepsInv(c: Channel)
    requires Inv(c) && (c.pc.Entered? || c.pc.Pending? || c.pc.HaveId?)
    ensures Inv(DriverNext(c))
  {
    LookProgress(c);
    PcKeepsInv(c, DriverNext(c).pc);
  }

  lemma CallKeepsInv(c: Channel, maxLen: nat)
    requires Inv(c)
    ensures Inv(Next(c, Call(maxLen)))
  {
    if c.pc == Idle && maxLen > 0 {
      PcKeepsInv(c, Entered(maxLen));
    }
  }

  lemma CompleteKeepsInv(c: Channel, id: nat)
    requires Inv(c)
    ensures Inv(Next(c, DevComplete(id)))
  {
  }

  lemma RequeueOwnership(c: Channel)
    requires Ownership(c) && c.pc.Counted?
    ensures Ownership(DriverNext(c))
  {
    RequeueMoves(c.pc.id, c.avail, c.held.Keys, Ids(c.used));
  }

  lemma DeliverSnoc(completed: seq<Frame>, maxLens: seq<nat>, n: nat)
    requires n < |completed| && n < |maxLens|
    ensures Deliver(completed[..n + 1], maxLens[..n + 1])
         == Deliver(completed[..n], maxLens[..n]) + DeliverOne(completed[n], maxLens[n])
  {
    assert completed[..n + 1][..n] == completed[..n];
    assert maxLens[..n + 1][..n] == maxLens[..n];
  }

  lemma RequeueDelivery(c: Channel)
    requires Delivery(c) && Progress(c) && c.pc.Counted?
    ensures Delivery(DriverNext(c))
  {
    DeliverSnoc(c.log.completed, c.log.maxLens, c.consumed - 1);
  }

  lemma RequeueKeepsInv(c: Channel)
    requires Inv(c) && c.pc.Counted?
    ensures Inv(DriverNext(c))
  {
    RequeueOwnership(c);
    RequeueDelivery(c);
  }

  lemma StepKeepsInv(c: Channel, a: Action)
    requires Inv(c)
    ensures Inv(Next(c, a))
  {
    match a
    case DevTake => TakeKeepsInv(c);
    case DevWrite(id, b) => WriteKeepsInv(c, id, b);
    case DevPublish(n) => PublishKeepsInv(c, n);
    case DriverStep =>
      if c.pc.HaveElem? {
        ConsumeKeepsInv(c);
      } else if c.pc.Counted? {
        RequeueKeepsInv(c);
      } else if Owning(c.pc) {
        WorkKeepsInv(c);
      } else if c.pc != Idle {
        LookKeepsInv(c);
      }
    case Call(maxLen) => CallKeepsInv(c, maxLen);
    case DevComplete(id) => CompleteKeepsInv(c, id);
  }

  lemma InitPlaces()
    ensures Places([0, 1, 2, 3], {}, [], [])
  {
    forall id: nat
      ensures Copies(id, [0, 1, 2, 3], {}, [], []) == if id < QUEUE_SIZE then 1 else 0
    {
    }
  }

  lemma InitInv()
    ensures Inv(Init())
  {
    InitPlaces();
    assert Ids([]) == [] && Frames([]) == [];
  }

  lemma {:induction false} RunKeepsInv(actions: seq<Action>)
    ensures Inv(Run(Init(), actions))
  {
    if actions == [] {
      InitInv();
    } else {
      var n := |actions| - 1;
      RunKeepsInv(actions[..n]);
      StepKeepsInv(Run(Init(), actions[..n]), actions[n]);
    }
  }
}

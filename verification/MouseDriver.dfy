/** `c_mouse_read` and `mouse_poll` as code, interrupted before any instruction. */
module MouseDriver {
  import opened Machine
  import opened MouseRing

  const STEPS := 8             // instructions of `c_mouse_read` up to the store of the tail
  const QUIET: seq<seq<byte>> := [[], [], [], [], [], [], [], []]

  /** Bytes that arrive in groups. */
  function Flat(groups: seq<seq<byte>>): seq<byte> {
    if groups == [] then [] else Flat(groups[..|groups| - 1]) + groups[|groups| - 1]
  }

  lemma {:induction false} FlatGrows(groups: seq<seq<byte>>, k: nat)
    requires k <= |groups|
    ensures |Flat(groups[..k])| <= |Flat(groups)|
    decreases |groups| - k
  {
    if k == |groups| {
      assert groups[..k] == groups;
    } else {
      FlatGrows(groups, k + 1);
      assert groups[..k + 1][..k] == groups[..k];
    }
  }

  lemma FlatNext(from: seq<byte>, groups: seq<seq<byte>>, k: nat)
    requires k < |groups|
    ensures from + Flat(groups[..k + 1]) == from + Flat(groups[..k]) + groups[k]
    ensures |Flat(groups[..k])| + |groups[k]| <= |Flat(groups)|
  {
    assert groups[..k + 1][..k] == groups[..k];
    Associative(from, Flat(groups[..k]), groups[k]);
    FlatGrows(groups, k + 1);
  }

  lemma FlatQuiet()
    ensures |QUIET| == STEPS && Flat(QUIET) == [] && Flat(QUIET[..3]) == [] && Flat(QUIET[..2]) == []
  {
    NothingFlat(QUIET);
    NothingFlat(QUIET[..3]);
    NothingFlat(QUIET[..2]);
  }

  lemma {:induction false} NothingFlat(groups: seq<seq<byte>>)
    requires forall i :: 0 <= i < |groups| ==> groups[i] == []
    ensures Flat(groups) == []
  {
    if groups != [] {
      NothingFlat(groups[..|groups| - 1]);
    }
  }

  /** With one byte taken by every read, at most 255 wait however the interrupts of the reads come. */
  ghost predicate RoomForAll(backlog: int, irqs: seq<seq<seq<byte>>>)
    decreases |irqs|
  {
    if irqs == [] then backlog < RING_SIZE else
    && |irqs[0]| == STEPS && backlog + |Flat(irqs[0])| < RING_SIZE
    && RoomForAll(backlog + |Flat(irqs[0])| - 1, irqs[1..])
  }

  /** No interrupt at all. */
  predicate Silent(irq: seq<seq<byte>>) {
    |irq| == STEPS && Flat(irq) == [] && Flat(irq[..3]) == [] && Flat(irq[..2]) == []
  }

  /** The interrupts of the j-th read. */
  function Group(irqs: seq<seq<seq<byte>>>, j: nat): seq<seq<byte>> {
    if j < |irqs| then irqs[j] else QUIET
  }

  /** The bytes that arrive during the first `n` reads. */
  function Arrived(irqs: seq<seq<seq<byte>>>, n: nat): seq<byte> {
    if n == 0 then [] else Arrived(irqs, n - 1) + Flat(Group(irqs, n - 1))
  }

  /** The bytes that arrive during the first `n` reads and before instruction `k` of the next. */
  function ArrivedBefore(irqs: seq<seq<seq<byte>>>, n: nat, k: nat): seq<byte> {
    Arrived(irqs, n) + Flat(Group(irqs, n)[..Min(k, |Group(irqs, n)|)])
  }

  /** After `n` reads that each took a byte: what has been produced and consumed since a poll began. */
  ghost predicate Going(produced: seq<byte>, consumed: seq<byte>, from: seq<byte>, before: seq<byte>,
                        irqs: seq<seq<seq<byte>>>, n: nat)
  {
    before <= consumed && |consumed| == |before| + n && produced == from + Arrived(irqs, n)
  }

  /** The same when the next read found nothing: all that had arrived by its comparison is consumed. */
  ghost predicate Stopped(produced: seq<byte>, consumed: seq<byte>, from: seq<byte>, before: seq<byte>,
                          irqs: seq<seq<seq<byte>>>, n: nat)
  {
    && before <= consumed && |consumed| == |before| + n
    && consumed == from + ArrivedBefore(irqs, n, 2) && produced == from + ArrivedBefore(irqs, n, 3)
  }

  lemma ArrivedNext(from: seq<byte>, irqs: seq<seq<seq<byte>>>, n: nat)
    requires |Group(irqs, n)| == STEPS
    ensures var g := Group(irqs, n);
      && from + Arrived(irqs, n) + Flat(g[..2]) == from + ArrivedBefore(irqs, n, 2)
      && from + Arrived(irqs, n) + Flat(g[..3]) == from + ArrivedBefore(irqs, n, 3)
      && from + Arrived(irqs, n) + Flat(g) == from + Arrived(irqs, n + 1)
  {
    var g := Group(irqs, n);
    Associative(from, Arrived(irqs, n), Flat(g[..2]));
    Associative(from, Arrived(irqs, n), Flat(g[..3]));
    Associative(from, Arrived(irqs, n), Flat(g));
  }

  /** One more read, that took a byte or found none. */
  lemma GoingOn(p0: seq<byte>, c0: seq<byte>, p1: seq<byte>, c1: seq<byte>, from: seq<byte>, before: seq<byte>,
                irqs: seq<seq<seq<byte>>>, n: nat, none: bool)
    requires Going(p0, c0, from, before, irqs, n) && |Group(irqs, n)| == STEPS && c0 <= c1
    requires var g := Group(irqs, n);
      && p1 == p0 + Flat(if none then g[..3] else g) && (none <==> p0 + Flat(g[..2]) == c0)
      && if none then c1 == c0 else |p1| - |c1| == |p0| - |c0| + |Flat(g)| - 1
    ensures if none then Stopped(p1, c1, from, before, irqs, n) else Going(p1, c1, from, before, irqs, n + 1)
  {
    ArrivedNext(from, irqs, n);
  }

  lemma StoppedQuiet(produced: seq<byte>, consumed: seq<byte>, from: seq<byte>, before: seq<byte>, n: nat)
    requires Stopped(produced, consumed, from, before, [], n)
    ensures produced == from == consumed
  {
    NothingArrives(n);
  }

  lemma RoomForNext(backlog: int, irqs: seq<seq<seq<byte>>>, j: nat, irq: seq<seq<byte>>)
    requires RoomForAll(backlog, irqs[Min(j, |irqs|)..]) && irq == Group(irqs, j)
    ensures |irq| == STEPS && backlog + |Flat(irq)| < RING_SIZE
    ensures RoomForAll(backlog + |Flat(irq)| - 1, irqs[Min(j + 1, |irqs|)..])
    ensures j >= |irqs| ==> Silent(irq) && |Flat(irq)| == 0
  {
    FlatQuiet();
    if j < |irqs| {
      assert irqs[j..][1..] == irqs[j + 1..];
    } else {
      assert irqs[|irqs|..] == [];
    }
  }

  lemma {:induction false} NothingArrives(n: nat)
    ensures Arrived([], n) == [] && ArrivedBefore([], n, 2) == [] && ArrivedBefore([], n, 3) == []
  {
    FlatQuiet();
    if n > 0 {
      NothingArrives(n - 1);
    }
  }

  class Device {
    const buffer: array<byte>
    var head: nat
    var tail: nat

    var x: int
    var y: int
    var left: bool
    var right: bool
    var limitW: int
    var limitH: int
    var status: byte
    var dx: byte
    var packetIdx: nat

    ghost var pc: Pc
    ghost var produced: seq<byte>
    ghost var consumed: seq<byte>
    ghost const start: Mouse

    ghost function Decoder(): Mouse
      reads this
    {
      Mouse(x, y, left, right, limitW, limitH, status, dx, packetIdx)
    }

    ghost function Sys(): System
      reads this, buffer
    {
      System(buffer[..], head, tail, pc, Decoder(), produced, consumed)
    }

    /** How many bytes have been produced and not consumed. */
    ghost function Waiting(): int
      reads this
    {
      |produced| - |consumed|
    }

    ghost predicate Valid()
      reads this, buffer
    {
      buffer.Length == RING_SIZE && Inv(Sys(), start) && Waiting() < RING_SIZE
    }

    /** The state after start-up, with the screen's bounds and the pointer in the middle. */
    constructor (w: int, h: int)
      ensures Valid() && fresh(buffer) && pc == Outside && produced == [] && consumed == []
      ensures limitW == (if w <= 0 then 320 else w) && limitH == (if h <= 0 then 200 else h)
      ensures Inside(Decoder())
    {
      var w', h' := if w <= 0 then 320 else w, if h <= 0 then 200 else h;
      buffer := new byte[RING_SIZE](_ => 0);
      head, tail := 0, 0;
      x, y, left, right, limitW, limitH, status, dx, packetIdx := w' / 2, h' / 2, false, false, w', h', 0, 0, 0;
      pc, produced, consumed := Outside, [], [];
      start := Mouse(w' / 2, h' / 2, false, false, w', h', 0, 0, 0);
    }

    /** The mouse branch of the interrupt stub, which stores without looking whether there is room. */
    method Deliver(b: byte)
      requires Valid() && Waiting() < RING_SIZE - 1
      modifies this`head, this`produced, buffer
      ensures Valid() && produced == old(produced) + [b]
    {
      ghost var before := Sys();
      InterruptKeepsInv(before, start, b);
      buffer[head] := b;
      head := (head + 1) % RING_SIZE;
      produced := produced + [b];
      assert Sys() == Next(before, Interrupt(b));
    }

    method Interrupts(bytes: seq<byte>)
      requires Valid() && Waiting() + |bytes| < RING_SIZE
      modifies this`head, this`produced, buffer
      ensures Valid() && produced == old(produced) + bytes
    {
      for i := 0 to |bytes|
        invariant Valid() && produced == old(produced) + bytes[..i]
      {
        Deliver(bytes[i]);
        Associative(old(produced), bytes[..i], [bytes[i]]);
        assert bytes[..i + 1] == bytes[..i] + [bytes[i]];
      }
      assert bytes[..|bytes|] == bytes;
    }

    /** Of the interrupts `irq` that fall into one read, those before instruction `k` have been served, and
        there is room for all of them. `from` is what had been produced when the read began. */
    ghost predicate Schedule(from: seq<byte>, irq: seq<seq<byte>>, k: nat)
      reads this
    {
      && |irq| == STEPS && k <= STEPS && produced == from + Flat(irq[..k])
      && |from| + |Flat(irq)| - |consumed| < RING_SIZE
    }

    /** The interrupts before instruction `k`. */
    method Preempt(ghost from: seq<byte>, irq: seq<seq<byte>>, k: nat)
      requires Valid() && Schedule(from, irq, k) && k < STEPS
      modifies this`head, this`produced, buffer
      ensures Valid() && Schedule(from, irq, k + 1)
    {
      FlatNext(from, irq, k);
      Interrupts(irq[k]);
    }

    /** `c_mouse_read`: -1 when the ring is empty. `irq[k]` arrives before its k-th instruction. */
    method Read(irq: seq<seq<byte>>) returns (r: int)
      requires Valid() && pc == Outside && |irq| == STEPS && Waiting() + |Flat(irq)| < RING_SIZE
      modifies this`head, this`tail, this`pc, this`produced, this`consumed, buffer
      ensures Valid() && produced == old(produced) + Flat(if r == -1 then irq[..3] else irq)
      ensures r == -1 <==> old(produced) + Flat(irq[..2]) == old(consumed)
      ensures r == -1 ==> pc == Outside && consumed == old(consumed)
      ensures r != -1 ==> 0 <= r < 0x100 && pc == Returned(r) && consumed == old(consumed) + [r]
    {
      ghost var from := produced;
      assert irq[..0] == [] && from + [] == from;
      var eax, equal := Look(from, irq);
      if equal {
        LeaveEmpty(from, irq, eax);
        r := -1;
      } else {
        TakeJump(from, irq, eax);
        r := ReadByte(from, irq, eax);
        assert irq[..STEPS] == irq;
      }
    }

    /** The first half: is there a byte? */
    method Look(ghost from: seq<byte>, irq: seq<seq<byte>>) returns (eax: nat, equal: bool)
      requires Valid() && pc == Outside && Schedule(from, irq, 0)
      modifies this`head, this`pc, this`produced, buffer
      ensures Valid() && Schedule(from, irq, 2) && pc == Jump(eax, equal)
      ensures equal <==> produced == consumed
    {
      eax := LoadTail(from, irq);
      equal := CompareHead(from, irq, eax);
    }

    method LoadTail(ghost from: seq<byte>, irq: seq<seq<byte>>) returns (eax: nat)
      requires Valid() && pc == Outside && Schedule(from, irq, 0)
      modifies this`head, this`pc, this`produced, buffer
      ensures Valid() && Schedule(from, irq, 1) && pc == Compare(eax)
    {
      Preempt(from, irq, 0);
      ghost var before := Sys();
      ReaderKeepsInv(before, start);
      eax := tail;
      pc := Compare(eax);
      assert Sys() == Reader(before);
    }

    method CompareHead(ghost from: seq<byte>, irq: seq<seq<byte>>, eax: nat) returns (equal: bool)
      requires Valid() && pc == Compare(eax) && Schedule(from, irq, 1)
      modifies this`head, this`pc, this`produced, buffer
      ensures Valid() && Schedule(from, irq, 2) && pc == Jump(eax, equal)
      ensures equal <==> produced == consumed
    {
      Preempt(from, irq, 1);
      ghost var before := Sys();
      ReaderKeepsInv(before, start);
      CompareIsExact(|produced|, |consumed|);
      equal := eax == head;
      pc := Jump(eax, equal);
      assert Sys() == Reader(before);
    }

    method LeaveEmpty(ghost from: seq<byte>, irq: seq<seq<byte>>, eax: nat)
      requires Valid() && pc == Jump(eax, true) && Schedule(from, irq, 2)
      modifies this`head, this`pc, this`produced, buffer
      ensures Valid() && Schedule(from, irq, 3) && pc == Outside
    {
      Preempt(from, irq, 2);
      ghost var before := Sys();
      ReaderKeepsInv(before, start);
      pc := Outside;
      assert Sys() == Reader(before);
    }

    method TakeJump(ghost from: seq<byte>, irq: seq<seq<byte>>, eax: nat)
      requires Valid() && pc == Jump(eax, false) && Schedule(from, irq, 2)
      modifies this`head, this`pc, this`produced, buffer
      ensures Valid() && Schedule(from, irq, 3) && pc == CopyIndex(eax)
    {
      Preempt(from, irq, 2);
      ghost var before := Sys();
      ReaderKeepsInv(before, start);
      pc := CopyIndex(eax);
      assert Sys() == Reader(before);
    }

    /** The second half, reached when the ring is not empty. */
    method ReadByte(ghost from: seq<byte>, irq: seq<seq<byte>>, eax: nat) returns (r: int)
      requires Valid() && pc == CopyIndex(eax) && Schedule(from, irq, 3)
      modifies this`head, this`tail, this`pc, this`produced, this`consumed, buffer
      ensures Valid() && Schedule(from, irq, STEPS)
      ensures 0 <= r < 0x100 && pc == Returned(r) && consumed == old(consumed) + [r]
    {
      var al, ebx := Fetch(from, irq, eax);
      ebx := Increase(from, irq, al, ebx);
      Preempt(from, irq, 7);
      Store(from, irq, al, ebx);
      r := al;
    }

    method Fetch(ghost from: seq<byte>, irq: seq<seq<byte>>, eax: nat) returns (al: byte, ebx: nat)
      requires Valid() && pc == CopyIndex(eax) && Schedule(from, irq, 3)
      modifies this`head, this`pc, this`produced, buffer
      ensures Valid() && Schedule(from, irq, 5) && pc == Increment(al, ebx)
    {
      ebx := Copy(from, irq, eax);
      al := Load(from, irq, ebx);
    }

    method Copy(ghost from: seq<byte>, irq: seq<seq<byte>>, eax: nat) returns (ebx: nat)
      requires Valid() && pc == CopyIndex(eax) && Schedule(from, irq, 3)
      modifies this`head, this`pc, this`produced, buffer
      ensures Valid() && Schedule(from, irq, 4) && pc == LoadByte(ebx)
    {
      Preempt(from, irq, 3);
      ghost var before := Sys();
      ReaderKeepsInv(before, start);
      ebx := eax;
      pc := LoadByte(ebx);
      assert Sys() == Reader(before);
    }

    method Load(ghost from: seq<byte>, irq: seq<seq<byte>>, ebx: nat) returns (al: byte)
      requires Valid() && pc == LoadByte(ebx) && Schedule(from, irq, 4)
      modifies this`head, this`pc, this`produced, buffer
      ensures Valid() && Schedule(from, irq, 5) && pc == Increment(al, ebx)
    {
      Preempt(from, irq, 4);
      ghost var before := Sys();
      ReaderKeepsInv(before, start);
      al := buffer[ebx];
      pc := Increment(al, ebx);
      assert Sys() == Reader(before);
    }

    method Increase(ghost from: seq<byte>, irq: seq<seq<byte>>, al: byte, ebx: nat) returns (next: nat)
      requires Valid() && pc == Increment(al, ebx) && Schedule(from, irq, 5)
      modifies this`head, this`pc, this`produced, buffer
      ensures Valid() && Schedule(from, irq, 7) && pc == StoreTail(al, next)
    {
      AddOne(from, irq, al, ebx);
      next := WrapIndex(from, irq, al, ebx + 1);
    }

    method AddOne(ghost from: seq<byte>, irq: seq<seq<byte>>, al: byte, ebx: nat)
      requires Valid() && pc == Increment(al, ebx) && Schedule(from, irq, 5)
      modifies this`head, this`pc, this`produced, buffer
      ensures Valid() && Schedule(from, irq, 6) && pc == Mask(al, ebx + 1)
    {
      Preempt(from, irq, 5);
      ghost var before := Sys();
      ReaderKeepsInv(before, start);
      pc := Mask(al, ebx + 1);
      assert Sys() == Reader(before);
    }

    method WrapIndex(ghost from: seq<byte>, irq: seq<seq<byte>>, al: byte, ebx: nat) returns (next: nat)
      requires Valid() && pc == Mask(al, ebx) && Schedule(from, irq, 6)
      modifies this`head, this`pc, this`produced, buffer
      ensures Valid() && Schedule(from, irq, 7) && pc == StoreTail(al, next)
    {
      Preempt(from, irq, 6);
      ghost var before := Sys();
      ReaderKeepsInv(before, start);
      next := ebx % RING_SIZE;
      pc := StoreTail(al, next);
      assert Sys() == Reader(before);
    }

    method Store(ghost from: seq<byte>, irq: seq<seq<byte>>, al: byte, ebx: nat)
      requires Valid() && pc == StoreTail(al, ebx) && Schedule(from, irq, STEPS)
      modifies this`tail, this`pc, this`consumed
      ensures Valid() && Schedule(from, irq, STEPS) && pc == Returned(al) && consumed == old(consumed) + [al]
    {
      ghost var before := Sys();
      ReaderKeepsInv(before, start);
      tail := ebx;
      pc, consumed := Returned(al), consumed + [al];
      assert Sys() == Reader(before);
    }

    /** The body of the loop in `mouse_poll`. */
    method Apply(b: byte)
      modifies this`x, this`y, this`left, this`right, this`status, this`dx, this`packetIdx
      ensures Decoder() == Decode(old(Decoder()), b)
    {
      if packetIdx == 0 {
        if Bit(b, 0x08) {
          status, packetIdx := b, 1;
        }
      } else if packetIdx == 1 {
        dx, packetIdx := b, 2;
      } else {
        packetIdx := 0;
        MovePointer(b);
      }
    }

    /** The third byte of a packet: buttons and position. */
    method MovePointer(dy: byte)
      modifies this`x, this`y, this`left, this`right
      ensures Decoder() == Move(old(Decoder()), status, dx, dy)
    {
      var mx, my := Int8(dx), Int8(dy);
      if Bit(status, 0x40) { mx := 0; }
      if Bit(status, 0x80) { my := 0; }
      left, right := Bit(status, 0x01), Bit(status, 0x02);
      x := Limited(x + mx, limitW);
      y := Limited(y - my, limitH);
    }

    /** The two comparisons after a move. */
    static method Limited(v: int, limit: int) returns (r: int)
      ensures r == Clamp(v, limit)
    {
      r := v;
      if r < 0 { r := 0; }
      if r >= limit { r := limit - 1; }
    }

    method Feed(b: byte)
      requires Valid() && pc == Returned(b)
      modifies this`x, this`y, this`left, this`right, this`status, this`dx, this`packetIdx, this`pc
      ensures Valid() && pc == Outside && Decoder() == Decode(old(Decoder()), b)
    {
      DecodeKeepsInv(Sys(), start);
      Apply(b);
      pc := Outside;
    }

    /** `mouse_poll`: reads until the ring is empty. `irqs[j]` interrupts the j-th read; after the last of
        them the line is quiet. It stops at the first read that finds nothing at its comparison, with every
        byte that had arrived by then taken, one in each read before. */
    method Poll(irqs: seq<seq<seq<byte>>>) returns (ghost taken: nat)
      requires Valid() && pc == Outside && RoomForAll(Waiting(), irqs)
      modifies this, buffer
      ensures Valid() && pc == Outside
      ensures Stopped(produced, consumed, old(produced), old(consumed), irqs, taken)
      ensures Decoder() == DecodeAll(start, produced[..|consumed|])
      ensures irqs == [] ==> produced == old(produced) == consumed
      ensures limitW == old(limitW) && limitH == old(limitH)
    {
      assert irqs[0..] == irqs && produced + [] == produced;
      taken := PollLoop(produced, consumed, irqs);
      AllDecoded(Sys(), start);
      if irqs == [] {
        StoppedQuiet(produced, consumed, old(produced), old(consumed), taken);
      }
    }

    /** After `n` reads that each took a byte, with room for the interrupts to come. */
    ghost predicate Underway(from: seq<byte>, before: seq<byte>, irqs: seq<seq<seq<byte>>>, n: nat)
      reads this, buffer
    {
      && Valid() && pc == Outside && Going(produced, consumed, from, before, irqs, n)
      && RoomForAll(Waiting(), irqs[Min(n, |irqs|)..])
    }

    /** The loop of `mouse_poll`. */
    method PollLoop(ghost from: seq<byte>, ghost before: seq<byte>, irqs: seq<seq<seq<byte>>>) returns (ghost taken: nat)
      requires Underway(from, before, irqs, 0)
      modifies this, buffer
      ensures Valid() && pc == Outside && Stopped(produced, consumed, from, before, irqs, taken)
      ensures limitW == old(limitW) && limitH == old(limitH)
    {
      var j, r := 0, 0;
      taken := 0;
      while r != -1
        invariant 0 <= j && limitW == old(limitW) && limitH == old(limitH)
        invariant r != -1 ==> Underway(from, before, irqs, j)
        invariant r == -1 ==> Valid() && pc == Outside && Stopped(produced, consumed, from, before, irqs, taken)
        decreases r != -1, if j < |irqs| then |irqs| - j else 0, Waiting()
      {
        taken := j;
        r := Pass(from, before, irqs, j);
        j := j + 1;
      }
    }

    /** The j-th pass, with its share of the interrupts. */
    method Pass(ghost from: seq<byte>, ghost before: seq<byte>, irqs: seq<seq<seq<byte>>>, j: nat) returns (r: int)
      requires Underway(from, before, irqs, j)
      modifies this, buffer
      ensures r != -1 ==> Underway(from, before, irqs, j + 1)
      ensures r == -1 ==> Valid() && pc == Outside && Stopped(produced, consumed, from, before, irqs, j)
      ensures j >= |irqs| && r != -1 ==> Waiting() < old(Waiting())
      ensures limitW == old(limitW) && limitH == old(limitH)
    {
      ghost var p, c := produced, consumed;
      var irq := Group(irqs, j);
      RoomForNext(Waiting(), irqs, j, irq);
      r := Round(irq);
      GoingOn(p, c, produced, consumed, from, before, irqs, j, r == -1);
    }

    /** One pass of the loop. */
    method Round(irq: seq<seq<byte>>) returns (r: int)
      requires Valid() && pc == Outside && |irq| == STEPS && Waiting() + |Flat(irq)| < RING_SIZE
      modifies this, buffer
      ensures Valid() && pc == Outside && produced == old(produced) + Flat(if r == -1 then irq[..3] else irq)
      ensures r == -1 <==> old(produced) + Flat(irq[..2]) == old(consumed)
      ensures old(consumed) <= consumed && (r == -1 ==> consumed == old(consumed))
      ensures r != -1 ==> Waiting() == old(Waiting()) + |Flat(irq)| - 1
      ensures old(produced) <= produced && (Silent(irq) ==> produced == old(produced))
      ensures Silent(irq) && r == -1 ==> produced == consumed
      ensures limitW == old(limitW) && limitH == old(limitH)
    {
      r := Read(irq);
      if r != -1 {
        Feed(r);
      }
    }
  }
}

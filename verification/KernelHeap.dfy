/** The heap routines as code: `mem_init`, `kmalloc`, `kfree`, `mem_get_stats`, `mem_validate_heap`. */
module KernelHeap {
  import opened Machine
  import opened H = Heap
  import opened HF = HeapFree
  import opened HeapList

  const MIN_HEAP := 1024

  class Allocator {
    var mem: Memory
    var heapBase: nat
    var heapEnd: nat
    var freeHead: nat
    var totalFree: nat
    var totalUsed: nat
    var numBlocks: nat

    ghost function State(): H.Heap
      reads this
    {
      H.Heap(mem, heapBase, heapEnd, freeHead)
    }

    constructor (m: Memory)
      ensures mem == m
    {
      mem, heapBase, heapEnd, freeHead, totalFree, totalUsed, numBlocks := m, 0, 0, 0, 0, 0, 0;
    }

    /** `mem_init`: 1 for a null address or a heap below 1 KiB, 2 when the size, taken as a signed
        number, leaves no room after the header. */
    method MemInit(start: nat, size: nat) returns (r: nat)
      requires start < TWO_32 && size < TWO_32
      modifies this
      ensures r == 1 <==> start == 0 || size < MIN_HEAP
      ensures r == 2 <==> start != 0 && size >= 0x8000_0000
      ensures r == 0 || r == 1 || r == 2
      ensures r == 1 ==> State() == old(State())
      ensures r == 0 && start + size < TWO_32 ==>
        State() == InitHeap(old(mem), start, size) && HeapOk(State(), Layout([start], [start]))
    {
      if start == 0 || size < MIN_HEAP {
        return 1;
      }
      heapBase, heapEnd := start, U32(start + size);
      mem := mem[start := 0];
      mem := mem[start + 4 := 0];
      if size >= 0x8000_0000 {
        return 2;
      }
      var payload := size - HEADER;
      mem := mem[start + 8 := payload];
      mem := mem[start + 12 := MAGIC];
      mem := mem[start + 16 := FREE];
      freeHead := start;
      totalFree, totalUsed, numBlocks := payload, 0, 1;
      if start + size < TWO_32 {
        InitOk(old(mem), start, size);
      }
      return 0;
    }

    /** The search loop of `kmalloc`: the first listed block that fits, 0 if there is none. */
    method FirstFit(need: nat, ghost l: Layout) returns (b: nat)
      requires Consistent(State(), l)
      ensures var k := Search(mem, l.ls, need, 0); b == if k < |l.ls| then l.ls[k] else 0
    {
      b := freeHead;
      ghost var k := 0;
      EntryListed(State(), l, 0);
      while b != 0
        invariant k <= |l.ls| && b == (if k < |l.ls| then l.ls[k] else 0) && (k < |l.ls| ==> b > 0)
        invariant Search(mem, l.ls, need, k) == Search(mem, l.ls, need, 0)
        decreases |l.ls| - k
      {
        if Magic(mem, b) != MAGIC {
          // a corrupted heap, which a sound one is not
          assert l.ls[k] in l.ls;
          TileMagic(State(), l, b);
          assert false;
        }
        if Flags(mem, b) == FREE && Size(mem, b) >= need {
          return;
        }
        assert LinkAt(mem, l.ls, k);
        b := Next(mem, b);
        k := k + 1;
        EntryListed(State(), l, k);
      }
    }

    /** Takes a block off the list and marks it used. */
    method TakeWhole(b: nat)
      modifies this`mem, this`freeHead
      ensures mem == WholeMem(old(mem), b) && freeHead == WholeHead(old(State()), b)
    {
      var prev, next := Prev(mem, b), Next(mem, b);
      if prev != 0 {
        mem := mem[prev + 4 := next];
      } else {
        freeHead := next;
      }
      if next != 0 {
        mem := mem[next := prev];
      }
      mem := mem[b + 16 := USED];
    }

    /** The stores of the split path, in the order of the code. */
    method Split(b: nat, need: nat, rest: nat)
      modifies this`mem
      ensures mem == SplitMem(old(mem), b, need, U32(b + HEADER + need), rest)
    {
      var n := U32(b + HEADER + need);
      mem := mem[n := b];
      var next := Next(mem, b);
      mem := mem[n + 4 := next];
      mem := mem[n + 8 := rest];
      mem := mem[n + 12 := MAGIC];
      mem := mem[n + 16 := FREE];
      mem := mem[b + 4 := n];
      mem := mem[b + 8 := need];
      if next != 0 {
        mem := mem[next := n];
      }
      mem := mem[b + 16 := USED];
    }

    /** Splits the chosen block or takes it as a whole. */
    method Carve(b: nat, need: nat)
      modifies this`mem, this`freeHead
      ensures State() == Allocate(old(State()), b, need)
    {
      var rest := U32(Size(mem, b) - need - HEADER);
      if rest >= MIN_SPLIT {
        Split(b, need, rest);
      } else {
        TakeWhole(b);
      }
    }

    /** `kmalloc`: the payload's address, 0 on failure. */
    method Kmalloc(req: nat, ghost w: World) returns (ptr: nat, ghost w': World)
      requires req < TWO_32 && AllOwned(w) && w.h == State()
      modifies this
      ensures w' == H.Kmalloc(w, req) && w'.h == State()
      ensures ptr == if |w'.live| > |w.live| then U32(w'.live[|w.live|].ptr) else 0
      ensures RoomForHeader(w, req) ==> AllOwned(w') && (WorldOk(w) ==> WorldOk(w'))
      ensures var taken := Align(req) + HEADER;
        if |w'.live| > |w.live|
        then totalFree == U32(old(totalFree) - taken) && totalUsed == U32(old(totalUsed) + taken)
        else totalFree == old(totalFree) && totalUsed == old(totalUsed)
    {
      w' := H.Kmalloc(w, req);
      KmallocMeans(w, req);
      if req == 0 {
        return 0, w';
      }
      var need := Align(req);
      var b := FirstFit(need, w.l);
      EntryListed(w.h, w.l, Search(mem, w.l.ls, need, 0));
      if b == 0 {
        return 0, w';
      }
      Carve(b, need);
      ptr := U32(b + HEADER);
      totalFree, totalUsed := U32(totalFree - (need + HEADER)), U32(totalUsed + (need + HEADER));
    }

    static lemma KmallocMeans(w: World, req: nat)
      requires AllOwned(w)
      ensures RoomForHeader(w, req) ==> AllOwned(H.Kmalloc(w, req)) && (WorldOk(w) ==> WorldOk(H.Kmalloc(w, req)))
    {
      if RoomForHeader(w, req) {
        KmallocKeepsOwned(w, req);
        if WorldOk(w) {
          KmallocKeepsWorld(w, req);
        }
      }
    }

    /** The stores that absorb `c` into `b`. */
    method Absorb(b: nat, c: nat)
      modifies this`mem
      ensures mem == Merge(old(mem), b, c)
    {
      mem := mem[b + 8 := U32(Size(mem, b) + HEADER + Size(mem, c))];
      var next := Next(mem, c);
      mem := mem[b + 4 := next];
      if next != 0 {
        mem := mem[next := b];
      }
    }

    /** The stores that put `b` at the head of the list. */
    method PutFirst(b: nat)
      modifies this`mem, this`freeHead
      ensures mem == Push(old(mem), b, old(freeHead)) && freeHead == b
    {
      var head := freeHead;
      mem := mem[b := 0];
      mem := mem[b + 4 := head];
      freeHead := b;
      if head != 0 {
        mem := mem[head := b];
      }
    }

    /** `kfree`. NULL and what is not a used block change nothing. After the release of a block of a tiled
        heap with neighbour links, the blocks that are left tile it, with the same total, exactly when a
        free right neighbour does not lead back to it. A block of a consistent heap leaves a list that
        ends, and one of a sound heap a sound heap, exactly under the conditions of `HeapList`. */
    method Kfree(ptr: nat, ghost l: Layout, ghost i: nat)
      requires ptr < TWO_32
      modifies this`mem, this`freeHead
      ensures State() == HF.Kfree(old(State()), ptr)
      ensures ptr == 0 || Magic(old(mem), U32(ptr - HEADER)) != MAGIC || Flags(old(mem), U32(ptr - HEADER)) == FREE ==>
        State() == old(State())
      ensures TiledUse(old(State()), l.bs, i, ptr) ==>
        (TiledRest(State(), FreedBlocks(old(mem), l.bs, i)) <==> !LeadsBack(old(mem), l.bs[i]))
      ensures LinkedUse(old(State()), l, i, ptr) ==>
        (Ends(mem, freeHead) <==> LeadsOn(old(State()), l, l.bs[i]))
      ensures Payload(l.bs, i, ptr) && Releasable(old(State()), l, i) ==>
        ((exists l' :: HeapOk(State(), l')) <==> ReleaseFits(old(State()), l, l.bs[i]))
    {
      KfreeMeans(State(), l, i, ptr);
      if ptr == 0 {
        return;
      }
      var b := U32(ptr - HEADER);
      if Magic(mem, b) != MAGIC || Flags(mem, b) == FREE {
        return;
      }
      Release(b);
    }

    /** `kfree` once the header has been found sound and in use. */
    method Release(b: nat)
      modifies this`mem, this`freeHead
      ensures State() == FreeUsed(old(State()), b)
    {
      mem := mem[b + 16 := FREE];
      var next := Next(mem, b);
      if FreeBlock(mem, next) {
        Absorb(b, next);
      }
      var prev := Prev(mem, b);
      if FreeBlock(mem, prev) {
        Absorb(prev, b);
      } else {
        PutFirst(b);
      }
    }

    /** `ptr` is the payload of block `i`. */
    static predicate Payload(bs: seq<nat>, i: nat, ptr: nat) {
      i < |bs| && ptr == bs[i] + HEADER
    }

    /** `ptr` is the payload of a used block of a tiled heap, and its links are neighbours. */
    static ghost predicate TiledUse(h: H.Heap, bs: seq<nat>, i: nat, ptr: nat) {
      && Tiled(h.m, bs, h.base, h.end) && 0 < h.base && h.end < TWO_32 && (h.head == 0 || h.head in bs)
      && Payload(bs, i, ptr) && Flags(h.m, bs[i]) == USED && NeighbourLinks(h.m, bs, i)
    }

    /** `ptr` is the payload of a used block of a consistent heap, and all its links lead to blocks. */
    static ghost predicate LinkedUse(h: H.Heap, l: Layout, i: nat, ptr: nat) {
      && Payload(l.bs, i, ptr) && Consistent(h, l) && Flags(h.m, l.bs[i]) == USED
      && BlockLinks(h, l, l.bs[i]) && Onward(h, l, l.bs[i])
    }

    /** The heap is tiled by `bs`, and nothing of it is lost. */
    static ghost predicate TiledRest(h: H.Heap, bs: seq<nat>) {
      && Tiled(h.m, bs, h.base, h.end)
      && AllBytes(h.m, bs) == h.end - h.base
    }

    static lemma UsedIsFreed(h: H.Heap, bs: seq<nat>, i: nat, ptr: nat)
      requires ptr < TWO_32 && Payload(bs, i, ptr) && Tiled(h.m, bs, h.base, h.end) && Flags(h.m, bs[i]) == USED
      ensures HF.Kfree(h, ptr) == FreeUsed(h, bs[i])
    {
      assert TileAt(h.m, bs, h.end, i);
    }

    static lemma KfreeMeans(h: H.Heap, l: Layout, i: nat, ptr: nat)
      requires ptr < TWO_32
      ensures TiledUse(h, l.bs, i, ptr) ==>
        (TiledRest(HF.Kfree(h, ptr), FreedBlocks(h.m, l.bs, i)) <==> !LeadsBack(h.m, l.bs[i]))
      ensures LinkedUse(h, l, i, ptr) ==>
        var r := HF.Kfree(h, ptr);
        Ends(r.m, r.head) <==> LeadsOn(h, l, l.bs[i])
      ensures Payload(l.bs, i, ptr) && Releasable(h, l, i) ==>
        ((exists l' :: HeapOk(HF.Kfree(h, ptr), l')) <==> ReleaseFits(h, l, l.bs[i]))
    {
      if TiledUse(h, l.bs, i, ptr) {
        TiledUseMeans(h, l.bs, i, ptr);
      }
      if LinkedUse(h, l, i, ptr) {
        UsedIsFreed(h, l.bs, i, ptr);
        ListEndsIff(h, l, l.bs[i]);
      }
      if Payload(l.bs, i, ptr) && Releasable(h, l, i) {
        UsedIsFreed(h, l.bs, i, ptr);
        ReleaseIsSoundIff(h, l, i);
      }
    }

    static lemma TiledUseMeans(h: H.Heap, bs: seq<nat>, i: nat, ptr: nat)
      requires ptr < TWO_32 && TiledUse(h, bs, i, ptr)
      ensures TiledRest(HF.Kfree(h, ptr), FreedBlocks(h.m, bs, i)) <==> !LeadsBack(h.m, bs[i])
    {
      UsedIsFreed(h, bs, i, ptr);
      KfreeTilesIff(h, bs, i);
      if !LeadsBack(h.m, bs[i]) {
        BytesAddUp(FreeUsed(h, bs[i]).m, FreedBlocks(h.m, bs, i), h.base, h.end);
      }
    }

    /** `mem_get_stats`: the scan visits every block once and its three counts add up to the heap. */
    method GetStats(ghost bs: seq<nat>)
      requires Tiled(mem, bs, heapBase, heapEnd) && heapEnd < TWO_32
      modifies this`totalFree, this`totalUsed, this`numBlocks
      ensures totalFree == FreeBytes(mem, bs) && totalUsed == UsedBytes(mem, bs) && numBlocks == |bs|
      ensures totalFree + totalUsed + HEADER * numBlocks == heapEnd - heapBase
    {
      BytesAddUp(mem, bs, heapBase, heapEnd);
      BlockBefore(mem, bs, heapBase, heapEnd, 0);
      var free, used, blocks, at := 0, 0, 0, heapBase;
      while at < heapEnd
        invariant 0 <= blocks <= |bs| && at == (if blocks < |bs| then bs[blocks] else heapEnd)
        invariant blocks < |bs| ==> at < heapEnd
        invariant 0 <= free && 0 <= used
        invariant free + FreeBytes(mem, bs[blocks..]) == FreeBytes(mem, bs)
        invariant used + UsedBytes(mem, bs[blocks..]) == UsedBytes(mem, bs)
        decreases |bs| - blocks
      {
        assert TileAt(mem, bs, heapEnd, blocks);
        BlockInside(mem, bs, heapBase, heapEnd, blocks);
        CountOne(mem, bs, blocks);
        if Magic(mem, at) != MAGIC {
          break;
        }
        var size := Size(mem, at);
        if Flags(mem, at) == FREE {
          free := Add32(free, size);
        } else {
          used := Add32(used, size);
        }
        blocks := blocks + 1;
        at := Add32(at, HEADER + size);
        BlockBefore(mem, bs, heapBase, heapEnd, blocks);
      }
      totalFree, totalUsed, numBlocks := free, used, blocks;
    }

    static lemma CountOne(m: Memory, bs: seq<nat>, k: nat)
      requires k < |bs|
      ensures FreeBytes(m, bs[k..]) ==
        (if Flags(m, bs[k]) == FREE then Size(m, bs[k]) else 0) + FreeBytes(m, bs[k + 1..])
      ensures UsedBytes(m, bs[k..]) ==
        (if Flags(m, bs[k]) == FREE then 0 else Size(m, bs[k])) + UsedBytes(m, bs[k + 1..])
    {
      assert bs[k..][1..] == bs[k + 1..];
    }

    static lemma BlockBefore(m: Memory, bs: seq<nat>, base: nat, end: nat, k: nat)
      requires Tiled(m, bs, base, end)
      ensures k < |bs| ==> bs[k] < end
    {
      if k < |bs| {
        BlockInside(m, bs, base, end, k);
      }
    }

    /** `mem_validate_heap`: 0 on every tiled heap. */
    method Validate(ghost bs: seq<nat>) returns (r: int)
      requires Tiled(mem, bs, heapBase, heapEnd) && heapEnd < TWO_32
      ensures r == 0
    {
      var at := heapBase;
      ghost var k := 0;
      while at < heapEnd
        invariant k <= |bs| && at == (if k < |bs| then bs[k] else heapEnd)
        decreases |bs| - k
      {
        assert TileAt(mem, bs, heapEnd, k);
        if Magic(mem, at) != MAGIC || (Flags(mem, at) != FREE && Flags(mem, at) != USED) {
          return 1;
        }
        k := k + 1;
        if k < |bs| {
          BlockInside(mem, bs, heapBase, heapEnd, k);
        }
        at := U32(at + HEADER + Size(mem, at));
      }
      return 0;
    }
  }
}

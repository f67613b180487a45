/** `kfree`, the statistics scan and the heap check. */
module HeapFree {
  import opened Machine
  import opened Heap

  // ---------------------------------------------------------------- kfree

  predicate FreeBlock(m: Memory, b: nat) {
    b != 0 && Magic(m, b) == MAGIC && Flags(m, b) == FREE
  }

  /** Absorbs `c` into `b`: adds up the sizes, takes over the next link and fixes the back link. */
  function Merge(m: Memory, b: nat, c: nat): Memory {
    var m0 := m[b + 8 := U32(Size(m, b) + HEADER + Size(m, c))];
    var next := Next(m0, c);
    var m1 := m0[b + 4 := next];
    if next != 0 then m1[next := b] else m1
  }

  /** Puts `b` at the head of the list. */
  function Push(m: Memory, b: nat, head: nat): Memory {
    var m1 := m[b := 0][b + 4 := head];
    if head != 0 then m1[head := b] else m1
  }

  /** `kfree` of the block at `b`, once its header has been found sound and in use. */
  function FreeUsed(h: Heap, b: nat): Heap {
    var m1 := h.m[b + 16 := FREE];
    var next := Next(m1, b);
    var m2 := if FreeBlock(m1, next) then Merge(m1, b, next) else m1;
    var prev := Prev(m2, b);
    if FreeBlock(m2, prev) then h.(m := Merge(m2, prev, b))
    else h.(m := Push(m2, b, h.head), head := b)
  }

  /** `kfree`: NULL, a bad header and a block that is free already are ignored. */
  function Kfree(h: Heap, ptr: nat): Heap
    requires ptr < TWO_32
  {
    var b := U32(ptr - HEADER);
    if ptr == 0 || Magic(h.m, b) != MAGIC || Flags(h.m, b) == FREE then h else FreeUsed(h, b)
  }

  // ---------------------------------------------------------------- tilings

  /** Size, magic and flags: what a tiling depends on. */
  predicate SameBody(m: Memory, m': Memory, c: nat) {
    Size(m', c) == Size(m, c) && Magic(m', c) == Magic(m, c) && Flags(m', c) == Flags(m, c)
  }

  lemma SameTiling(m: Memory, m': Memory, bs: seq<nat>, base: nat, end: nat)
    requires Tiled(m, bs, base, end) && forall c :: c in bs ==> SameBody(m, m', c)
    ensures Tiled(m', bs, base, end)
  {
    forall j | 0 <= j < |bs| ensures TileAt(m', bs, end, j) {
      assert TileAt(m, bs, end, j) && bs[j] in bs;
    }
  }

  /** Two neighbours become one. */
  lemma MergedTiling(m: Memory, m': Memory, bs: seq<nat>, base: nat, end: nat, i: nat)
    requires Tiled(m, bs, base, end) && i + 1 < |bs|
    requires Size(m', bs[i]) == Size(m, bs[i]) + HEADER + Size(m, bs[i + 1])
    requires GoodHeader(m', bs[i])
    requires forall c :: c in bs && c != bs[i] && c != bs[i + 1] ==> SameBody(m, m', c)
    ensures Tiled(m', Without(bs, i + 1), base, end)
  {
    var bs' := Without(bs, i + 1);
    assert TileAt(m, bs, end, i) && TileAt(m, bs, end, i + 1);
    forall j | 0 <= j < |bs'| ensures TileAt(m', bs', end, j) {
      if j != i {
        var o := if j < i then j else j + 1;
        assert TileAt(m, bs, end, o) && bs[o] in bs && bs'[j] == bs[o];
        if o < i {
          BlocksApart(m, bs, base, end, o, i);
        } else {
          BlocksApart(m, bs, base, end, i + 1, o);
        }
        BlocksApart(m, bs, base, end, i, i + 1);
      }
    }
  }

  /** Address `a` is the start of block `c`, or clear of its header. */
  predicate Clear(a: nat, c: nat) {
    a == c || a + HEADER <= c || c + HEADER <= a
  }

  /** Null, or an address at which a back link can be stored without touching a block's size, magic or flags. */
  ghost predicate SafeLink(bs: seq<nat>, a: nat) {
    a == 0 || forall c :: c in bs ==> Clear(a, c)
  }

  lemma BlockIsSafe(m: Memory, bs: seq<nat>, base: nat, end: nat, a: nat)
    requires Tiled(m, bs, base, end) && (a == 0 || a in bs)
    ensures SafeLink(bs, a)
  {
    forall c | a != 0 && c in bs ensures Clear(a, c) {
      if a != c { DifferentBlocks(m, bs, base, end, a, c); }
    }
  }

  /** What merging a block with its right neighbour does. */
  lemma MergeKeepsTiling(m: Memory, bs: seq<nat>, base: nat, end: nat, i: nat)
    requires Tiled(m, bs, base, end) && end < TWO_32 && i + 1 < |bs|
    requires SafeLink(bs, Next(m, bs[i + 1]))
    ensures Tiled(Merge(m, bs[i], bs[i + 1]), Without(bs, i + 1), base, end)
    ensures Flags(Merge(m, bs[i], bs[i + 1]), bs[i]) == Flags(m, bs[i])
  {
    var b, c := bs[i], bs[i + 1];
    var x, m' := Next(m, c), Merge(m, b, c);
    BlockInside(m, bs, base, end, i);
    BlockInside(m, bs, base, end, i + 1);
    BlocksApart(m, bs, base, end, i, i + 1);
    assert TileAt(m, bs, end, i);
    var size := Size(m, b) + HEADER + Size(m, c);
    Unwrapped(size);
    assert b in bs;
    forall d | d in bs
      ensures d != b ==> SameBody(m, m', d)
      ensures d == b ==> Size(m', b) == size && Magic(m', b) == Magic(m, b) && Flags(m', b) == Flags(m, b)
    {
      if d != b { DifferentBlocks(m, bs, base, end, b, d); }
      assert x == 0 || Clear(x, d);
    }
    MergedTiling(m, m', bs, base, end, i);
  }

  lemma PushKeepsTiling(m: Memory, bs: seq<nat>, base: nat, end: nat, b: nat, head: nat)
    requires Tiled(m, bs, base, end) && b in bs && SafeLink(bs, head)
    ensures Tiled(Push(m, b, head), bs, base, end)
  {
    var m' := Push(m, b, head);
    forall c | c in bs ensures SameBody(m, m', c) {
      if b != c { DifferentBlocks(m, bs, base, end, b, c); }
      assert head == 0 || Clear(head, c);
    }
    SameTiling(m, m', bs, base, end);
  }

  lemma MarkKeepsTiling(m: Memory, bs: seq<nat>, base: nat, end: nat, b: nat)
    requires Tiled(m, bs, base, end) && b in bs
    ensures Tiled(m[b + 16 := FREE], bs, base, end)
    ensures forall c :: c in bs ==> Next(m[b + 16 := FREE], c) == Next(m, c) && Prev(m[b + 16 := FREE], c) == Prev(m, c)
    ensures forall c :: c in bs && c != b ==> Flags(m[b + 16 := FREE], c) == Flags(m, c)
  {
    var m' := m[b + 16 := FREE];
    forall c | c in bs
      ensures Next(m', c) == Next(m, c) && Prev(m', c) == Prev(m, c)
      ensures Size(m', c) == Size(m, c) && Magic(m', c) == Magic(m, c)
      ensures c != b ==> Flags(m', c) == Flags(m, c)
    {
      if c != b { DifferentBlocks(m, bs, base, end, b, c); }
    }
    forall j | 0 <= j < |bs| ensures TileAt(m', bs, end, j) {
      assert TileAt(m, bs, end, j) && bs[j] in bs;
    }
  }

  /** A free right neighbour leads back to the block itself. */
  predicate LeadsBack(m: Memory, b: nat) {
    FreeBlock(m, Next(m, b)) && Next(m, Next(m, b)) == b
  }

  /** The links of block `i` are null or other blocks, those it merges with are its physical neighbours,
      and what a free right neighbour leads to is null or a block. A neighbour that leads back overwrites
      the back link before it is read, so that link does not matter then. */
  ghost predicate NeighbourLinks(m: Memory, bs: seq<nat>, i: nat)
    requires i < |bs|
  {
    var b, x, y := bs[i], Next(m, bs[i]), Prev(m, bs[i]);
    && (x == 0 || (x in bs && x != b))
    && (FreeBlock(m, x) ==> i + 1 < |bs| && x == bs[i + 1] && (Next(m, x) == 0 || Next(m, x) in bs))
    && (LeadsBack(m, b) || ((y == 0 || (y in bs && y != b)) && (FreeBlock(m, y) ==> i > 0 && y == bs[i - 1])))
  }

  /** The blocks that are left after freeing block `i`: without those that were absorbed. */
  function FreedBlocks(m: Memory, bs: seq<nat>, i: nat): seq<nat>
    requires i < |bs|
  {
    var b := bs[i];
    var right := if i + 1 < |bs| && FreeBlock(m, Next(m, b)) then Without(bs, i + 1) else bs;
    if i > 0 && FreeBlock(m, Prev(m, b)) && !LeadsBack(m, b) then Without(right, i) else right
  }

  /** The first half of `kfree`: mark and merge to the right. */
  function MarkAndMerge(m: Memory, b: nat): Memory {
    var m1 := m[b + 16 := FREE];
    if FreeBlock(m1, Next(m1, b)) then Merge(m1, b, Next(m1, b)) else m1
  }

  function RightBlocks(m: Memory, bs: seq<nat>, i: nat): seq<nat>
    requires i < |bs|
  {
    if i + 1 < |bs| && FreeBlock(m, Next(m, bs[i])) then Without(bs, i + 1) else bs
  }

  /** Absorbing the right neighbour changes no back link or flag that the second half looks at. */
  lemma MergeLooksSame(m: Memory, bs: seq<nat>, base: nat, end: nat, b: nat, c: nat, d: nat)
    requires Tiled(m, bs, base, end) && b in bs && c in bs && d in bs && d != c && b != c
    requires var x := Next(m, c); x == 0 || (x in bs && x != b)
    ensures var m' := Merge(m, b, c);
      && Magic(m', d) == Magic(m, d) && Flags(m', d) == Flags(m, d)
      && Prev(m', b) == Prev(m, b) && Next(m', b) == Next(m, c)
  {
    DifferentBlocks(m, bs, base, end, b, c);
    if d != b { DifferentBlocks(m, bs, base, end, b, d); }
    var x := Next(m, c);
    if x != 0 {
      if x != d { DifferentBlocks(m, bs, base, end, x, d); }
      DifferentBlocks(m, bs, base, end, x, b);
    }
  }

  lemma RightHalf(m: Memory, bs: seq<nat>, base: nat, end: nat, i: nat)
    requires Tiled(m, bs, base, end) && 0 < base && end < TWO_32 && i < |bs| && NeighbourLinks(m, bs, i)
    requires !LeadsBack(m, bs[i])
    ensures var m2, bs2, y := MarkAndMerge(m, bs[i]), RightBlocks(m, bs, i), Prev(m, bs[i]);
      && Tiled(m2, bs2, base, end) && i < |bs2| && bs2[..i + 1] == bs[..i + 1]
      && Prev(m2, bs[i]) == y && (FreeBlock(m2, y) <==> FreeBlock(m, y))
      && SafeLink(bs2, Next(m2, bs[i]))
  {
    var b, x, y := bs[i], Next(m, bs[i]), Prev(m, bs[i]);
    var m1 := m[b + 16 := FREE];
    assert b in bs;
    MarkKeepsTiling(m, bs, base, end, b);
    if x != 0 {
      MarkedLooksSame(m, bs, base, end, b, x);
    }
    if y != 0 {
      MarkedLooksSame(m, bs, base, end, b, y);
    }
    if FreeBlock(m, x) {
      BlocksApart(m, bs, base, end, i, i + 1);
      if i > 0 {
        BlocksApart(m, bs, base, end, i - 1, i + 1);
      }
      BlockIsSafe(m, bs, base, end, Next(m, x));
      MergeKeepsTiling(m1, bs, base, end, i);
      MergeLooksSame(m1, bs, base, end, b, x, if y != 0 && y != x then y else b);
      assert forall c :: c in Without(bs, i + 1) ==> c in bs;
    } else {
      BlockIsSafe(m, bs, base, end, x);
    }
  }

  lemma MarkedLooksSame(m: Memory, bs: seq<nat>, base: nat, end: nat, b: nat, c: nat)
    requires Tiled(m, bs, base, end) && b in bs && c in bs && c != b
    ensures FreeBlock(m[b + 16 := FREE], c) <==> FreeBlock(m, c)
  {
    DifferentBlocks(m, bs, base, end, b, c);
  }

  /** Freeing a block keeps the tiling, whichever neighbours it merges with, when its links are null or
      blocks, those it merges with are its physical neighbours, and a free right neighbour does not lead
      back to it. */
  lemma KfreeKeepsTiling(h: Heap, bs: seq<nat>, i: nat)
    requires Tiled(h.m, bs, h.base, h.end) && 0 < h.base && h.end < TWO_32
    requires i < |bs| && NeighbourLinks(h.m, bs, i) && (h.head == 0 || h.head in bs) && !LeadsBack(h.m, bs[i])
    ensures Tiled(FreeUsed(h, bs[i]).m, FreedBlocks(h.m, bs, i), h.base, h.end)
  {
    var b := bs[i];
    var m2, bs2 := MarkAndMerge(h.m, b), RightBlocks(h.m, bs, i);
    RightHalf(h.m, bs, h.base, h.end, i);
    assert bs2[i] == bs2[..i + 1][i] == b;
    if FreeBlock(h.m, Prev(h.m, b)) {
      assert bs2[i - 1] == bs2[..i + 1][i - 1] == bs[i - 1];
      MergeKeepsTiling(m2, bs2, h.base, h.end, i - 1);
    } else {
      BlockIsSafe(h.m, bs, h.base, h.end, h.head);
      assert forall c :: c in bs2 ==> c in bs;
      PushKeepsTiling(m2, bs2, h.base, h.end, b, h.head);
    }
  }

  /** Without the last condition it fails: a free right neighbour that leads back makes the block its own
      predecessor, so that it is merged with itself and its size counted twice. The blocks that are left
      do not tile the heap. */
  lemma MergedWithItself(h: Heap, bs: seq<nat>, i: nat)
    requires Tiled(h.m, bs, h.base, h.end) && 0 < h.base && h.end < TWO_32
    requires i < |bs| && NeighbourLinks(h.m, bs, i) && LeadsBack(h.m, bs[i])
    ensures var b := bs[i];
      Size(FreeUsed(h, b).m, b) == U32(2 * (Size(h.m, b) + HEADER + Size(h.m, Next(h.m, b))) + HEADER)
    ensures !Tiled(FreeUsed(h, bs[i]).m, FreedBlocks(h.m, bs, i), h.base, h.end)
  {
    var b, x := bs[i], bs[i + 1];
    BlockInside(h.m, bs, h.base, h.end, i);
    BlockInside(h.m, bs, h.base, h.end, i + 1);
    BlocksApart(h.m, bs, h.base, h.end, i, i + 1);
    assert TileAt(h.m, bs, h.end, i) && TileAt(h.m, bs, h.end, i + 1);
    SelfMerge(h, b, x);
    Doubled(Size(h.m, b) + HEADER + Size(h.m, x));
    assert !TileAt(FreeUsed(h, b).m, Without(bs, i + 1), h.end, i);
  }

  /** The size of a block that swallowed itself is never what it was. */
  lemma Doubled(size: nat)
    requires size + HEADER < TWO_32
    ensures U32(2 * size + HEADER) != size
  {
    if 2 * size + HEADER >= TWO_32 {
      assert 2 * size + HEADER - TWO_32 < TWO_32;
    }
  }

  lemma SelfMerge(h: Heap, b: nat, x: nat)
    requires 0 < b && b + HEADER <= x && Magic(h.m, b) == MAGIC && FreeBlock(h.m, x)
    requires Next(h.m, b) == x && Next(h.m, x) == b && Size(h.m, b) + HEADER + Size(h.m, x) < TWO_32
    ensures Size(FreeUsed(h, b).m, b) == U32(2 * (Size(h.m, b) + HEADER + Size(h.m, x)) + HEADER)
    ensures Next(FreeUsed(h, b).m, b) == b && Flags(FreeUsed(h, b).m, b) == FREE && FreeUsed(h, b).head == h.head
  {
    var m1 := h.m[b + 16 := FREE];
    var m2 := Merge(m1, b, x);
    Unwrapped(Size(h.m, b) + HEADER + Size(h.m, x));
    assert Size(m2, b) == Size(h.m, b) + HEADER + Size(h.m, x) && Prev(m2, b) == b && Next(m2, b) == b;
    assert FreeBlock(m2, b) && FreeUsed(h, b).m == Merge(m2, b, b);
  }

  /** Other blocks keep their headers. */
  lemma SelfMergeAside(h: Heap, b: nat, x: nat, d: nat)
    requires 0 < b && b + HEADER <= x && Magic(h.m, b) == MAGIC && FreeBlock(h.m, x)
    requires Next(h.m, b) == x && Next(h.m, x) == b && d != b && Clear(b, d)
    ensures SameBody(h.m, FreeUsed(h, b).m, d) && Next(FreeUsed(h, b).m, d) == Next(h.m, d)
  {
    var m1 := h.m[b + 16 := FREE];
    var m2 := Merge(m1, b, x);
    assert Prev(m2, b) == b && Next(m2, b) == b && FreeBlock(m2, b);
    assert FreeUsed(h, b).m == Merge(m2, b, b);
  }

  /** So a release keeps the tiling exactly when a free right neighbour does not lead back to the block. */
  lemma KfreeTilesIff(h: Heap, bs: seq<nat>, i: nat)
    requires Tiled(h.m, bs, h.base, h.end) && 0 < h.base && h.end < TWO_32
    requires i < |bs| && NeighbourLinks(h.m, bs, i) && (h.head == 0 || h.head in bs)
    ensures Tiled(FreeUsed(h, bs[i]).m, FreedBlocks(h.m, bs, i), h.base, h.end) <==> !LeadsBack(h.m, bs[i])
  {
    if LeadsBack(h.m, bs[i]) {
      MergedWithItself(h, bs, i);
    } else {
      KfreeKeepsTiling(h, bs, i);
    }
  }

  // ---------------------------------------------------------------- conservation

  function FreeBytes(m: Memory, bs: seq<nat>): nat {
    if bs == [] then 0 else (if Flags(m, bs[0]) == FREE then Size(m, bs[0]) else 0) + FreeBytes(m, bs[1..])
  }

  function UsedBytes(m: Memory, bs: seq<nat>): nat {
    if bs == [] then 0 else (if Flags(m, bs[0]) == FREE then 0 else Size(m, bs[0])) + UsedBytes(m, bs[1..])
  }

  /** Free bytes, used bytes and headers. */
  function AllBytes(m: Memory, bs: seq<nat>): nat {
    FreeBytes(m, bs) + UsedBytes(m, bs) + HEADER * |bs|
  }

  lemma TailTiled(m: Memory, bs: seq<nat>, base: nat, end: nat)
    requires Tiled(m, bs, base, end) && |bs| > 1
    ensures Tiled(m, bs[1..], bs[1], end)
  {
    forall j | 0 <= j < |bs[1..]| ensures TileAt(m, bs[1..], end, j) {
      assert TileAt(m, bs, end, j + 1);
    }
  }

  /** Free bytes, used bytes and headers add up to the heap, on any tiling. */
  lemma {:induction false} BytesAddUp(m: Memory, bs: seq<nat>, base: nat, end: nat)
    requires Tiled(m, bs, base, end)
    ensures AllBytes(m, bs) == end - base
    decreases |bs|
  {
    assert TileAt(m, bs, end, 0);
    assert AllBytes(m, bs) == HEADER + Size(m, bs[0]) + AllBytes(m, bs[1..]);
    if |bs| > 1 {
      TailTiled(m, bs, base, end);
      BytesAddUp(m, bs[1..], bs[1], end);
    } else {
      assert bs[1..] == [];
    }
  }

  /** An allocation, with room for a header, and a release, with neighbour links, leave the sum of
      free bytes, used bytes and headers as it was. */
  lemma ReleaseConserves(h: Heap, bs: seq<nat>, i: nat)
    requires Tiled(h.m, bs, h.base, h.end) && 0 < h.base && h.end < TWO_32
    requires i < |bs| && NeighbourLinks(h.m, bs, i) && (h.head == 0 || h.head in bs) && !LeadsBack(h.m, bs[i])
    ensures var m', bs' := FreeUsed(h, bs[i]).m, FreedBlocks(h.m, bs, i);
      AllBytes(m', bs') == AllBytes(h.m, bs)
  {
    KfreeKeepsTiling(h, bs, i);
    BytesAddUp(h.m, bs, h.base, h.end);
    BytesAddUp(FreeUsed(h, bs[i]).m, FreedBlocks(h.m, bs, i), h.base, h.end);
  }

  lemma AllocationConserves(h: Heap, l: Layout, k: nat, need: nat)
    requires Consistent(h, l) && k < |l.ls| && need % 4 == 0 && need + HEADER <= Size(h.m, l.ls[k]) && l.ls[k] in l.bs
    ensures var m', bs' := Allocate(h, l.ls[k], need).m, AllocateLayout(h, l, k, need).bs;
      AllBytes(m', bs') == AllBytes(h.m, l.bs)
  {
    AllocateConsistent(h, l, k, need);
    BytesAddUp(h.m, l.bs, h.base, h.end);
    BytesAddUp(Allocate(h, l.ls[k], need).m, AllocateLayout(h, l, k, need).bs, h.base, h.end);
  }

  lemma TileMagic(h: Heap, l: Layout, b: nat)
    requires Consistent(h, l) && b in l.bs
    ensures Magic(h.m, b) == MAGIC
  {
    assert TileAt(h.m, l.bs, h.end, IndexOf(l.bs, b));
  }
}

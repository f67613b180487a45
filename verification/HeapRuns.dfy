/** Runs that mix `kmalloc` and `kfree` from `mem_init`: which calls the heap survives, and concrete runs
    that it does not survive. */
module HeapRuns {
  import opened Machine
  import opened Heap
  import opened HeapFree
  import opened HeapList

  // ---------------------------------------------------------------- the spare block

  function Last(bs: seq<nat>): nat
    requires bs != []
  {
    bs[|bs| - 1]
  }

  /** All blocks but the last one are in use and still on the list. The last one is free and on the
      list, or in use and off the list. */
  ghost predicate OneSpare(h: Heap, l: Layout) {
    && Consistent(h, l)
    && (forall b :: b in l.bs && b != Last(l.bs) ==> b in l.ls && Flags(h.m, b) == USED)
    && (Flags(h.m, Last(l.bs)) == USED ==> Last(l.bs) !in l.ls && ListedLinks(h, l, Last(l.bs)))
  }

  lemma BootHasSpare(m: Memory, base: nat, size: nat)
    requires 0 < base && size >= HEADER && base + size < TWO_32
    ensures var w := Boot(m, base, size); AllOwned(w) && OneSpare(w.h, w.l)
  {
    InitOk(m, base, size);
  }

  lemma LastIsLast(h: Heap, l: Layout, b: nat)
    requires Consistent(h, l) && b in l.bs
    ensures Last(l.bs) in l.bs && Last(l.bs) + HEADER + Size(h.m, Last(l.bs)) == h.end
    ensures b != Last(l.bs) ==> h.base <= b && b + HEADER + Size(h.m, b) <= Last(l.bs)
  {
    assert TileAt(h.m, l.bs, h.end, |l.bs| - 1);
    var i := IndexOf(l.bs, b);
    BlockInside(h.m, l.bs, h.base, h.end, i);
    if i < |l.bs| - 1 {
      BlocksApart(h.m, l.bs, h.base, h.end, i, |l.bs| - 1);
    }
  }

  /** What is free is the last block. */
  lemma FreeIsLast(h: Heap, l: Layout, b: nat)
    requires OneSpare(h, l) && b in l.bs && Flags(h.m, b) == FREE
    ensures b == Last(l.bs)
  {
  }

  lemma SplitKeepsSpare(h: Heap, l: Layout, k: nat, need: nat)
    requires OneSpare(h, l) && k < |l.ls| && l.ls[k] == Last(l.bs) && need % 4 == 0
    requires need + HEADER <= Size(h.m, l.ls[k]) && Splits(h.m, l.ls[k], need) && l.ls[k] in l.bs
    ensures OneSpare(Allocate(h, l.ls[k], need), AllocateLayout(h, l, k, need))
  {
    var f, n := l.ls[k], CutAt(l.ls[k], need);
    var h', l' := Allocate(h, f, need), AllocateLayout(h, l, k, need);
    AllocateConsistent(h, l, k, need);
    AllocateCases(h, l, k, need);
    SplitDoneHere(h, l, k, need);
    LastPlace(h, l);
    assert l'.bs == Insert(l.bs, |l.bs|, n) && Last(l'.bs) == n;
    forall b | b in l'.bs && b != n ensures b in l'.ls && Flags(h'.m, b) == USED {
      InsertMembers(l.bs, |l.bs|, n, b);
      InsertMembers(l.ls, k + 1, n, b);
      AllocateKeeps(h, l, k, need, b);
    }
  }

  lemma LastPlace(h: Heap, l: Layout)
    requires Consistent(h, l)
    ensures Last(l.bs) in l.bs && IndexOf(l.bs, Last(l.bs)) == |l.bs| - 1
  {
    var i := IndexOf(l.bs, Last(l.bs));
    if i < |l.bs| - 1 {
      BlocksApart(h.m, l.bs, h.base, h.end, i, |l.bs| - 1);
    }
  }

  lemma WholeKeepsSpare(h: Heap, l: Layout, k: nat, need: nat)
    requires OneSpare(h, l) && k < |l.ls| && l.ls[k] == Last(l.bs) && need % 4 == 0
    requires need + HEADER <= Size(h.m, l.ls[k]) && !Splits(h.m, l.ls[k], need) && l.ls[k] in l.bs
    ensures OneSpare(Allocate(h, l.ls[k], need), AllocateLayout(h, l, k, need))
  {
    var f := l.ls[k];
    var h', l' := Allocate(h, f, need), AllocateLayout(h, l, k, need);
    AllocateConsistent(h, l, k, need);
    AllocateCases(h, l, k, need);
    WholeDoneHere(h, l, k);
    WholeEffect(h, l, k, h'.m, f);
    LinksOfListed(h, l, k);
    forall b | b in l.bs && b != f ensures b in l'.ls && Flags(h'.m, b) == USED {
      AllocateKeeps(h, l, k, need, b);
      WithoutOne(l.ls, k, b);
    }
    WithoutOne(l.ls, k, f);
    WithoutOne(l.ls, k, Next(h.m, f));
    WithoutOne(l.ls, k, Prev(h.m, f));
  }

  lemma WithoutOne(s: seq<nat>, k: nat, c: nat)
    requires Distinct(s) && k < |s|
    ensures c in Without(s, k) <==> c in s && c != s[k]
  {
    var r := Without(s, k);
    if c in r {
      var p :| 0 <= p < |r| && r[p] == c;
      assert s[if p < k then p else p + 1] == c;
    }
    if c in s && c != s[k] {
      var o := IndexOf(s, c);
      assert r[if o < k then o else o - 1] == c;
    }
  }

  /** `kmalloc` takes from the spare block, or the spare block as a whole. */
  lemma KmallocKeepsSpare(w: World, req: nat)
    requires OneSpare(w.h, w.l) && RoomForHeader(w, req)
    ensures var r := Kmalloc(w, req); OneSpare(r.h, r.l)
  {
    var need := Align(req);
    var k := Search(w.h.m, w.l.ls, need, 0);
    if req != 0 && k < |w.l.ls| {
      var f := w.l.ls[k];
      assert f in w.l.ls;
      FreeIsLast(w.h, w.l, f);
      if Splits(w.h.m, f, need) {
        SplitKeepsSpare(w.h, w.l, k, need);
      } else {
        WholeKeepsSpare(w.h, w.l, k, need);
      }
    }
  }

  /** The links of every block are null or on the list. */
  lemma LinksStayListed(h: Heap, l: Layout, b: nat)
    requires OneSpare(h, l) && b in l.bs
    ensures ListedLinks(h, l, b)
  {
    if b in l.ls {
      LinksOfListed(h, l, IndexOf(l.ls, b));
    } else {
      assert b == Last(l.bs) && Flags(h.m, b) != FREE;
      assert TileAt(h.m, l.bs, h.end, |l.bs| - 1);
    }
  }

  // ---------------------------------------------------------------- releasing the spare block

  /** The used spare block merges with nothing and goes to the head of the list. */
  lemma SpareReleased(h: Heap, l: Layout)
    requires OneSpare(h, l) && Flags(h.m, Last(l.bs)) == USED
    ensures OneSpare(FreeUsed(h, Last(l.bs)), Layout(l.bs, [Last(l.bs)] + l.ls))
    ensures forall b :: b in l.bs && b != Last(l.bs) ==> Size(FreeUsed(h, Last(l.bs)).m, b) == Size(h.m, b)
  {
    var f := Last(l.bs);
    var h', s := FreeUsed(h, f), [f] + l.ls;
    SpareAlone(h, l);
    PushedPath(h, l, f);
    PushedAt(h, l, f, f);
    PushedLinked(h, l, f);
    SpareTiled(h, l);
    forall b | b in l.bs ensures b in s && (b != f ==> Flags(h'.m, b) == USED && Size(h'.m, b) == Size(h.m, b)) {
      PushedAt(h, l, f, b);
    }
  }

  lemma SpareAlone(h: Heap, l: Layout)
    requires OneSpare(h, l) && Flags(h.m, Last(l.bs)) == USED
    ensures var f := Last(l.bs);
      f in l.bs && BlockLinks(h, l, f) && !FreeBlock(h.m, Next(h.m, f)) && !FreeBlock(h.m, Prev(h.m, f))
  {
  }

  lemma SpareTiled(h: Heap, l: Layout)
    requires OneSpare(h, l) && Flags(h.m, Last(l.bs)) == USED
    ensures Tiled(FreeUsed(h, Last(l.bs)).m, l.bs, h.base, h.end)
  {
    SpareAlone(h, l);
    if h.head != 0 {
      assert l.ls[0] in l.ls;
    }
    KfreeKeepsTiling(h, l.bs, |l.bs| - 1);
  }

  // ---------------------------------------------------------------- releasing any other block

  /** A used block that is still on the list and is not preceded there by the spare one: the list never
      ends. */
  lemma ListedNeverEnds(h: Heap, l: Layout, b: nat)
    requires OneSpare(h, l) && b in l.ls && Flags(h.m, b) == USED && Prev(h.m, b) != Last(l.bs)
    ensures var h' := FreeUsed(h, b); !Ends(h'.m, h'.head)
  {
    LinksOfListed(h, l, IndexOf(l.ls, b));
    PushedEndsIff(h, l, b);
  }

  /** A block that is preceded on the list by the free spare one is merged into that, although it does
      not lie behind it. */
  lemma IntoSpare(h: Heap, l: Layout, b: nat)
    requires OneSpare(h, l) && b in l.ls && b != Last(l.bs)
    requires FreeBlock(h.m, Prev(h.m, b)) && Prev(h.m, b) == Last(l.bs)
    ensures Size(FreeUsed(h, b).m, Last(l.bs)) == Size(h.m, Last(l.bs)) + HEADER + Size(h.m, b)
  {
    var f, k := Last(l.bs), IndexOf(l.ls, b);
    LinksOfListed(h, l, k);
    var x := Next(h.m, b);
    assert x != f;
    BlocksClear(h, l, b, f);
    LastIsLast(h, l, b);
    Unwrapped(Size(h.m, f) + HEADER + Size(h.m, b));
    if x != 0 {
      assert x in l.bs;
      MarkedLooksSame(h.m, l.bs, h.base, h.end, b, x);
      BlocksClear(h, l, x, f);
    }
    MergedSize(h, b, f, x);
  }

  lemma MergedSize(h: Heap, b: nat, f: nat, x: nat)
    requires x == Next(h.m, b) && f == Prev(h.m, b) && FreeBlock(h.m, f)
    requires !FreeBlock(h.m[b + 16 := FREE], x) && b != f && Clear(b, f) && (x == 0 || Clear(x, f))
    ensures Size(FreeUsed(h, b).m, f) == U32(Size(h.m, f) + HEADER + Size(h.m, b))
  {
  }

  /** And the spare block then reaches past the end of the heap. */
  lemma ListedReleaseBreaks(h: Heap, l: Layout, b: nat, l': Layout)
    requires OneSpare(h, l) && b in l.ls && Flags(h.m, b) == USED
    ensures !Consistent(FreeUsed(h, b), l')
  {
    var h', f := FreeUsed(h, b), Last(l.bs);
    if Prev(h.m, b) != f {
      ListedNeverEnds(h, l, b);
      if Consistent(h', l') {
        SoundEnds(h', l');
      }
    } else {
      LastIsLast(h, l, b);
      SparePrecedes(h, l, b);
      IntoSpare(h, l, b);
      if Consistent(h', l') {
        var j := IndexOf(l.ls, f);
        SameUpTo(h, l, b, j, l');
        ListedBlock(h', l', j);
      }
    }
  }

  lemma SparePrecedes(h: Heap, l: Layout, b: nat)
    requires OneSpare(h, l) && b in l.ls && Prev(h.m, b) == Last(l.bs)
    ensures b != Last(l.bs) && Last(l.bs) in l.ls && FreeBlock(h.m, Last(l.bs))
  {
    var k := IndexOf(l.ls, b);
    LinksOfListed(h, l, k);
    BlockPositive(h, l, Last(l.bs));
    TileMagic(h, l, Last(l.bs));
    assert TileAt(h.m, l.bs, h.end, |l.bs| - 1);
  }

  lemma SameUpTo(h: Heap, l: Layout, b: nat, j: nat, l': Layout)
    requires Consistent(h, l) && b in l.ls && FreeBlock(h.m, Prev(h.m, b)) && j < |l.ls| && l.ls[j] == Prev(h.m, b)
    requires Consistent(FreeUsed(h, b), l')
    ensures j < |l'.ls| && l'.ls[j] == l.ls[j]
  {
    var h', k := FreeUsed(h, b), IndexOf(l.ls, b);
    LinksOfListed(h, l, k);
    OnePlace(l.ls, j, k - 1);
    LeftAt(h, l, b, b);
    forall p | 0 <= p < j ensures Next(h'.m, l.ls[p]) == Next(h.m, l.ls[p]) {
      assert l.ls[p] in l.ls && l.ls[p] != l.ls[j] && l.ls[p] != l.ls[k];
      LeftAt(h, l, b, l.ls[p]);
    }
    SameList(h.m, l.ls, h'.m, l'.ls, h.head, j);
  }

  // ---------------------------------------------------------------- the payloads that remain

  /** A release leaves the blocks of the other allocations, their sizes and that they are in use. */
  lemma OthersKept(h: Heap, l: Layout, i: nat, c: nat)
    requires Releasable(h, l, i) && c in l.bs && Flags(h.m, c) == USED && c != l.bs[i]
    ensures c in FreedBlocks(h.m, l.bs, i)
    ensures var m' := FreeUsed(h, l.bs[i]).m; Size(m', c) == Size(h.m, c) && Flags(m', c) == USED
  {
    var b := l.bs[i];
    BeyondListed(h, l, b);
    FreedMembers(h, l, i, c);
    if FreeBlock(h.m, Prev(h.m, b)) {
      LeftAt(h, l, b, c);
    } else {
      PushedAt(h, l, b, c);
    }
  }

  /** What is left of the live allocations when one is released. */
  function Others(live: seq<Alloc>, i: nat): (r: seq<Alloc>)
    requires i < |live|
    ensures |r| == |live| - 1
  {
    live[..i] + live[i + 1..]
  }

  lemma {:induction false} OthersLive(live: seq<Alloc>, i: nat, a: Alloc)
    requires i < |live| && forall p, q :: 0 <= p < q < |live| ==> live[p].ptr != live[q].ptr
    requires a in Others(live, i)
    ensures a in live && a.ptr != live[i].ptr
  {
    if a in live[..i] {
      var p :| 0 <= p < i && live[p] == a;
    } else {
      var p :| 0 <= p < |live| - i - 1 && live[i + 1..][p] == a;
      assert live[i + 1 + p] == a;
    }
  }

  lemma {:induction false} OthersDiffer(live: seq<Alloc>, i: nat, p: nat, q: nat)
    requires i < |live| && forall p, q :: 0 <= p < q < |live| ==> live[p].ptr != live[q].ptr
    requires p < q < |live| - 1
    ensures Others(live, i)[p].ptr != Others(live, i)[q].ptr
  {
    var r := Others(live, i);
    assert r[p] == live[if p < i then p else p + 1] && r[q] == live[if q < i then q else q + 1];
  }

  predicate IsLive(w: World, i: nat) {
    i < |w.live| && HEADER <= w.live[i].ptr < TWO_32 && w.live[i].ptr - HEADER in w.l.bs
  }

  lemma LiveBlock(w: World, i: nat)
    requires AllOwned(w) && i < |w.live|
    ensures IsLive(w, i) && Flags(w.h.m, w.live[i].ptr - HEADER) == USED
    ensures Kfree(w.h, w.live[i].ptr) == FreeUsed(w.h, w.live[i].ptr - HEADER)
  {
    var a := w.live[i];
    assert a in w.live && Owned(w.h, w.l, a);
    OwnedInHeap(w.h, w.l, a);
    TileMagic(w.h, w.l, a.ptr - HEADER);
    Unwrapped(a.ptr - HEADER);
  }

  lemma OtherOwned(w: World, k: nat, l': Layout, a: Alloc)
    requires Releasable(w.h, w.l, k) && Owned(w.h, w.l, a) && a.ptr != w.l.bs[k] + HEADER
    requires l'.bs == FreedBlocks(w.h.m, w.l.bs, k)
    ensures Owned(FreeUsed(w.h, w.l.bs[k]), l', a)
  {
    OthersKept(w.h, w.l, k, a.ptr - HEADER);
  }

  /** Every other payload is still owned in whatever layout makes the heap sound again. */
  lemma ReleaseKeepsOwned(w: World, i: nat, k: nat, l': Layout)
    requires AllOwned(w) && i < |w.live| && Releasable(w.h, w.l, k) && w.live[i].ptr == w.l.bs[k] + HEADER
    requires HeapOk(FreeUsed(w.h, w.l.bs[k]), l')
    ensures AllOwned(World(FreeUsed(w.h, w.l.bs[k]), l', Others(w.live, i)))
  {
    var h' := FreeUsed(w.h, w.l.bs[k]);
    ReleasedTiled(w.h, w.l, k);
    TilingUnique(h'.m, l'.bs, FreedBlocks(w.h.m, w.l.bs, k), h'.base, h'.end);
    forall a | a in Others(w.live, i) ensures Owned(h', l', a) {
      OthersLive(w.live, i, a);
      OtherOwned(w, k, l', a);
    }
    forall p, q | 0 <= p < q < |Others(w.live, i)| ensures Others(w.live, i)[p].ptr != Others(w.live, i)[q].ptr {
      OthersDiffer(w.live, i, p, q);
    }
  }

  /** A release keeps the heap sound and the remaining payloads owned exactly when it fits the list. */
  lemma KfreeKeepsWorldIff(w: World, i: nat, k: nat)
    requires WorldOk(w) && i < |w.live| && Releasable(w.h, w.l, k) && w.live[i].ptr == w.l.bs[k] + HEADER
    ensures w.live[i].ptr < TWO_32
    ensures (exists l' :: WorldOk(World(Kfree(w.h, w.live[i].ptr), l', Others(w.live, i))))
       <==> ReleaseFits(w.h, w.l, w.l.bs[k])
  {
    LiveBlock(w, i);
    WorldsOf(w, i, k, Kfree(w.h, w.live[i].ptr));
  }

  lemma WorldsOf(w: World, i: nat, k: nat, h': Heap)
    requires AllOwned(w) && i < |w.live| && Releasable(w.h, w.l, k) && w.live[i].ptr == w.l.bs[k] + HEADER
    requires h' == FreeUsed(w.h, w.l.bs[k])
    ensures (exists l' :: WorldOk(World(h', l', Others(w.live, i)))) <==> ReleaseFits(w.h, w.l, w.l.bs[k])
  {
    ReleaseIsSoundIff(w.h, w.l, k);
    forall l' ensures WorldOk(World(h', l', Others(w.live, i))) <==> HeapOk(h', l') {
      SoundIsEnough(w, i, k, l');
    }
  }

  lemma SoundIsEnough(w: World, i: nat, k: nat, l': Layout)
    requires AllOwned(w) && i < |w.live| && Releasable(w.h, w.l, k) && w.live[i].ptr == w.l.bs[k] + HEADER
    ensures var h' := FreeUsed(w.h, w.l.bs[k]); WorldOk(World(h', l', Others(w.live, i))) <==> HeapOk(h', l')
  {
    if HeapOk(FreeUsed(w.h, w.l.bs[k]), l') {
      ReleaseKeepsOwned(w, i, k, l');
    }
  }

  // ---------------------------------------------------------------- runs of both calls

  /** A call of `kmalloc`, or of `kfree` on the `i`-th allocation that is live. */
  datatype Call = Malloc(req: nat) | Free(i: nat)

  /** Heap, blocks, list and live allocations after a call; a released block is first on the list. */
  function After(w: World, c: Call): (r: World)
    requires ListIn(w.l)
    ensures ListIn(r.l)
  {
    match c
    case Malloc(req) => KmallocListIn(w, req); Kmalloc(w, req)
    case Free(i) =>
      if !IsLive(w, i) then w
      else
        var ptr := w.live[i].ptr;
        World(Kfree(w.h, ptr), w.l.(ls := [ptr - HEADER] + w.l.ls), Others(w.live, i))
  }

  /** What a call must meet: a request finds room for a header, and a released block was handed out as
      a whole, so that it is off the list. */
  ghost predicate MayCall(w: World, c: Call) {
    match c
    case Malloc(req) => RoomForHeader(w, req)
    case Free(i) => i < |w.live| && w.live[i].ptr - HEADER !in w.l.ls
  }

  /** The heap is consistent, every live allocation owns a block, and there is one spare block. */
  ghost predicate InOrder(w: World) {
    AllOwned(w) && OneSpare(w.h, w.l)
  }

  /** A used block that is off the list is the last one. */
  lemma OffListIsLast(h: Heap, l: Layout, b: nat)
    requires OneSpare(h, l) && b in l.bs && b !in l.ls
    ensures b == Last(l.bs)
  {
  }

  lemma OwnedAfterSpare(h: Heap, l: Layout, a: Alloc)
    requires OneSpare(h, l) && Flags(h.m, Last(l.bs)) == USED && Owned(h, l, a) && a.ptr != Last(l.bs) + HEADER
    ensures Owned(FreeUsed(h, Last(l.bs)), Layout(l.bs, [Last(l.bs)] + l.ls), a)
  {
    SpareReleased(h, l);
  }

  lemma FreeKeepsOrder(w: World, i: nat)
    requires InOrder(w) && i < |w.live| && w.live[i].ptr - HEADER !in w.l.ls
    ensures InOrder(After(w, Free(i)))
  {
    LiveBlock(w, i);
    var f, w' := w.live[i].ptr - HEADER, After(w, Free(i));
    OffListIsLast(w.h, w.l, f);
    SpareReleased(w.h, w.l);
    forall a | a in w'.live ensures Owned(w'.h, w'.l, a) {
      OthersLive(w.live, i, a);
      OwnedAfterSpare(w.h, w.l, a);
    }
    forall p, q | 0 <= p < q < |w'.live| ensures w'.live[p].ptr != w'.live[q].ptr {
      OthersDiffer(w.live, i, p, q);
    }
  }

  /** A call within its condition keeps everything in order: payloads that are live stay owned. */
  lemma CallKeepsOrder(w: World, c: Call)
    requires InOrder(w) && MayCall(w, c)
    ensures InOrder(After(w, c)) && After(w, c).h.base == w.h.base && After(w, c).h.end == w.h.end
  {
    match c
    case Malloc(req) =>
      KmallocKeepsOwned(w, req);
      KmallocKeepsSpare(w, req);
    case Free(i) =>
      FreeKeepsOrder(w, i);
      LiveBlock(w, i);
  }

  /** A call outside its condition leaves a heap that no layout makes consistent. */
  lemma CallBreaks(w: World, c: Call, l': Layout)
    requires InOrder(w) && !MayCall(w, c) && (c.Free? ==> c.i < |w.live|)
    ensures !Consistent(After(w, c).h, l')
  {
    match c
    case Malloc(req) =>
      var need := Align(req);
      var k := Search(w.h.m, w.l.ls, need, 0);
      var f := w.l.ls[k];
      assert f in w.l.ls;
      FreeIsLast(w.h, w.l, f);
      forall j | 0 <= j < k ensures w.l.ls[j] < f {
        assert w.l.ls[j] in w.l.ls && w.l.ls[j] != w.l.ls[k];
        LastIsLast(w.h, w.l, w.l.ls[j]);
      }
      TooSmallBreaksHeap(w.h, w.l, k, need, l');
    case Free(i) =>
      LiveBlock(w, i);
      ListedReleaseBreaks(w.h, w.l, w.live[i].ptr - HEADER, l');
  }

  function RunCalls(w: World, cs: seq<Call>): (r: World)
    requires ListIn(w.l)
    ensures ListIn(r.l)
  {
    if cs == [] then w else After(RunCalls(w, cs[..|cs| - 1]), cs[|cs| - 1])
  }

  lemma {:induction false} RunKeepsOrder(w: World, cs: seq<Call>)
    requires InOrder(w)
    requires forall n :: 0 <= n < |cs| ==> MayCall(RunCalls(w, cs[..n]), cs[n])
    ensures var r := RunCalls(w, cs); InOrder(r) && r.h.base == w.h.base && r.h.end == w.h.end
  {
    if cs != [] {
      var n := |cs| - 1;
      var before := cs[..n];
      forall m | 0 <= m < n ensures MayCall(RunCalls(w, before[..m]), before[m]) {
        assert before[..m] == cs[..m];
      }
      RunKeepsOrder(w, before);
      CallKeepsOrder(RunCalls(w, before), cs[n]);
    }
  }

  /** Over every run of `kmalloc` and `kfree` from `mem_init` in which every call meets its condition: the
      blocks tile the heap, the list ends, and the live payloads lie in the heap and are pairwise
      disjoint, headers included. The next call keeps it so exactly when it meets its condition too. */
  lemma RunIsSoundIff(m: Memory, base: nat, size: nat, cs: seq<Call>, c: Call)
    requires 0 < base && size >= HEADER && base + size < TWO_32
    requires forall n :: 0 <= n < |cs| ==> MayCall(RunCalls(Boot(m, base, size), cs[..n]), cs[n])
    ensures var w := RunCalls(Boot(m, base, size), cs);
      && w.h.base == base && w.h.end == base + size && Consistent(w.h, w.l) && Ends(w.h.m, w.h.head)
      && (forall a :: a in w.live ==> InHeap(w.h, a))
      && (forall i, j :: 0 <= i < j < |w.live| ==> Disjoint(w.live[i], w.live[j]))
      && (c.Malloc? || c.i < |w.live| ==>
            ((exists l' :: Consistent(After(w, c).h, l')) <==> MayCall(w, c)))
  {
    BootHasSpare(m, base, size);
    RunKeepsOrder(Boot(m, base, size), cs);
    var w := RunCalls(Boot(m, base, size), cs);
    WorldPayloads(w);
    SoundEnds(w.h, w.l);
    if MayCall(w, c) {
      CallKeepsOrder(w, c);
    } else if c.Malloc? || c.i < |w.live| {
      forall l' ensures !Consistent(After(w, c).h, l') {
        CallBreaks(w, c, l');
      }
    }
  }

  lemma ReleasableIsLast(w: World, i: nat)
    requires InOrder(w) && MayCall(w, Free(i))
    ensures w.live[i].ptr == Last(w.l.bs) + HEADER
  {
    LiveBlock(w, i);
    OffListIsLast(w.h, w.l, w.live[i].ptr - HEADER);
  }

  lemma SameReleasable(w: World, i: nat, j: nat)
    requires InOrder(w) && MayCall(w, Free(i)) && MayCall(w, Free(j))
    ensures i == j
  {
    ReleasableIsLast(w, i);
    ReleasableIsLast(w, j);
    SamePointer(w.live, i, j);
  }

  lemma SamePointer(live: seq<Alloc>, i: nat, j: nat)
    requires forall p, q :: 0 <= p < q < |live| ==> live[p].ptr != live[q].ptr
    requires i < |live| && j < |live| && live[i].ptr == live[j].ptr
    ensures i == j
  {
  }

  /** So at most one of the live allocations can be released. */
  lemma OneReleasable(m: Memory, base: nat, size: nat, cs: seq<Call>, i: nat, j: nat)
    requires 0 < base && size >= HEADER && base + size < TWO_32
    requires forall n :: 0 <= n < |cs| ==> MayCall(RunCalls(Boot(m, base, size), cs[..n]), cs[n])
    requires var w := RunCalls(Boot(m, base, size), cs); MayCall(w, Free(i)) && MayCall(w, Free(j))
    ensures i == j
  {
    BootHasSpare(m, base, size);
    RunKeepsOrder(Boot(m, base, size), cs);
    SameReleasable(RunCalls(Boot(m, base, size), cs), i, j);
  }

  /** On an ascending list, releasing an allocation leaves a list that ends exactly when its block is
      off the list. */
  lemma ReleaseEndsIff(w: World, i: nat)
    requires WorldOk(w) && OneSpare(w.h, w.l) && i < |w.live|
    ensures w.live[i].ptr < TWO_32
    ensures var h := Kfree(w.h, w.live[i].ptr); Ends(h.m, h.head) <==> w.live[i].ptr - HEADER !in w.l.ls
  {
    LiveBlock(w, i);
    var b := w.live[i].ptr - HEADER;
    if b in w.l.ls {
      SortedNeverEnds(w.h, w.l, b);
    } else {
      OffListIsLast(w.h, w.l, b);
      SpareEnds(w.h, w.l, FreeUsed(w.h, b));
    }
  }

  lemma SortedNeverEnds(h: Heap, l: Layout, b: nat)
    requires OneSpare(h, l) && Sorted(l.ls) && b in l.ls && Flags(h.m, b) == USED
    ensures var h' := FreeUsed(h, b); !Ends(h'.m, h'.head)
  {
    BeyondOrdered(h, l, IndexOf(l.ls, b));
    LastIsLast(h, l, b);
    ListedNeverEnds(h, l, b);
  }

  lemma SpareEnds(h: Heap, l: Layout, h': Heap)
    requires OneSpare(h, l) && Flags(h.m, Last(l.bs)) == USED && h' == FreeUsed(h, Last(l.bs))
    ensures Ends(h'.m, h'.head)
  {
    SpareReleased(h, l);
    SoundEnds(h', Layout(l.bs, [Last(l.bs)] + l.ls));
  }

  /** So it is after every run of `kmalloc` from `mem_init`. */
  lemma ReleasedListEndsIff(m: Memory, base: nat, size: nat, reqs: seq<nat>, w: World, i: nat)
    requires 0 < base && size >= HEADER && base + size < TWO_32
    requires forall n :: 0 <= n < |reqs| ==> RoomForHeader(RunKmalloc(Boot(m, base, size), reqs[..n]), reqs[n])
    requires w == RunKmalloc(Boot(m, base, size), reqs) && i < |w.live|
    ensures w.live[i].ptr < TWO_32
    ensures var h := Kfree(w.h, w.live[i].ptr); Ends(h.m, h.head) <==> w.live[i].ptr - HEADER !in w.l.ls
  {
    InitOk(m, base, size);
    BootHasSpare(m, base, size);
    RunKeepsWorld(Boot(m, base, size), reqs);
    RunKeepsSpare(Boot(m, base, size), reqs);
    ReleaseEndsIff(w, i);
  }

  lemma {:induction false} RunKeepsSpare(w: World, reqs: seq<nat>)
    requires WorldOk(w) && OneSpare(w.h, w.l)
    requires forall n :: 0 <= n < |reqs| ==> RoomForHeader(RunKmalloc(w, reqs[..n]), reqs[n])
    ensures var r := RunKmalloc(w, reqs); OneSpare(r.h, r.l)
  {
    if reqs != [] {
      var n := |reqs| - 1;
      var before := reqs[..n];
      forall m | 0 <= m < n ensures RoomForHeader(RunKmalloc(w, before[..m]), before[m]) {
        assert before[..m] == reqs[..m];
      }
      RunKeepsSpare(w, before);
      KmallocKeepsSpare(RunKmalloc(w, before), reqs[n]);
    }
  }

  // ---------------------------------------------------------------- concrete runs

  lemma FirstOfTwo(m: Memory, base: nat)
    requires 0 < base && base + 1024 < TWO_32
    ensures var w := Kmalloc(Boot(m, base, 1024), 4);
      && HeapOk(w.h, w.l) && w.l == Layout([base, base + 24], [base, base + 24]) && w.live == [Alloc(base + HEADER, 4)]
      && Flags(w.h.m, base) == USED && Flags(w.h.m, base + 24) == FREE
      && Size(w.h.m, base) == 4 && Size(w.h.m, base + 24) == 980 && Prev(w.h.m, base) == 0
  {
    InitOk(m, base, 1024);
    var w := Boot(m, base, 1024);
    FirstSplit(w.h, w.l, base);
    FirstCall(w, base);
  }

  lemma FirstCall(w: World, base: nat)
    requires w.l == Layout([base], [base]) && Fits(w.h.m, base, 4) && w.live == []
    ensures Kmalloc(w, 4) ==
      World(Allocate(w.h, base, 4), AllocateLayout(w.h, w.l, 0, 4), [Alloc(base + HEADER, 4)])
  {
    assert Align(4) == 4;
    assert Search(w.h.m, [base], 4, 0) == 0;
  }

  lemma FirstSplit(h: Heap, l: Layout, base: nat)
    requires HeapOk(h, l) && l == Layout([base], [base]) && Size(h.m, base) == 1004 && Flags(h.m, base) == FREE
    ensures var r, l' := Allocate(h, base, 4), AllocateLayout(h, l, 0, 4);
      && HeapOk(r, l') && l' == Layout([base, base + 24], [base, base + 24])
      && Flags(r.m, base) == USED && Flags(r.m, base + 24) == FREE
      && Size(r.m, base) == 4 && Size(r.m, base + 24) == 980 && Prev(r.m, base) == 0
  {
    AllocateOk(h, l, 0, 4);
    FirstWords(h, l, base);
    FirstLayout(h, l, base);
    assert LinkAt(Allocate(h, base, 4).m, [base, base + 24], 0);
  }

  lemma FirstWords(h: Heap, l: Layout, base: nat)
    requires HeapOk(h, l) && l == Layout([base], [base]) && Size(h.m, base) == 1004 && Flags(h.m, base) == FREE
    ensures var r := Allocate(h, base, 4);
      && Flags(r.m, base) == USED && Flags(r.m, base + 24) == FREE
      && Size(r.m, base) == 4 && Size(r.m, base + 24) == 980
  {
    AllocateCases(h, l, 0, 4);
    SplitDoneHere(h, l, 0, 4);
  }

  lemma FirstLayout(h: Heap, l: Layout, base: nat)
    requires l == Layout([base], [base]) && Size(h.m, base) == 1004
    ensures AllocateLayout(h, l, 0, 4) == Layout([base, base + 24], [base, base + 24])
  {
    assert IndexOf([base], base) == 0 && Insert([base], 1, base + 24) == [base, base + 24];
  }

  /** The three blocks after two allocations. */
  ghost predicate TwoTaken(w: World, base: nat) {
    var m := w.h.m;
    && HeapOk(w.h, w.l) && w.h.base == base && w.l.ls == [base, base + 24, base + 48]
    && w.live == [Alloc(base + HEADER, 4), Alloc(base + 24 + HEADER, 4)]
    && Flags(m, base) == USED && Flags(m, base + 24) == USED && Flags(m, base + 48) == FREE
    && Size(m, base) == 4 && Size(m, base + 24) == 4 && Size(m, base + 48) == 956
  }

  lemma SecondOfTwo(w: World, base: nat)
    requires HeapOk(w.h, w.l) && w.l == Layout([base, base + 24], [base, base + 24])
    requires Flags(w.h.m, base) == USED && Flags(w.h.m, base + 24) == FREE
    requires Size(w.h.m, base) == 4 && Size(w.h.m, base + 24) == 980 && w.live == [Alloc(base + HEADER, 4)]
    ensures TwoTaken(Kmalloc(w, 4), base)
  {
    AllocateOk(w.h, w.l, 1, 4);
    SecondWords(w.h, w.l, base);
    SecondLayout(w.h, w.l, base);
    SecondCall(w, base);
  }

  lemma SecondWords(h: Heap, l: Layout, base: nat)
    requires Consistent(h, l) && l == Layout([base, base + 24], [base, base + 24])
    requires Flags(h.m, base) == USED && Size(h.m, base) == 4 && Size(h.m, base + 24) == 980
    ensures var m' := Allocate(h, base + 24, 4).m;
      && Flags(m', base) == USED && Flags(m', base + 24) == USED && Flags(m', base + 48) == FREE
      && Size(m', base) == 4 && Size(m', base + 24) == 4 && Size(m', base + 48) == 956
  {
    AllocateKeeps(h, l, 1, 4, base);
    SecondSplit(h, l, base);
  }

  lemma SecondSplit(h: Heap, l: Layout, base: nat)
    requires Consistent(h, l) && l == Layout([base, base + 24], [base, base + 24]) && Size(h.m, base + 24) == 980
    ensures var m' := Allocate(h, base + 24, 4).m;
      && Flags(m', base + 24) == USED && Flags(m', base + 48) == FREE
      && Size(m', base + 24) == 4 && Size(m', base + 48) == 956
  {
    AllocateCases(h, l, 1, 4);
    SplitDoneHere(h, l, 1, 4);
  }

  lemma SecondLayout(h: Heap, l: Layout, base: nat)
    requires l == Layout([base, base + 24], [base, base + 24]) && Size(h.m, base + 24) == 980
    ensures AllocateLayout(h, l, 1, 4).ls == [base, base + 24, base + 48]
  {
    assert Insert(l.ls, 2, base + 48) == [base, base + 24, base + 48];
  }

  lemma SecondCall(w: World, base: nat)
    requires w.l == Layout([base, base + 24], [base, base + 24]) && Flags(w.h.m, base) == USED
    requires Fits(w.h.m, base + 24, 4)
    ensures Kmalloc(w, 4) == World(Allocate(w.h, base + 24, 4), AllocateLayout(w.h, w.l, 1, 4),
                                   w.live + [Alloc(base + 24 + HEADER, 4)])
  {
    assert Align(4) == 4;
    assert Search(w.h.m, w.l.ls, 4, 1) == 1;
  }

  lemma TwoAllocations(m: Memory, base: nat)
    requires 0 < base && base + 1024 < TWO_32
    ensures TwoTaken(RunKmalloc(Boot(m, base, 1024), [4, 4]), base)
    ensures RunKmalloc(Boot(m, base, 1024), [4, 4]).h.end == base + 1024
  {
    FirstOfTwo(m, base);
    RunOfTwo(Boot(m, base, 1024), 4, 4);
    SecondOfTwo(Kmalloc(Boot(m, base, 1024), 4), base);
  }

  lemma RunOfTwo(w: World, a: nat, b: nat)
    requires ListIn(w.l)
    ensures ListIn(Kmalloc(w, a).l) && RunKmalloc(w, [a, b]) == Kmalloc(Kmalloc(w, a), b)
  {
    KmallocListIn(w, a);
    assert [a, b][..1] == [a] && [a][..0] == [];
    assert RunKmalloc(w, [a]) == Kmalloc(w, a);
  }

  /** The shortest case: one small allocation from a fresh heap, released again. It merges with the rest
      it was split from and is then put in front of itself. */
  lemma ReleaseAfterOneLoops(m: Memory, base: nat)
    requires 0 < base && base + 1024 < TWO_32
    ensures var w := Kmalloc(Boot(m, base, 1024), 4);
      var h := Kfree(w.h, base + HEADER);
      w.live == [Alloc(base + HEADER, 4)] && forall n: nat :: Walk(h.m, h.head, n) != 0
  {
    FirstOfTwo(m, base);
    FirstReleased(Kmalloc(Boot(m, base, 1024), 4), base);
  }

  /** Without a merge it is the same: two small allocations from a fresh heap, then the first is
      released. */
  lemma ReleaseAfterTwoLoops(m: Memory, base: nat)
    requires 0 < base && base + 1024 < TWO_32
    ensures var w := RunKmalloc(Boot(m, base, 1024), [4, 4]);
      var h := Kfree(w.h, base + HEADER);
      w.live == [Alloc(base + HEADER, 4), Alloc(base + 24 + HEADER, 4)] && forall n: nat :: Walk(h.m, h.head, n) != 0
  {
    TwoAllocations(m, base);
    var w := RunKmalloc(Boot(m, base, 1024), [4, 4]);
    assert w.l.ls[0] in w.l.ls;
    LinksOfListed(w.h, w.l, 0);
    FirstReleased(w, base);
  }

  lemma FirstReleased(w: World, base: nat)
    requires HeapOk(w.h, w.l) && base + HEADER < TWO_32
    requires base in w.l.bs && base in w.l.ls
    requires Flags(w.h.m, base) == USED && Prev(w.h.m, base) == 0
    ensures var h := Kfree(w.h, base + HEADER); forall n: nat :: Walk(h.m, h.head, n) != 0
  {
    BlockPositive(w.h, w.l, base);
    LinksOfListed(w.h, w.l, IndexOf(w.l.ls, base));
    ListEndsInOrder(w.h, w.l, base);
    TileMagic(w.h, w.l, base);
    assert U32(base + HEADER - HEADER) == base;
  }

  /** Releasing the second of two: it absorbs the rest and comes first, and the first leads back to it. */
  lemma SecondBack(h: Heap, a: nat)
    requires 0 < a && h.head == a && Flags(h.m, a) == USED && Size(h.m, a) == 4 && Magic(h.m, a) == MAGIC
    requires Magic(h.m, a + 24) == MAGIC && Size(h.m, a + 24) == 4
    requires Prev(h.m, a + 24) == a && Next(h.m, a + 24) == a + 48
    requires FreeBlock(h.m, a + 48) && Size(h.m, a + 48) == 956 && Next(h.m, a + 48) == 0
    ensures var r := FreeUsed(h, a + 24);
      && r.head == a + 24 && FreeBlock(r.m, a + 24) && Next(r.m, a + 24) == a && Size(r.m, a + 24) == 980
      && Next(r.m, a) == Next(h.m, a) && Size(r.m, a) == 4 && Magic(r.m, a) == MAGIC && Flags(r.m, a) == USED
      && r.end == h.end && r.base == h.base
  {
    var m1 := h.m[a + 24 + 16 := FREE];
    assert FreeBlock(m1, a + 48);
    var m2 := Merge(m1, a + 24, a + 48);
    assert Prev(m2, a + 24) == a && !FreeBlock(m2, a);
    assert FreeUsed(h, a + 24) == h.(m := Push(m2, a + 24, a), head := a + 24);
  }

  /** After the release of the second the heap is tiled, and the free right neighbour of the first leads
      back to it: the condition of `KfreeTilesIff` fails, and so does the tiling of what is left. */
  lemma FirstLeadsBack(h: Heap, a: nat)
    requires 0 < a && h.base == a && h.end == a + 1024 < TWO_32 && h.head == a + 24
    requires FreeBlock(h.m, a + 24) && Next(h.m, a + 24) == a && Size(h.m, a + 24) == 980
    requires Next(h.m, a) == a + 24 && Size(h.m, a) == 4 && Magic(h.m, a) == MAGIC && Flags(h.m, a) == USED
    ensures Tiled(h.m, [a, a + 24], h.base, h.end) && NeighbourLinks(h.m, [a, a + 24], 0) && LeadsBack(h.m, a)
    ensures FreedBlocks(h.m, [a, a + 24], 0) == [a] && !Tiled(FreeUsed(h, a).m, [a], h.base, h.end)
  {
    var bs := [a, a + 24];
    assert TileAt(h.m, bs, h.end, 0) && TileAt(h.m, bs, h.end, 1);
    assert bs[1] in bs && bs[0] in bs;
    assert Without(bs, 1) == [a];
    KfreeTilesIff(h, bs, 0);
  }

  lemma TwoWords(w: World, base: nat)
    requires TwoTaken(w, base)
    ensures 0 < base && w.h.head == base && w.h.base == base
    ensures Magic(w.h.m, base) == MAGIC && Magic(w.h.m, base + 24) == MAGIC && FreeBlock(w.h.m, base + 48)
    ensures Next(w.h.m, base) == base + 24
    ensures Prev(w.h.m, base + 24) == base && Next(w.h.m, base + 24) == base + 48 && Next(w.h.m, base + 48) == 0
  {
    LinksOfListed(w.h, w.l, 0);
    LinksOfListed(w.h, w.l, 1);
    LinksOfListed(w.h, w.l, 2);
    forall k | 0 <= k < 3 ensures Magic(w.h.m, w.l.ls[k]) == MAGIC && w.l.ls[k] > 0 {
      assert w.l.ls[k] in w.l.ls;
      TileMagic(w.h, w.l, w.l.ls[k]);
      BlockPositive(w.h, w.l, w.l.ls[k]);
    }
  }

  /** Then releasing the first: it is merged with itself. */
  lemma FirstTwice(h: Heap, a: nat)
    requires 0 < a && h.head == a + 24 && FreeBlock(h.m, a + 24) && Next(h.m, a + 24) == a && Size(h.m, a + 24) == 980
    requires Next(h.m, a) == a + 24 && Size(h.m, a) == 4 && Magic(h.m, a) == MAGIC
    ensures var r := FreeUsed(h, a);
      && r.head == a + 24 && Next(r.m, a + 24) == a && Size(r.m, a + 24) == 980
      && Size(r.m, a) == 2028 && Flags(r.m, a) == FREE && Next(r.m, a) == a && r.end == h.end
  {
    SelfMerge(h, a, a + 24);
    SelfMergeAside(h, a, a + 24, a + 24);
    Unwrapped(2028);
  }

  /** Releasing both, the second first. */
  lemma SecondThenFirst(w: World, base: nat) returns (h: Heap)
    requires TwoTaken(w, base) && base + 24 + HEADER < TWO_32
    ensures h == Kfree(Kfree(w.h, base + 24 + HEADER), base + HEADER) && h.end == w.h.end
    ensures h.head == base + 24 && Next(h.m, base + 24) == base && Size(h.m, base + 24) == 980
    ensures Size(h.m, base) == 2028 && Flags(h.m, base) == FREE && Next(h.m, base) == base
  {
    TwoWords(w, base);
    SecondBack(w.h, base);
    var h1 := FreeUsed(w.h, base + 24);
    FirstTwice(h1, base);
    KfreeUsed(w.h, base + 24);
    KfreeUsed(h1, base);
    h := FreeUsed(h1, base);
  }

  lemma KfreeUsed(h: Heap, b: nat)
    requires b + HEADER < TWO_32 && Magic(h.m, b) == MAGIC && Flags(h.m, b) == USED
    ensures Kfree(h, b + HEADER) == FreeUsed(h, b)
  {
    Unwrapped(b);
  }

  /** Two small allocations from a fresh heap of 1024 bytes, then the second released: the heap is tiled and
      the links are as `KfreeTilesIff` asks, but releasing the first then breaks the tiling. */
  lemma TilingBreaks(m: Memory, base: nat)
    requires 0 < base && base + 1024 < TWO_32
    ensures var w := RunKmalloc(Boot(m, base, 1024), [4, 4]);
      var h, bs := Kfree(w.h, base + 24 + HEADER), [base, base + 24];
      && w.live == [Alloc(base + HEADER, 4), Alloc(base + 24 + HEADER, 4)]
      && h.base == base && h.end == base + 1024 && Tiled(h.m, bs, base, base + 1024)
      && NeighbourLinks(h.m, bs, 0) && LeadsBack(h.m, base)
      && !Tiled(Kfree(h, base + HEADER).m, FreedBlocks(h.m, bs, 0), base, base + 1024)
  {
    TwoAllocations(m, base);
    var w := RunKmalloc(Boot(m, base, 1024), [4, 4]);
    TwoWords(w, base);
    SecondBack(w.h, base);
    var h := FreeUsed(w.h, base + 24);
    FirstLeadsBack(h, base);
    KfreeUsed(w.h, base + 24);
    KfreeUsed(h, base);
  }

  /** Two small allocations from a fresh heap of 1024 bytes, then the second and the first released: the
      first is merged with itself and claims 2028 bytes. First fit gives it to a request for 1500, and
      the header of the rest is stored past the end of the heap. */
  lemma HeaderOutsideHeap(m: Memory, base: nat)
    requires 0 < base && base + 1520 < TWO_32
    ensures var w := RunKmalloc(Boot(m, base, 1024), [4, 4]);
      w.live == [Alloc(base + HEADER, 4), Alloc(base + 24 + HEADER, 4)] &&
      var h := Kfree(Kfree(w.h, base + 24 + HEADER), base + HEADER);
      && Size(h.m, base) == 2028 && !Fits(h.m, Walk(h.m, h.head, 0), 1500)
      && Walk(h.m, h.head, 1) == base && Fits(h.m, base, 1500)
      && var h' := Allocate(h, base, 1500);
         && Prev(h'.m, base + 1520) == base && Size(h'.m, base + 1520) == 508
         && Magic(h'.m, base + 1520) == MAGIC && base + 1520 > h'.end == base + 1024
  {
    TwoAllocations(m, base);
    var w := RunKmalloc(Boot(m, base, 1024), [4, 4]);
    var h := SecondThenFirst(w, base);
    assert Walk(h.m, h.head, 0) == base + 24;
    SplitPastEnd(h, base);
  }

  lemma SplitPastEnd(h: Heap, base: nat)
    requires 0 < base && base + 1520 < TWO_32 && Size(h.m, base) == 2028 && Next(h.m, base) == base
    ensures var h' := Allocate(h, base, 1500);
      && Prev(h'.m, base + 1520) == base && Size(h'.m, base + 1520) == 508 && Magic(h'.m, base + 1520) == MAGIC
      && h'.end == h.end
  {
    Unwrapped(508);
    Unwrapped(base + 1520);
  }

  /** The four blocks after a third allocation, of 28 bytes. */
  ghost predicate ThreeTaken(w: World, base: nat) {
    var m := w.h.m;
    && Consistent(w.h, w.l) && w.h.base == base && w.h.end == base + 1024
    && w.l.ls == [base, base + 24, base + 48, base + 96] && Alloc(base + 48 + HEADER, 28) in w.live
    && Flags(m, base) == USED && Flags(m, base + 24) == USED
    && Flags(m, base + 48) == USED && Flags(m, base + 96) == FREE
    && Size(m, base) == 4 && Size(m, base + 24) == 4 && Size(m, base + 48) == 28 && Size(m, base + 96) == 908
  }

  lemma ThreeAllocations(m: Memory, base: nat)
    requires 0 < base && base + 1024 < TWO_32
    ensures ThreeTaken(RunKmalloc(Boot(m, base, 1024), [4, 4, 28]), base)
  {
    TwoAllocations(m, base);
    assert [4, 4, 28][..2] == [4, 4];
    var w := RunKmalloc(Boot(m, base, 1024), [4, 4]);
    ThirdCall(w, base);
    ThirdKept(w, base);
    ThirdSplit(w.h, w.l, base);
    AllocateConsistent(w.h, w.l, 2, 28);
  }

  lemma ThirdCall(w: World, base: nat)
    requires TwoTaken(w, base)
    ensures w.l.ls[2] in w.l.bs
    ensures Kmalloc(w, 28) == World(Allocate(w.h, base + 48, 28), AllocateLayout(w.h, w.l, 2, 28),
                                    w.live + [Alloc(base + 48 + HEADER, 28)])
  {
    assert w.l.ls[2] in w.l.ls;
    assert Align(28) == 28;
    assert Search(w.h.m, w.l.ls, 28, 2) == 2;
    assert Search(w.h.m, w.l.ls, 28, 1) == 2;
  }

  lemma ThirdKept(w: World, base: nat)
    requires TwoTaken(w, base)
    ensures var m' := Allocate(w.h, base + 48, 28).m;
      && Flags(m', base) == USED && Flags(m', base + 24) == USED && Size(m', base) == 4 && Size(m', base + 24) == 4
  {
    assert w.l.ls[0] in w.l.ls && w.l.ls[1] in w.l.ls && w.l.ls[2] in w.l.ls;
    AllocateKeeps(w.h, w.l, 2, 28, base);
    AllocateKeeps(w.h, w.l, 2, 28, base + 24);
  }

  lemma ThirdSplit(h: Heap, l: Layout, base: nat)
    requires Consistent(h, l) && l.ls == [base, base + 24, base + 48] && Size(h.m, base + 48) == 956
    ensures l.ls[2] in l.bs && AllocateLayout(h, l, 2, 28).ls == [base, base + 24, base + 48, base + 96]
    ensures var r := Allocate(h, base + 48, 28);
      && Flags(r.m, base + 48) == USED && Flags(r.m, base + 96) == FREE
      && Size(r.m, base + 48) == 28 && Size(r.m, base + 96) == 908 && r.base == h.base && r.end == h.end
  {
    assert l.ls[2] in l.ls;
    AllocateCases(h, l, 2, 28);
    SplitDoneHere(h, l, 2, 28);
    assert Insert(l.ls, 3, base + 96) == [base, base + 24, base + 48, base + 96];
  }

  lemma ThreeWords(w: World, base: nat)
    requires ThreeTaken(w, base)
    ensures 0 < base && w.h.head == base && Next(w.h.m, base) == base + 24
    ensures Prev(w.h.m, base + 24) == base && Next(w.h.m, base + 24) == base + 48
    ensures Magic(w.h.m, base) == MAGIC && Magic(w.h.m, base + 24) == MAGIC && Magic(w.h.m, base + 96) == MAGIC
  {
    LinksOfListed(w.h, w.l, 0);
    LinksOfListed(w.h, w.l, 1);
    forall k | 0 <= k < 4 ensures Magic(w.h.m, w.l.ls[k]) == MAGIC && w.l.ls[k] > 0 {
      assert w.l.ls[k] in w.l.ls;
      TileMagic(w.h, w.l, w.l.ls[k]);
      BlockPositive(w.h, w.l, w.l.ls[k]);
    }
  }

  /** Releasing the second of three: it comes first on the list, and the first leads back to it. */
  lemma MiddleBack(h: Heap, a: nat)
    requires 0 < a && h.head == a && Flags(h.m, a) == USED && Magic(h.m, a + 24) == MAGIC
    requires Prev(h.m, a + 24) == a && Next(h.m, a + 24) == a + 48 && Flags(h.m, a + 48) == USED
    ensures var r := FreeUsed(h, a + 24);
      && FreeBlock(r.m, a + 24) && Next(r.m, a + 24) == a && Size(r.m, a + 24) == Size(h.m, a + 24)
      && Next(r.m, a) == Next(h.m, a) && SameBody(h.m, r.m, a) && SameBody(h.m, r.m, a + 96)
      && r.base == h.base && r.end == h.end
  {
    var m1 := h.m[a + 24 + 16 := FREE];
    assert !FreeBlock(m1, a + 48) && !FreeBlock(m1, a);
    assert FreeUsed(h, a + 24) == h.(m := Push(m1, a + 24, a), head := a + 24);
  }

  /** The doubled size can end at another block. Three allocations, then the second and the first released:
      what is left is tiled again, by two blocks, and the third allocation, still live, lies inside the
      free one. */
  lemma LiveInsideFree(m: Memory, base: nat)
    requires 0 < base && base + 1024 < TWO_32
    ensures var w := RunKmalloc(Boot(m, base, 1024), [4, 4, 28]);
      var h := Kfree(Kfree(w.h, base + 24 + HEADER), base + HEADER);
      && Alloc(base + 48 + HEADER, 28) in w.live
      && Tiled(h.m, [base, base + 96], base, base + 1024) && Flags(h.m, base) == FREE
      && base + HEADER <= base + 48 + HEADER && base + 48 + HEADER + 28 <= base + HEADER + Size(h.m, base)
  {
    ThreeAllocations(m, base);
    var w := RunKmalloc(Boot(m, base, 1024), [4, 4, 28]);
    ThreeWords(w, base);
    MiddleBack(w.h, base);
    var h := FreeUsed(w.h, base + 24);
    KfreeUsed(w.h, base + 24);
    KfreeUsed(h, base);
    DoubledToThird(h, base);
  }

  lemma DoubledToThird(h: Heap, a: nat)
    requires 0 < a && FreeBlock(h.m, a + 24) && Next(h.m, a + 24) == a && Size(h.m, a + 24) == 4
    requires Next(h.m, a) == a + 24 && Size(h.m, a) == 4 && Magic(h.m, a) == MAGIC
    requires GoodHeader(h.m, a + 96) && Size(h.m, a + 96) == 908
    ensures var r := FreeUsed(h, a);
      Tiled(r.m, [a, a + 96], a, a + 1024) && Flags(r.m, a) == FREE && Size(r.m, a) == 76
  {
    SelfMerge(h, a, a + 24);
    SelfMergeAside(h, a, a + 24, a + 96);
    Unwrapped(76);
    var r := FreeUsed(h, a);
    assert TileAt(r.m, [a, a + 96], a + 1024, 0) && TileAt(r.m, [a, a + 96], a + 1024, 1);
  }
}

/** The kernel heap: first fit with splitting and coalescing over headers that lie in the heap itself
    (five words: prev, next, size, magic, flags). Memory is a map from addresses to 32-bit words. */
module Heap {
  import opened Machine

  const HEADER := 20
  const MAGIC := 0x4D43424B
  const MIN_SPLIT := 32
  const FREE := 1
  const USED := 0

  type Memory = map<nat, nat>

  function Word(m: Memory, a: nat): nat {
    if a in m then m[a] else 0
  }

  function Prev(m: Memory, b: nat): nat { Word(m, b) }
  function Next(m: Memory, b: nat): nat { Word(m, b + 4) }
  function Size(m: Memory, b: nat): nat { Word(m, b + 8) }
  function Magic(m: Memory, b: nat): nat { Word(m, b + 12) }
  function Flags(m: Memory, b: nat): nat { Word(m, b + 16) }

  // ---------------------------------------------------------------- shape of a heap

  predicate GoodHeader(m: Memory, b: nat) {
    Magic(m, b) == MAGIC && (Flags(m, b) == FREE || Flags(m, b) == USED)
  }

  /** Where block `i` must end: at the next block, or at the end of the heap. */
  function EndOf(bs: seq<nat>, end: nat, i: nat): nat
    requires i < |bs|
  {
    if i + 1 < |bs| then bs[i + 1] else end
  }

  /** Block `i` has a sound header and ends where it must. */
  predicate TileAt(m: Memory, bs: seq<nat>, end: nat, i: nat)
    requires i < |bs|
  {
    GoodHeader(m, bs[i]) && bs[i] + HEADER + Size(m, bs[i]) == EndOf(bs, end, i)
  }

  /** The blocks at `bs` cover [base, end) exactly, one after the other. */
  ghost predicate Tiled(m: Memory, bs: seq<nat>, base: nat, end: nat) {
    |bs| > 0 && bs[0] == base && forall i :: 0 <= i < |bs| ==> TileAt(m, bs, end, i)
  }

  /** Entry `i` of the list is linked to its neighbours there. */
  predicate LinkAt(m: Memory, ls: seq<nat>, i: nat)
    requires i < |ls|
  {
    && 0 < ls[i]
    && Next(m, ls[i]) == (if i + 1 < |ls| then ls[i + 1] else 0)
    && Prev(m, ls[i]) == (if i > 0 then ls[i - 1] else 0)
  }

  /** The list from `head` visits exactly `ls`. */
  ghost predicate Linked(m: Memory, ls: seq<nat>, head: nat) {
    head == (if ls == [] then 0 else ls[0]) && forall i :: 0 <= i < |ls| ==> LinkAt(m, ls, i)
  }

  ghost predicate Sorted(s: seq<nat>) {
    forall i, j :: 0 <= i < j < |s| ==> s[i] < s[j]
  }

  ghost predicate Distinct(s: seq<nat>) {
    forall i, j :: 0 <= i < j < |s| ==> s[i] != s[j]
  }

  lemma {:induction false} BlocksApart(m: Memory, bs: seq<nat>, base: nat, end: nat, i: nat, j: nat)
    requires Tiled(m, bs, base, end) && i < j < |bs|
    ensures bs[i] + HEADER + Size(m, bs[i]) <= bs[j]
    decreases j
  {
    if i + 1 < j {
      BlocksApart(m, bs, base, end, i, j - 1);
    }
    assert TileAt(m, bs, end, j - 1);
  }

  lemma BlockInside(m: Memory, bs: seq<nat>, base: nat, end: nat, i: nat)
    requires Tiled(m, bs, base, end) && i < |bs|
    ensures base <= bs[i] && bs[i] + HEADER + Size(m, bs[i]) <= end
  {
    if i > 0 {
      BlocksApart(m, bs, base, end, 0, i);
    }
    if i + 1 < |bs| {
      BlocksApart(m, bs, base, end, i, |bs| - 1);
    }
    assert TileAt(m, bs, end, |bs| - 1);
  }

  /** Two different blocks, seen from the addresses. */
  lemma DifferentBlocks(m: Memory, bs: seq<nat>, base: nat, end: nat, b: nat, c: nat)
    requires Tiled(m, bs, base, end) && b in bs && c in bs && b != c
    ensures b + HEADER + Size(m, b) <= c || c + HEADER + Size(m, c) <= b
  {
    var i :| 0 <= i < |bs| && bs[i] == b;
    var j :| 0 <= j < |bs| && bs[j] == c;
    if i < j {
      BlocksApart(m, bs, base, end, i, j);
    } else {
      BlocksApart(m, bs, base, end, j, i);
    }
  }

  // ---------------------------------------------------------------- splitting

  /** The stores of the split path: a new header after the allocated part, the two links around it,
      the shortened block marked used. `rest` is the size the new header gets. */
  function SplitMem(m: Memory, b: nat, need: nat, n: nat, rest: nat): Memory {
    var m0 := m[n := b];
    var next := Next(m0, b);
    var m1 := m0[n + 4 := next][n + 8 := rest][n + 12 := MAGIC][n + 16 := FREE][b + 4 := n][b + 8 := need];
    (if next != 0 then m1[next := n] else m1)[b + 16 := USED]
  }

  /** Words that the split path does not store to. */
  predicate Elsewhere(a: nat, b: nat, n: nat, next: nat) {
    && a != n && a != n + 4 && a != n + 8 && a != n + 12 && a != n + 16
    && a != b + 4 && a != b + 8 && a != b + 16 && (next != 0 ==> a != next)
  }

  /** `m'` is `m` after the split path's stores. */
  ghost predicate SplitDone(m: Memory, m': Memory, b: nat, need: nat, n: nat, rest: nat) {
    var next := Next(m, b);
    && (forall a :: Elsewhere(a, b, n, next) ==> Word(m', a) == Word(m, a))
    && Next(m', b) == n && Size(m', b) == need && Flags(m', b) == USED
    && Prev(m', n) == b && Next(m', n) == next && Size(m', n) == rest
    && Magic(m', n) == MAGIC && Flags(m', n) == FREE
    && (next != 0 ==> Prev(m', next) == n)
  }

  lemma SplitStores(m: Memory, b: nat, need: nat, n: nat, rest: nat)
    requires n >= b + HEADER
    requires var x := Next(m, b); x == 0 || x + HEADER <= b || x >= n + HEADER
    ensures SplitDone(m, SplitMem(m, b, need, n, rest), b, need, n, rest)
  {
  }

  /** Any other block keeps its header, but for the back link of the next one in the list. */
  lemma SplitKeeps(m: Memory, m': Memory, b: nat, need: nat, n: nat, rest: nat, c: nat)
    requires SplitDone(m, m', b, need, n, rest) && n >= b + HEADER
    requires c + HEADER <= b || c >= n + HEADER
    requires var x := Next(m, b); x == 0 || x == c || x + HEADER <= c || c + HEADER <= x
    ensures SameHeader(m, m', c) && (c != Next(m, b) ==> Prev(m', c) == Prev(m, c))
  {
    var x := Next(m, b);
    assert Elsewhere(c + 4, b, n, x) && Elsewhere(c + 8, b, n, x);
    assert Elsewhere(c + 12, b, n, x) && Elsewhere(c + 16, b, n, x);
    assert c != x ==> Elsewhere(c, b, n, x);
  }

  /** All of a header but its back link. */
  predicate SameHeader(m: Memory, m': Memory, c: nat) {
    && Next(m', c) == Next(m, c) && Size(m', c) == Size(m, c)
    && Magic(m', c) == Magic(m, c) && Flags(m', c) == Flags(m, c)
  }

  function Insert(s: seq<nat>, i: nat, x: nat): (r: seq<nat>)
    requires i <= |s|
    ensures |r| == |s| + 1
  {
    s[..i] + [x] + s[i..]
  }

  /** A heap: memory, bounds and list head, with the blocks and the list they form. */
  datatype Heap = Heap(m: Memory, base: nat, end: nat, head: nat)
  datatype Layout = Layout(bs: seq<nat>, ls: seq<nat>)

  /** The blocks tile the heap, the list visits no block twice and every free one, and the blocks are
      aligned like the base. */
  ghost predicate Consistent(h: Heap, l: Layout) {
    && 0 < h.base && h.end < TWO_32
    && Tiled(h.m, l.bs, h.base, h.end)
    && Linked(h.m, l.ls, h.head) && Distinct(l.ls)
    && (forall b :: b in l.ls ==> b in l.bs)
    && (forall b :: b in l.bs && Flags(h.m, b) == FREE ==> b in l.ls)
    && (forall b :: b in l.bs ==> b % 4 == h.base % 4)
  }

  /** A sound heap: consistent, with the list in the order of addresses. */
  ghost predicate HeapOk(h: Heap, l: Layout) {
    Consistent(h, l) && Sorted(l.ls)
  }

  /** The next block in the list, and every other block, stay clear of the split. */
  lemma ClearOfSplit(h: Heap, l: Layout, b: nat, c: nat)
    requires Consistent(h, l) && b in l.ls && c in l.bs && c != b
    ensures c + HEADER <= b || c >= b + HEADER + Size(h.m, b)
  {
    DifferentBlocks(h.m, l.bs, h.base, h.end, b, c);
  }

  lemma NextIsBlock(h: Heap, l: Layout, k: nat)
    requires Consistent(h, l) && k < |l.ls|
    ensures Next(h.m, l.ls[k]) == 0 || (Next(h.m, l.ls[k]) in l.bs && Next(h.m, l.ls[k]) != l.ls[k])
    ensures Prev(h.m, l.ls[k]) == 0 || (Prev(h.m, l.ls[k]) in l.bs && Prev(h.m, l.ls[k]) != l.ls[k])
    ensures Next(h.m, l.ls[k]) == 0 || Next(h.m, l.ls[k]) != Prev(h.m, l.ls[k])
  {
    assert LinkAt(h.m, l.ls, k);
    if k + 1 < |l.ls| {
      assert l.ls[k + 1] in l.ls;
    }
    if k > 0 {
      assert l.ls[k - 1] in l.ls;
    }
  }

  /** The address of the block that a split cuts off. */
  function CutAt(b: nat, need: nat): nat {
    b + HEADER + need
  }

  /** What the split does to every other block. */
  lemma SplitEffect(h: Heap, l: Layout, k: nat, need: nat, m': Memory, c: nat)
    requires Consistent(h, l) && k < |l.ls| && need + HEADER <= Size(h.m, l.ls[k])
    requires SplitDone(h.m, m', l.ls[k], need, CutAt(l.ls[k], need), Size(h.m, l.ls[k]) - need - HEADER)
    requires c in l.bs && c != l.ls[k]
    ensures c + HEADER <= l.ls[k] || c >= CutAt(l.ls[k], need) + HEADER
    ensures SameHeader(h.m, m', c) && (c != Next(h.m, l.ls[k]) ==> Prev(m', c) == Prev(h.m, c))
  {
    var b := l.ls[k];
    assert b in l.ls;
    NextIsBlock(h, l, k);
    ClearOfSplit(h, l, b, c);
    var x := Next(h.m, b);
    if x != 0 && x != c {
      DifferentBlocks(h.m, l.bs, h.base, h.end, x, c);
    }
    SplitKeeps(h.m, m', b, need, CutAt(b, need), Size(h.m, b) - need - HEADER, c);
  }

  lemma SplitDoneHere(h: Heap, l: Layout, k: nat, need: nat)
    requires Consistent(h, l) && k < |l.ls| && need + HEADER <= Size(h.m, l.ls[k])
    ensures var b := l.ls[k];
      var n, rest := CutAt(b, need), Size(h.m, b) - need - HEADER;
      SplitDone(h.m, SplitMem(h.m, b, need, n, rest), b, need, n, rest)
  {
    var b := l.ls[k];
    NextClear(h, l, k);
    SplitStores(h.m, b, need, CutAt(b, need), Size(h.m, b) - need - HEADER);
  }

  lemma SplitTiled(h: Heap, l: Layout, k: nat, i: nat, need: nat, m': Memory)
    requires Consistent(h, l) && k < |l.ls| && need + HEADER <= Size(h.m, l.ls[k])
    requires SplitDone(h.m, m', l.ls[k], need, CutAt(l.ls[k], need), Size(h.m, l.ls[k]) - need - HEADER)
    requires i < |l.bs| && l.bs[i] == l.ls[k]
    ensures Tiled(m', Insert(l.bs, i + 1, CutAt(l.ls[k], need)), h.base, h.end)
  {
    var b, n := l.ls[k], CutAt(l.ls[k], need);
    var bs' := Insert(l.bs, i + 1, n);
    assert TileAt(h.m, l.bs, h.end, i);
    assert Magic(m', b) == MAGIC by { assert Elsewhere(b + 12, b, n, Next(h.m, b)) by { NextClear(h, l, k); } }
    forall j | 0 <= j < |bs'| ensures TileAt(m', bs', h.end, j) {
      if j != i && j != i + 1 {
        var o := if j < i then j else j - 1;
        assert TileAt(h.m, l.bs, h.end, o) && l.bs[o] in l.bs && bs'[j] == l.bs[o];
        if o < i {
          BlocksApart(h.m, l.bs, h.base, h.end, o, i);
        } else {
          BlocksApart(h.m, l.bs, h.base, h.end, i, o);
        }
        SplitEffect(h, l, k, need, m', l.bs[o]);
      }
    }
  }

  lemma NextClear(h: Heap, l: Layout, k: nat)
    requires Consistent(h, l) && k < |l.ls|
    ensures var b, x := l.ls[k], Next(h.m, l.ls[k]); x == 0 || x + HEADER <= b || x >= b + HEADER + Size(h.m, b)
  {
    assert l.ls[k] in l.ls;
    NextIsBlock(h, l, k);
    if Next(h.m, l.ls[k]) != 0 {
      ClearOfSplit(h, l, l.ls[k], Next(h.m, l.ls[k]));
    }
  }

  lemma SplitLinked(h: Heap, l: Layout, k: nat, need: nat, m': Memory)
    requires Consistent(h, l) && k < |l.ls| && need + HEADER <= Size(h.m, l.ls[k])
    requires SplitDone(h.m, m', l.ls[k], need, CutAt(l.ls[k], need), Size(h.m, l.ls[k]) - need - HEADER)
    ensures Linked(m', Insert(l.ls, k + 1, CutAt(l.ls[k], need)), h.head)
  {
    var b, n := l.ls[k], CutAt(l.ls[k], need);
    var ls' := Insert(l.ls, k + 1, n);
    assert LinkAt(h.m, l.ls, k);
    assert Prev(m', b) == Prev(h.m, b) by { assert Elsewhere(b, b, n, Next(h.m, b)) by { NextClear(h, l, k); } }
    forall j | 0 <= j < |ls'| ensures LinkAt(m', ls', j) {
      if j != k && j != k + 1 {
        var o := if j < k then j else j - 1;
        assert LinkAt(h.m, l.ls, o) && l.ls[o] in l.ls && ls'[j] == l.ls[o];
        SplitEffect(h, l, k, need, m', l.ls[o]);
      }
    }
  }

  lemma SplitSorted(h: Heap, l: Layout, k: nat, need: nat)
    requires HeapOk(h, l) && k < |l.ls| && need + HEADER <= Size(h.m, l.ls[k])
    ensures Sorted(Insert(l.ls, k + 1, CutAt(l.ls[k], need)))
  {
    var b, n := l.ls[k], CutAt(l.ls[k], need);
    forall j | k < j < |l.ls| ensures n < l.ls[j] {
      assert l.ls[j] in l.ls && b in l.ls;
      ClearOfSplit(h, l, b, l.ls[j]);
    }
  }

  lemma SplitDistinct(h: Heap, l: Layout, k: nat, need: nat)
    requires Consistent(h, l) && k < |l.ls| && need + HEADER <= Size(h.m, l.ls[k])
    ensures Distinct(Insert(l.ls, k + 1, CutAt(l.ls[k], need)))
  {
    var b, n := l.ls[k], CutAt(l.ls[k], need);
    forall j | 0 <= j < |l.ls| ensures n != l.ls[j] {
      assert l.ls[j] in l.ls && b in l.ls;
      if j != k {
        ClearOfSplit(h, l, b, l.ls[j]);
      }
    }
  }

  lemma InsertMembers(s: seq<nat>, i: nat, x: nat, y: nat)
    requires i <= |s|
    ensures y in Insert(s, i, x) <==> y in s || y == x
  {
    assert s == s[..i] + s[i..];
  }

  /** Splitting a block that is at least a header larger than the request keeps the heap consistent. */
  lemma SplitOk(h: Heap, l: Layout, k: nat, i: nat, need: nat, m': Memory)
    requires Consistent(h, l) && k < |l.ls| && need + HEADER <= Size(h.m, l.ls[k]) && need % 4 == 0
    requires SplitDone(h.m, m', l.ls[k], need, CutAt(l.ls[k], need), Size(h.m, l.ls[k]) - need - HEADER)
    requires i < |l.bs| && l.bs[i] == l.ls[k]
    ensures var n := CutAt(l.ls[k], need);
      Consistent(h.(m := m'), Layout(Insert(l.bs, i + 1, n), Insert(l.ls, k + 1, n)))
  {
    var b, n := l.ls[k], CutAt(l.ls[k], need);
    SplitTiled(h, l, k, i, need, m');
    SplitLinked(h, l, k, need, m');
    SplitDistinct(h, l, k, need);
    var bs', ls' := Insert(l.bs, i + 1, n), Insert(l.ls, k + 1, n);
    assert b in l.ls;
    forall c | c in ls' ensures c in bs' {
      InsertMembers(l.ls, k + 1, n, c);
      InsertMembers(l.bs, i + 1, n, c);
    }
    forall c | c in bs'
      ensures c % 4 == h.base % 4 && (Flags(m', c) == FREE ==> c in ls')
    {
      InsertMembers(l.ls, k + 1, n, c);
      InsertMembers(l.bs, i + 1, n, c);
      CutAligned(b, need);
      if c in l.bs && c != b {
        SplitEffect(h, l, k, need, m', c);
      }
    }
  }

  lemma CutAligned(b: nat, need: nat)
    requires need % 4 == 0
    ensures CutAt(b, need) % 4 == b % 4
  {
  }

  // ---------------------------------------------------------------- taking a whole block

  /** The stores that unlink a block and mark it used, and the new list head. */
  function WholeMem(m: Memory, b: nat): Memory {
    var prev, next := Prev(m, b), Next(m, b);
    var m1 := if prev != 0 then m[prev + 4 := next] else m;
    var m2 := if next != 0 then m1[next := prev] else m1;
    m2[b + 16 := USED]
  }

  function WholeHead(h: Heap, b: nat): nat {
    if Prev(h.m, b) != 0 then h.head else Next(h.m, b)
  }

  function Without(s: seq<nat>, k: nat): (r: seq<nat>)
    requires k < |s|
    ensures |r| == |s| - 1
  {
    s[..k] + s[k + 1..]
  }

  /** Words that the unlinking does not store to. */
  predicate Aside(a: nat, b: nat, prev: nat, next: nat) {
    (prev != 0 ==> a != prev + 4) && (next != 0 ==> a != next) && a != b + 16
  }

  ghost predicate WholeDone(m: Memory, m': Memory, b: nat) {
    var prev, next := Prev(m, b), Next(m, b);
    && (forall a :: Aside(a, b, prev, next) ==> Word(m', a) == Word(m, a))
    && (prev != 0 ==> Next(m', prev) == next) && (next != 0 ==> Prev(m', next) == prev)
    && Flags(m', b) == USED
  }

  lemma WholeStores(m: Memory, b: nat)
    requires Prev(m, b) == 0 || Prev(m, b) + HEADER <= b || b + HEADER <= Prev(m, b)
    requires Next(m, b) == 0 || Next(m, b) + HEADER <= b || b + HEADER <= Next(m, b)
    requires Prev(m, b) == 0 || Next(m, b) != Prev(m, b) + 4
    ensures WholeDone(m, WholeMem(m, b), b)
  {
  }

  lemma WholeDoneHere(h: Heap, l: Layout, k: nat)
    requires Consistent(h, l) && k < |l.ls|
    ensures WholeDone(h.m, WholeMem(h.m, l.ls[k]), l.ls[k])
  {
    var b := l.ls[k];
    assert b in l.ls;
    NextIsBlock(h, l, k);
    if Prev(h.m, b) != 0 {
      ClearOfSplit(h, l, b, Prev(h.m, b));
    }
    if Next(h.m, b) != 0 {
      ClearOfSplit(h, l, b, Next(h.m, b));
    }
    if Prev(h.m, b) != 0 && Next(h.m, b) != 0 {
      DifferentBlocks(h.m, l.bs, h.base, h.end, Prev(h.m, b), Next(h.m, b));
    }
    WholeStores(h.m, b);
  }

  /** Block `c` keeps its size, magic and flags, and the links that do not point to `b`. */
  lemma WholeEffect(h: Heap, l: Layout, k: nat, m': Memory, c: nat)
    requires Consistent(h, l) && k < |l.ls| && WholeDone(h.m, m', l.ls[k]) && c in l.bs
    ensures Size(m', c) == Size(h.m, c) && Magic(m', c) == Magic(h.m, c)
    ensures c != l.ls[k] ==> Flags(m', c) == Flags(h.m, c)
    ensures c != Prev(h.m, l.ls[k]) ==> Next(m', c) == Next(h.m, c)
    ensures c != Next(h.m, l.ls[k]) ==> Prev(m', c) == Prev(h.m, c)
  {
    var b := l.ls[k];
    assert b in l.ls;
    NextIsBlock(h, l, k);
    var y, x := Prev(h.m, b), Next(h.m, b);
    if c != b { DifferentBlocks(h.m, l.bs, h.base, h.end, b, c); }
    if x != 0 && x != c { DifferentBlocks(h.m, l.bs, h.base, h.end, x, c); }
    if y != 0 && y != c { DifferentBlocks(h.m, l.bs, h.base, h.end, y, c); }
    if x != 0 { DifferentBlocks(h.m, l.bs, h.base, h.end, x, b); }
    if y != 0 { DifferentBlocks(h.m, l.bs, h.base, h.end, y, b); }
    assert Aside(c + 8, b, y, x) && Aside(c + 12, b, y, x);
    assert c != b ==> Aside(c + 16, b, y, x);
    assert c != y ==> Aside(c + 4, b, y, x);
    assert c != x ==> Aside(c, b, y, x);
  }

  lemma WholeTiled(h: Heap, l: Layout, k: nat, m': Memory)
    requires Consistent(h, l) && k < |l.ls| && WholeDone(h.m, m', l.ls[k])
    ensures Tiled(m', l.bs, h.base, h.end)
  {
    forall j | 0 <= j < |l.bs| ensures TileAt(m', l.bs, h.end, j) {
      assert TileAt(h.m, l.bs, h.end, j);
      WholeEffect(h, l, k, m', l.bs[j]);
    }
  }

  /** One link of a list from which entry `k` was taken. */
  lemma UnlinkedAt(m: Memory, m': Memory, ls: seq<nat>, k: nat, j: nat, o: nat)
    requires k < |ls| && j + 1 < |ls| && o == (if j < k then j else j + 1)
    requires Distinct(ls) && LinkAt(m, ls, o) && LinkAt(m, ls, k)
    requires ls[o] != Prev(m, ls[k]) ==> Next(m', ls[o]) == Next(m, ls[o])
    requires ls[o] != Next(m, ls[k]) ==> Prev(m', ls[o]) == Prev(m, ls[o])
    requires Prev(m, ls[k]) != 0 ==> Next(m', Prev(m, ls[k])) == Next(m, ls[k])
    requires Next(m, ls[k]) != 0 ==> Prev(m', Next(m, ls[k])) == Prev(m, ls[k])
    ensures LinkAt(m', Without(ls, k), j)
  {
    var r := Without(ls, k);
    assert r[j] == ls[o];
    assert ls[o] == Prev(m, ls[k]) <==> o + 1 == k;
    assert ls[o] == Next(m, ls[k]) <==> o == k + 1;
    assert j + 1 < |r| ==> r[j + 1] == if j + 1 < k then ls[j + 1] else ls[j + 2];
    assert j > 0 ==> r[j - 1] == if j - 1 < k then ls[j - 1] else ls[j];
  }

  lemma WholeLinked(h: Heap, l: Layout, k: nat, m': Memory)
    requires Consistent(h, l) && k < |l.ls| && WholeDone(h.m, m', l.ls[k])
    ensures Linked(m', Without(l.ls, k), WholeHead(h, l.ls[k]))
  {
    var ls' := Without(l.ls, k);
    assert LinkAt(h.m, l.ls, k);
    forall j | 0 <= j < |ls'| ensures LinkAt(m', ls', j) {
      var o := if j < k then j else j + 1;
      assert LinkAt(h.m, l.ls, o) && l.ls[o] in l.ls;
      WholeEffect(h, l, k, m', l.ls[o]);
      UnlinkedAt(h.m, m', l.ls, k, j, o);
    }
    if k > 0 {
      assert LinkAt(h.m, l.ls, k - 1);
    }
  }

  /** Taking a block as a whole keeps the heap consistent: the same blocks, one fewer on the list. */
  lemma WholeOk(h: Heap, l: Layout, k: nat, m': Memory)
    requires Consistent(h, l) && k < |l.ls| && WholeDone(h.m, m', l.ls[k])
    ensures Consistent(h.(m := m', head := WholeHead(h, l.ls[k])), Layout(l.bs, Without(l.ls, k)))
  {
    var b, ls' := l.ls[k], Without(l.ls, k);
    WholeTiled(h, l, k, m');
    WholeLinked(h, l, k, m');
    forall c | c in ls' ensures c in l.bs {
      assert c in l.ls;
    }
    forall c | c in l.bs && Flags(m', c) == FREE ensures c in ls' {
      WholeEffect(h, l, k, m', c);
      assert c in l.ls && c != b;
      var o :| 0 <= o < |l.ls| && l.ls[o] == c;
      assert ls'[if o < k then o else o - 1] == c;
    }
  }

  // ---------------------------------------------------------------- kmalloc

  /** The request rounded up to a multiple of four, in 32 bits. */
  function Align(req: nat): (r: nat)
    ensures r % 4 == 0 && r < TWO_32
  {
    U32(req + 3) / 4 * 4
  }

  predicate Fits(m: Memory, b: nat, need: nat) {
    Flags(m, b) == FREE && Size(m, b) >= need
  }

  /** Index of the first entry of the list, from `k` on, that fits; its length if there is none. */
  function Search(m: Memory, ls: seq<nat>, need: nat, k: nat): (r: nat)
    requires k <= |ls|
    ensures k <= r <= |ls| && (r < |ls| ==> Fits(m, ls[r], need))
    ensures forall j :: k <= j < r ==> !Fits(m, ls[j], need)
    decreases |ls| - k
  {
    if k < |ls| && !Fits(m, ls[k], need) then Search(m, ls, need, k + 1) else k
  }

  /** Allocating from the chosen block. The room left is computed in 32 bits, without a check that
      there is room for a header at all. */
  function Allocate(h: Heap, b: nat, need: nat): Heap {
    var rest := U32(Size(h.m, b) - need - HEADER);
    if rest >= MIN_SPLIT then
      h.(m := SplitMem(h.m, b, need, U32(b + HEADER + need), rest))
    else
      h.(m := WholeMem(h.m, b), head := WholeHead(h, b))
  }

  predicate Splits(m: Memory, b: nat, need: nat) {
    U32(Size(m, b) - need - HEADER) >= MIN_SPLIT
  }

  function IndexOf(s: seq<nat>, x: nat): (r: nat)
    requires x in s
    ensures r < |s| && s[r] == x
  {
    if s[0] == x then 0 else 1 + IndexOf(s[1..], x)
  }

  /** The blocks and the list after allocating from entry `k`. */
  function AllocateLayout(h: Heap, l: Layout, k: nat, need: nat): Layout
    requires k < |l.ls| && l.ls[k] in l.bs
  {
    var b := l.ls[k];
    if Splits(h.m, b, need) then
      Layout(Insert(l.bs, IndexOf(l.bs, b) + 1, CutAt(b, need)), Insert(l.ls, k + 1, CutAt(b, need)))
    else
      Layout(l.bs, Without(l.ls, k))
  }

  lemma Unwrapped(x: nat)
    requires x < TWO_32
    ensures U32(x) == x
  {
  }

  /** With room for a header nothing wraps, and the code does one of the two things it means to. */
  lemma AllocateCases(h: Heap, l: Layout, k: nat, need: nat)
    requires Consistent(h, l) && k < |l.ls| && need + HEADER <= Size(h.m, l.ls[k])
    ensures var b, rest := l.ls[k], Size(h.m, l.ls[k]) - need - HEADER;
      && (Splits(h.m, b, need) <==> rest >= MIN_SPLIT)
      && Allocate(h, b, need) ==
           if rest >= MIN_SPLIT then h.(m := SplitMem(h.m, b, need, CutAt(b, need), rest))
           else h.(m := WholeMem(h.m, b), head := WholeHead(h, b))
  {
    var b := l.ls[k];
    assert b in l.ls;
    BlockInside(h.m, l.bs, h.base, h.end, IndexOf(l.bs, b));
    Unwrapped(Size(h.m, b) - need - HEADER);
    Unwrapped(CutAt(b, need));
  }

  lemma AllocateConsistent(h: Heap, l: Layout, k: nat, need: nat)
    requires Consistent(h, l) && k < |l.ls| && need % 4 == 0 && need + HEADER <= Size(h.m, l.ls[k])
    ensures l.ls[k] in l.bs && Consistent(Allocate(h, l.ls[k], need), AllocateLayout(h, l, k, need))
  {
    var b := l.ls[k];
    assert b in l.ls;
    AllocateCases(h, l, k, need);
    if Splits(h.m, b, need) {
      SplitDoneHere(h, l, k, need);
      SplitOk(h, l, k, IndexOf(l.bs, b), need, Allocate(h, b, need).m);
    } else {
      WholeDoneHere(h, l, k);
      WholeOk(h, l, k, Allocate(h, b, need).m);
    }
  }

  lemma AllocateOk(h: Heap, l: Layout, k: nat, need: nat)
    requires HeapOk(h, l) && k < |l.ls| && need % 4 == 0 && need + HEADER <= Size(h.m, l.ls[k])
    ensures l.ls[k] in l.bs && HeapOk(Allocate(h, l.ls[k], need), AllocateLayout(h, l, k, need))
  {
    AllocateConsistent(h, l, k, need);
    AllocateCases(h, l, k, need);
    if Splits(h.m, l.ls[k], need) {
      SplitSorted(h, l, k, need);
    }
  }

  /** Allocating touches no other block, and leaves the chosen one used and large enough. */
  lemma AllocateKeeps(h: Heap, l: Layout, k: nat, need: nat, c: nat)
    requires Consistent(h, l) && k < |l.ls| && need % 4 == 0 && need + HEADER <= Size(h.m, l.ls[k])
    requires c in l.bs && l.ls[k] in l.bs
    ensures var b, h' := l.ls[k], Allocate(h, l.ls[k], need);
      && c in AllocateLayout(h, l, k, need).bs
      && (c != b ==> Size(h'.m, c) == Size(h.m, c) && Flags(h'.m, c) == Flags(h.m, c))
      && (c == b ==> Size(h'.m, c) >= need && Flags(h'.m, c) == USED)
  {
    var b := l.ls[k];
    AllocateCases(h, l, k, need);
    if Splits(h.m, b, need) {
      InsertMembers(l.bs, IndexOf(l.bs, b) + 1, CutAt(b, need), c);
      SplitDoneHere(h, l, k, need);
      if c != b {
        SplitEffect(h, l, k, need, Allocate(h, b, need).m, c);
      }
    } else {
      WholeDoneHere(h, l, k);
      WholeEffect(h, l, k, Allocate(h, b, need).m, c);
    }
  }

  // ---------------------------------------------------------------- the condition is exact

  /** Too little room for a header wraps the subtraction, so the code splits anyway. */
  lemma WrapsAndSplits(size: nat, need: nat)
    requires need <= size < need + HEADER && size < TWO_32
    ensures U32(size - need - HEADER) == TWO_32 + (size - need - HEADER) >= MIN_SPLIT
  {
  }

  predicate NextApart(m: Memory, b: nat) {
    Next(m, b) == 0 || Next(m, b) + HEADER <= b || Next(m, b) >= b + HEADER
  }

  /** What such a split leaves: the list goes from `b` to a block that either claims to be larger than
      any heap, or is followed on the list by something inside its own header. */
  lemma BadSplit(m: Memory, b: nat, need: nat, n: nat, rest: nat)
    requires n >= b + HEADER && NextApart(m, b)
    ensures var m' := SplitMem(m, b, need, n, rest);
      && Next(m', b) == n
      && (Size(m', n) == rest || (0 < Next(m', n) && n <= Next(m', n) < n + HEADER))
  {
  }

  lemma BadSplitBelow(m: Memory, b: nat, need: nat, n: nat, rest: nat, a: nat)
    requires n >= b + HEADER && NextApart(m, b) && a < b && a != Next(m, b)
    ensures Word(SplitMem(m, b, need, n, rest), a) == Word(m, a)
  {
  }

  /** A list is determined by its head and the next links. */
  lemma {:induction false} SameList(m: Memory, ls: seq<nat>, m': Memory, ls': seq<nat>, head: nat, k: nat)
    requires Linked(m, ls, head) && Linked(m', ls', head) && k < |ls|
    requires forall j :: 0 <= j < k ==> Next(m', ls[j]) == Next(m, ls[j])
    ensures k < |ls'| && ls'[k] == ls[k]
    decreases k
  {
    assert LinkAt(m, ls, k);
    if k > 0 {
      SameList(m, ls, m', ls', head, k - 1);
      assert LinkAt(m, ls, k - 1) && LinkAt(m', ls', k - 1);
    } else {
      assert LinkAt(m, ls, 0);
    }
  }

  /** The split that a block too small for it gets. */
  lemma TooSmallSplits(h: Heap, l: Layout, k: nat, need: nat) returns (rest: nat)
    requires Consistent(h, l) && k < |l.ls|
    requires need <= Size(h.m, l.ls[k]) < need + HEADER
    ensures var b := l.ls[k];
      && Allocate(h, b, need) == h.(m := SplitMem(h.m, b, need, CutAt(b, need), rest))
      && CutAt(b, need) >= b + HEADER && NextApart(h.m, b)
      && h.end < CutAt(b, need) + HEADER + rest
  {
    var b := l.ls[k];
    assert b in l.ls;
    BlockInside(h.m, l.bs, h.base, h.end, IndexOf(l.bs, b));
    WrapsAndSplits(Size(h.m, b), need);
    Unwrapped(CutAt(b, need));
    ListedBlock(h, l, k);
    rest := U32(Size(h.m, b) - need - HEADER);
  }

  /** A list that agrees with `l.ls` up to entry `k` goes on where that entry points. */
  lemma GoesOn(h: Heap, l: Layout, k: nat, m': Memory, ls': seq<nat>, n: nat)
    requires Linked(h.m, l.ls, h.head) && Linked(m', ls', h.head) && k < |l.ls|
    requires forall j :: 0 <= j < k ==> Next(m', l.ls[j]) == Next(h.m, l.ls[j])
    requires Next(m', l.ls[k]) == n != 0
    ensures k + 1 < |ls'| && ls'[k + 1] == n
  {
    SameList(h.m, l.ls, m', ls', h.head, k);
    assert LinkAt(m', ls', k);
  }

  lemma TooSmallBreaksHeap(h: Heap, l: Layout, k: nat, need: nat, l': Layout)
    requires Consistent(h, l) && k < |l.ls| && forall j :: 0 <= j < k ==> l.ls[j] < l.ls[k]
    requires need <= Size(h.m, l.ls[k]) < need + HEADER
    ensures !Consistent(Allocate(h, l.ls[k], need), l')
  {
    var b, n := l.ls[k], CutAt(l.ls[k], need);
    var rest := TooSmallSplits(h, l, k, need);
    var h' := Allocate(h, b, need);
    BadSplit(h.m, b, need, n, rest);
    if Consistent(h', l') {
      forall j | 0 <= j < k ensures Next(h'.m, l.ls[j]) == Next(h.m, l.ls[j]) {
        BadSplitBefore(h, l, k, need, n, rest, j);
      }
      GoesOn(h, l, k, h'.m, l'.ls, n);
      ListedBlock(h', l', k + 1);
    }
  }

  lemma BadSplitBefore(h: Heap, l: Layout, k: nat, need: nat, n: nat, rest: nat, j: nat)
    requires Consistent(h, l) && k < |l.ls| && j < k && l.ls[j] < l.ls[k] && n >= l.ls[k] + HEADER
    ensures Next(SplitMem(h.m, l.ls[k], need, n, rest), l.ls[j]) == Next(h.m, l.ls[j])
  {
    var b, c, x := l.ls[k], l.ls[j], Next(h.m, l.ls[k]);
    assert c in l.ls && b in l.ls;
    ClearOfSplit(h, l, b, c);
    NextClear(h, l, k);
    NextIsBlock(h, l, k);
    if x != 0 && x != c {
      DifferentBlocks(h.m, l.bs, h.base, h.end, x, c);
    }
    BadSplitBelow(h.m, b, need, n, rest, c + 4);
  }

  /** A listed block lies in the heap and is followed on the list by one clear of its header. */
  lemma ListedBlock(h: Heap, l: Layout, k: nat)
    requires Consistent(h, l) && k < |l.ls|
    ensures l.ls[k] + HEADER + Size(h.m, l.ls[k]) <= h.end < TWO_32 && NextApart(h.m, l.ls[k])
  {
    assert l.ls[k] in l.ls;
    BlockInside(h.m, l.bs, h.base, h.end, IndexOf(l.bs, l.ls[k]));
    NextClear(h, l, k);
  }

  /** Allocating from a block that fits keeps the heap sound exactly when the block is at least a
      header larger than the rounded request. */
  lemma AllocateIsSoundIff(h: Heap, l: Layout, k: nat, need: nat)
    requires HeapOk(h, l) && k < |l.ls| && need % 4 == 0 && need <= Size(h.m, l.ls[k])
    ensures (exists l' :: HeapOk(Allocate(h, l.ls[k], need), l')) <==> Size(h.m, l.ls[k]) >= need + HEADER
    ensures (exists l' :: Consistent(Allocate(h, l.ls[k], need), l')) <==> Size(h.m, l.ls[k]) >= need + HEADER
  {
    if Size(h.m, l.ls[k]) >= need + HEADER {
      AllocateOk(h, l, k, need);
    } else {
      forall l' ensures !Consistent(Allocate(h, l.ls[k], need), l') {
        TooSmallBreaksHeap(h, l, k, need, l');
      }
    }
  }

  // ---------------------------------------------------------------- runs of kmalloc

  /** What `mem_init` leaves in memory: one free block. */
  function InitMem(m: Memory, base: nat, size: nat): Memory
    requires size >= HEADER
  {
    m[base := 0][base + 4 := 0][base + 8 := size - HEADER][base + 12 := MAGIC][base + 16 := FREE]
  }

  function InitHeap(m: Memory, base: nat, size: nat): Heap
    requires size >= HEADER
  {
    Heap(InitMem(m, base, size), base, base + size, base)
  }

  lemma InitOk(m: Memory, base: nat, size: nat)
    requires 0 < base && size >= HEADER && base + size < TWO_32
    ensures HeapOk(InitHeap(m, base, size), Layout([base], [base]))
  {
    var h := InitHeap(m, base, size);
    assert TileAt(h.m, [base], h.end, 0) && LinkAt(h.m, [base], 0);
  }

  datatype Alloc = Alloc(ptr: nat, req: nat)

  /** A heap with its layout and the allocations made so far. */
  datatype World = World(h: Heap, l: Layout, live: seq<Alloc>)

  predicate ListIn(l: Layout) {
    forall b :: b in l.ls ==> b in l.bs
  }

  /** One call of `kmalloc`; no change when it returns NULL. */
  function Kmalloc(w: World, req: nat): World
    requires ListIn(w.l)
  {
    var k := Search(w.h.m, w.l.ls, Align(req), 0);
    if req == 0 || k == |w.l.ls| then w
    else
      var b := w.l.ls[k];
      assert b in w.l.ls;
      World(Allocate(w.h, b, Align(req)), AllocateLayout(w.h, w.l, k, Align(req)),
            w.live + [Alloc(b + HEADER, req)])
  }

  /** Entry `i` of the list is the first free block of the size rounded up. */
  ghost predicate FirstFitting(w: World, req: nat, i: nat) {
    && i < |w.l.ls| && Fits(w.h.m, w.l.ls[i], Align(req))
    && forall j :: 0 <= j < i ==> !Fits(w.h.m, w.l.ls[j], Align(req))
  }

  /** `kmalloc` returns memory exactly when some is asked for and a listed block is free and large enough, and
      then it is the payload of the first such block. */
  lemma KmallocServesIff(w: World, req: nat)
    requires ListIn(w.l)
    ensures var r := Kmalloc(w, req);
      && (r != w <==> req != 0 && exists i :: 0 <= i < |w.l.ls| && Fits(w.h.m, w.l.ls[i], Align(req)))
      && (r != w ==> exists i: nat :: FirstFitting(w, req, i) && r.live == w.live + [Alloc(w.l.ls[i] + HEADER, req)])
  {
    var k := Search(w.h.m, w.l.ls, Align(req), 0);
    if req != 0 && k < |w.l.ls| {
      assert |Kmalloc(w, req).live| == |w.live| + 1;
      assert FirstFitting(w, req, k);
    }
  }

  /** The block that first fit chooses has room for a header beside the request. */
  ghost predicate RoomForHeader(w: World, req: nat) {
    var k := Search(w.h.m, w.l.ls, Align(req), 0);
    req != 0 && k < |w.l.ls| ==> Size(w.h.m, w.l.ls[k]) >= Align(req) + HEADER
  }

  /** An allocation owns the payload of a used block that is large enough. */
  ghost predicate Owned(h: Heap, l: Layout, a: Alloc) {
    && a.ptr >= HEADER && a.ptr - HEADER in l.bs
    && Flags(h.m, a.ptr - HEADER) == USED && Size(h.m, a.ptr - HEADER) >= Align(a.req)
  }

  /** A consistent heap in which every allocation owns a block of its own. */
  ghost predicate AllOwned(w: World) {
    && Consistent(w.h, w.l)
    && (forall a :: a in w.live ==> Owned(w.h, w.l, a))
    && (forall i, j :: 0 <= i < j < |w.live| ==> w.live[i].ptr != w.live[j].ptr)
  }

  ghost predicate WorldOk(w: World) {
    AllOwned(w) && Sorted(w.l.ls)
  }

  lemma KmallocKeepsOwned(w: World, req: nat)
    requires AllOwned(w) && RoomForHeader(w, req)
    ensures AllOwned(Kmalloc(w, req))
  {
    var need := Align(req);
    var k := Search(w.h.m, w.l.ls, need, 0);
    if req != 0 && k < |w.l.ls| {
      var b, w' := w.l.ls[k], Kmalloc(w, req);
      AllocateConsistent(w.h, w.l, k, need);
      AllocateKeeps(w.h, w.l, k, need, b);
      forall a | a in w.live
        ensures a.ptr != b + HEADER && Owned(w'.h, w'.l, a)
      {
        AllocateKeeps(w.h, w.l, k, need, a.ptr - HEADER);
      }
      assert Owned(w'.h, w'.l, Alloc(b + HEADER, req));
    }
  }

  lemma KmallocKeepsWorld(w: World, req: nat)
    requires WorldOk(w) && RoomForHeader(w, req)
    ensures WorldOk(Kmalloc(w, req))
  {
    KmallocKeepsOwned(w, req);
    var k := Search(w.h.m, w.l.ls, Align(req), 0);
    if req != 0 && k < |w.l.ls| {
      AllocateOk(w.h, w.l, k, Align(req));
    }
  }

  function RunKmalloc(w: World, reqs: seq<nat>): (r: World)
    requires ListIn(w.l)
    ensures ListIn(r.l)
  {
    if reqs == [] then w
    else
      var before := RunKmalloc(w, reqs[..|reqs| - 1]);
      KmallocListIn(before, reqs[|reqs| - 1]);
      Kmalloc(before, reqs[|reqs| - 1])
  }

  lemma KmallocListIn(w: World, req: nat)
    requires ListIn(w.l)
    ensures ListIn(Kmalloc(w, req).l)
  {
    var need := Align(req);
    var k := Search(w.h.m, w.l.ls, need, 0);
    if req != 0 && k < |w.l.ls| {
      var b := w.l.ls[k];
      assert b in w.l.ls;
      if Splits(w.h.m, b, need) {
        forall c | c in Kmalloc(w, req).l.ls ensures c in Kmalloc(w, req).l.bs {
          InsertMembers(w.l.ls, k + 1, CutAt(b, need), c);
          InsertMembers(w.l.bs, IndexOf(w.l.bs, b) + 1, CutAt(b, need), c);
        }
      }
    }
  }

  function Boot(m: Memory, base: nat, size: nat): World
    requires size >= HEADER
  {
    World(InitHeap(m, base, size), Layout([base], [base]), [])
  }

  lemma {:induction false} RunKeepsWorld(w: World, reqs: seq<nat>)
    requires WorldOk(w)
    requires forall n :: 0 <= n < |reqs| ==> RoomForHeader(RunKmalloc(w, reqs[..n]), reqs[n])
    ensures var r := RunKmalloc(w, reqs); WorldOk(r) && r.h.base == w.h.base && r.h.end == w.h.end
  {
    if reqs != [] {
      var n := |reqs| - 1;
      var before := reqs[..n];
      forall m | 0 <= m < n ensures RoomForHeader(RunKmalloc(w, before[..m]), before[m]) {
        assert before[..m] == reqs[..m];
      }
      RunKeepsWorld(w, before);
      KmallocKeepsWorld(RunKmalloc(w, before), reqs[n]);
    }
  }

  /** The smallest heap and a request for 988 of its 1004 bytes: the block fits but leaves 16 bytes, and no
      layout makes the result consistent. */
  lemma AlmostWholeHeap(m: Memory, base: nat, l': Layout)
    requires 0 < base && base + 1024 < TWO_32
    ensures var w := Boot(m, base, 1024); !RoomForHeader(w, 988) && !Consistent(Kmalloc(w, 988).h, l')
  {
    InitOk(m, base, 1024);
    var w := Boot(m, base, 1024);
    assert Align(988) == 988;
    assert Fits(w.h.m, base, 988) && Search(w.h.m, [base], 988, 0) == 0;
    TooSmallBreaksHeap(w.h, w.l, 0, 988, l');
  }

  lemma AlignCovers(req: nat)
    requires req < TWO_32
    ensures Align(req) >= req <==> req <= TWO_32 - 4
  {
  }

  /** The payload lies in the heap, past a header, and is aligned like the heap's base. */
  predicate InHeap(h: Heap, a: Alloc) {
    h.base + HEADER <= a.ptr && a.ptr + Align(a.req) <= h.end && a.ptr % 4 == h.base % 4
  }

  /** The payloads and the headers before them do not overlap. */
  predicate Disjoint(a: Alloc, b: Alloc) {
    a.ptr + Align(a.req) + HEADER <= b.ptr || b.ptr + Align(b.req) + HEADER <= a.ptr
  }

  lemma OwnedInHeap(h: Heap, l: Layout, a: Alloc)
    requires Consistent(h, l) && Owned(h, l, a)
    ensures InHeap(h, a)
  {
    BlockInside(h.m, l.bs, h.base, h.end, IndexOf(l.bs, a.ptr - HEADER));
    assert (a.ptr - HEADER) % 4 == a.ptr % 4;
  }

  lemma OwnedDisjoint(h: Heap, l: Layout, a: Alloc, b: Alloc)
    requires Consistent(h, l) && Owned(h, l, a) && Owned(h, l, b) && a.ptr != b.ptr
    ensures Disjoint(a, b)
  {
    DifferentBlocks(h.m, l.bs, h.base, h.end, a.ptr - HEADER, b.ptr - HEADER);
  }

  lemma WorldPayloads(w: World)
    requires AllOwned(w)
    ensures forall a :: a in w.live ==> InHeap(w.h, a)
    ensures forall i, j :: 0 <= i < j < |w.live| ==> Disjoint(w.live[i], w.live[j])
  {
    forall a | a in w.live ensures InHeap(w.h, a) {
      OwnedInHeap(w.h, w.l, a);
    }
    forall i, j | 0 <= i < j < |w.live| ensures Disjoint(w.live[i], w.live[j]) {
      assert w.live[i] in w.live && w.live[j] in w.live;
      OwnedDisjoint(w.h, w.l, w.live[i], w.live[j]);
    }
  }

  /** Over every run of `kmalloc` from `mem_init`, as long as first fit finds blocks with room for a
      header: the blocks tile the heap, the list is finite and ascending, and the payloads handed out
      lie in the heap, are aligned like its base and are pairwise disjoint, headers included. */
  lemma AllocationsDisjoint(m: Memory, base: nat, size: nat, reqs: seq<nat>)
    requires 0 < base && size >= HEADER && base + size < TWO_32
    requires forall n :: 0 <= n < |reqs| ==> RoomForHeader(RunKmalloc(Boot(m, base, size), reqs[..n]), reqs[n])
    ensures var w := RunKmalloc(Boot(m, base, size), reqs);
      && w.h.base == base && w.h.end == base + size && HeapOk(w.h, w.l)
      && (forall a :: a in w.live ==> InHeap(w.h, a))
      && (forall i, j :: 0 <= i < j < |w.live| ==> Disjoint(w.live[i], w.live[j]))
  {
    InitOk(m, base, size);
    RunKeepsWorld(Boot(m, base, size), reqs);
    WorldPayloads(RunKmalloc(Boot(m, base, size), reqs));
  }
}

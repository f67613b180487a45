/** The free list after `kfree`: when it still ends, and when the heap is still sound. */
module HeapList {
  import opened Machine
  import opened Heap
  import opened HeapFree

  // ---------------------------------------------------------------- walking a list

  /** Where the list is after `n` next links; it stays at null. */
  function Walk(m: Memory, head: nat, n: nat): nat {
    if n == 0 then head
    else
      var a := Walk(m, head, n - 1);
      if a == 0 then 0 else Next(m, a)
  }

  /** A search that finds nothing comes to an end. */
  ghost predicate Ends(m: Memory, head: nat) {
    exists n :: Walk(m, head, n) == 0
  }

  predicate StepAt(m: Memory, s: seq<nat>, after: nat, i: nat)
    requires i < |s|
  {
    s[i] != 0 && Next(m, s[i]) == if i + 1 < |s| then s[i + 1] else after
  }

  /** The next links lead through `s` and from its last entry to `after`. */
  ghost predicate Path(m: Memory, s: seq<nat>, after: nat) {
    forall i :: 0 <= i < |s| ==> StepAt(m, s, after, i)
  }

  lemma {:induction false} WalkPath(m: Memory, s: seq<nat>, after: nat, n: nat)
    requires Path(m, s, after) && s != [] && n <= |s|
    ensures Walk(m, s[0], n) == if n < |s| then s[n] else after
  {
    if n > 0 {
      WalkPath(m, s, after, n - 1);
      assert StepAt(m, s, after, n - 1);
    }
  }

  lemma {:induction false} WalkAdd(m: Memory, a: nat, p: nat, q: nat)
    ensures Walk(m, a, p + q) == Walk(m, Walk(m, a, p), q)
  {
    if q > 0 {
      WalkAdd(m, a, p, q - 1);
    }
  }

  lemma {:induction false} WalkFromNull(m: Memory, n: nat)
    ensures Walk(m, 0, n) == 0
  {
    if n > 0 {
      WalkFromNull(m, n - 1);
    }
  }

  lemma {:induction false} CycleNeverEnds(m: Memory, a: nat, p: nat, n: nat)
    requires a != 0 && p > 0 && Walk(m, a, p) == a
    ensures Walk(m, a, n) != 0
    decreases n
  {
    if n < p {
      WalkAdd(m, a, n, p - n);
      WalkFromNull(m, p - n);
    } else {
      WalkAdd(m, a, p, n - p);
      CycleNeverEnds(m, a, p, n - p);
    }
  }

  /** The next links from `a` lead to null without meeting `y`. */
  ghost predicate EndsWithout(m: Memory, a: nat, y: nat) {
    exists n :: Walk(m, a, n) == 0 && Avoids(m, a, y, n)
  }

  ghost predicate Avoids(m: Memory, a: nat, y: nat, n: nat) {
    forall i :: 0 <= i < n ==> Walk(m, a, i) != y
  }

  /** The first meeting with `y` within `q` links, if there is one. */
  lemma FirstMeeting(m: Memory, a: nat, y: nat, q: nat) returns (i: nat)
    ensures i <= q + 1 && Avoids(m, a, y, i) && (i <= q ==> Walk(m, a, i) == y)
  {
    i := 0;
    while i <= q && Walk(m, a, i) != y
      invariant i <= q + 1 && Avoids(m, a, y, i)
    {
      i := i + 1;
    }
  }

  function HeadOf(s: seq<nat>): nat {
    if s == [] then 0 else s[0]
  }

  lemma PathEnds(m: Memory, s: seq<nat>, head: nat)
    requires Path(m, s, 0) && head == HeadOf(s)
    ensures Ends(m, head)
  {
    if s == [] {
      assert Walk(m, head, 0) == 0;
    } else {
      WalkPath(m, s, 0, |s|);
    }
  }

  lemma {:induction false} LoopWalk(m: Memory, s: seq<nat>, j: nat, n: nat) returns (i: nat)
    requires j < |s| && Path(m, s, s[j])
    ensures i < |s| && Walk(m, s[0], n) == s[i] != 0
  {
    if n == 0 {
      i := 0;
      assert StepAt(m, s, s[j], 0);
    } else {
      var p := LoopWalk(m, s, j, n - 1);
      assert StepAt(m, s, s[j], p);
      i := if p + 1 < |s| then p + 1 else j;
      assert StepAt(m, s, s[j], i);
    }
  }

  /** A path that leads back into itself has no end. */
  lemma LoopNeverEnds(m: Memory, s: seq<nat>, j: nat)
    requires j < |s| && Path(m, s, s[j])
    ensures !Ends(m, s[0])
  {
    forall n: nat ensures Walk(m, s[0], n) != 0 {
      var i := LoopWalk(m, s, j, n);
    }
  }

  lemma LinkedIsPath(m: Memory, ls: seq<nat>, head: nat)
    requires Linked(m, ls, head)
    ensures Path(m, ls, 0)
  {
    forall i | 0 <= i < |ls| ensures StepAt(m, ls, 0, i) {
      assert LinkAt(m, ls, i);
    }
  }

  lemma EntryPositive(m: Memory, s: seq<nat>, after: nat, i: nat)
    requires Path(m, s, after) && i < |s|
    ensures s[i] != 0
  {
    assert StepAt(m, s, after, i);
  }

  lemma NotLonger(m: Memory, s: seq<nat>, t: seq<nat>)
    requires Path(m, s, 0) && Path(m, t, 0) && s != [] && t != [] && s[0] == t[0]
    ensures |t| <= |s|
  {
    if |s| < |t| {
      EntryPositive(m, t, 0, |s|);
      WalkPath(m, s, 0, |s|);
      WalkPath(m, t, 0, |s|);
    }
  }

  /** A list is determined by where it starts. */
  lemma PathUnique(m: Memory, s: seq<nat>, t: seq<nat>)
    requires Path(m, s, 0) && Path(m, t, 0) && HeadOf(s) == HeadOf(t)
    ensures s == t
  {
    if s != [] {
      EntryPositive(m, s, 0, 0);
    }
    if t != [] {
      EntryPositive(m, t, 0, 0);
    }
    if s != [] && t != [] {
      NotLonger(m, s, t);
      NotLonger(m, t, s);
      forall i | 0 <= i < |s| ensures s[i] == t[i] {
        WalkPath(m, s, 0, i);
        WalkPath(m, t, 0, i);
      }
    }
  }

  // ---------------------------------------------------------------- words after the stores

  lemma MarkAt(m: Memory, b: nat, d: nat)
    requires Clear(b, d)
    ensures var m' := m[b + 16 := FREE];
      && Next(m', d) == Next(m, d) && Prev(m', d) == Prev(m, d)
      && Size(m', d) == Size(m, d) && Magic(m', d) == Magic(m, d)
      && Flags(m', d) == if d == b then FREE else Flags(m, d)
  {
  }

  lemma MergeAt(m: Memory, b: nat, c: nat, d: nat)
    requires Clear(b, c) && Clear(b, d) && (Next(m, c) == 0 || Clear(Next(m, c), d))
    ensures var m', x := Merge(m, b, c), Next(m, c);
      && Next(m', d) == (if d == b then x else Next(m, d))
      && Prev(m', d) == (if x != 0 && d == x then b else Prev(m, d))
      && Magic(m', d) == Magic(m, d) && Flags(m', d) == Flags(m, d) && (d != b ==> Size(m', d) == Size(m, d))
  {
  }

  lemma PushAt(m: Memory, b: nat, head: nat, d: nat)
    requires Clear(b, d) && (head == 0 || Clear(head, d))
    ensures var m' := Push(m, b, head);
      && Next(m', d) == (if d == b then head else Next(m, d))
      && Prev(m', d) == (if head != 0 && d == head then b else if d == b then 0 else Prev(m, d))
      && Magic(m', d) == Magic(m, d) && Flags(m', d) == Flags(m, d) && Size(m', d) == Size(m, d)
  {
  }

  // ---------------------------------------------------------------- the links after a release

  /** The links of `b` are null or other blocks. */
  ghost predicate BlockLinks(h: Heap, l: Layout, b: nat) {
    && (Next(h.m, b) == 0 || (Next(h.m, b) in l.bs && Next(h.m, b) != b))
    && (Prev(h.m, b) == 0 || (Prev(h.m, b) in l.bs && Prev(h.m, b) != b))
  }

  /** The links of `b` are null or on the list. Those of a listed block always are. */
  ghost predicate ListedLinks(h: Heap, l: Layout, b: nat) {
    && (Next(h.m, b) == 0 || (Next(h.m, b) in l.ls && Next(h.m, b) != b))
    && (Prev(h.m, b) == 0 || (Prev(h.m, b) in l.ls && Prev(h.m, b) != b))
  }

  /** What `b` links to once it has absorbed a free right neighbour. */
  function Beyond(m: Memory, b: nat): nat {
    if FreeBlock(m, Next(m, b)) then Next(m, Next(m, b)) else Next(m, b)
  }

  lemma BlocksClear(h: Heap, l: Layout, a: nat, d: nat)
    requires Consistent(h, l) && a in l.bs && d in l.bs
    ensures Clear(a, d)
  {
    if a != d {
      DifferentBlocks(h.m, l.bs, h.base, h.end, a, d);
    }
  }

  lemma LinksOfListed(h: Heap, l: Layout, k: nat)
    requires Consistent(h, l) && k < |l.ls|
    ensures ListedLinks(h, l, l.ls[k])
    ensures Next(h.m, l.ls[k]) == (if k + 1 < |l.ls| then l.ls[k + 1] else 0)
    ensures Prev(h.m, l.ls[k]) == (if k > 0 then l.ls[k - 1] else 0)
  {
    assert LinkAt(h.m, l.ls, k);
  }

  lemma OnePlace(ls: seq<nat>, i: nat, j: nat)
    requires Distinct(ls) && i < |ls| && j < |ls| && ls[i] == ls[j]
    ensures i == j
  {
  }

  /** Beyond a free right neighbour there is null or a listed block that is neither of the two. */
  lemma BeyondBlock(h: Heap, l: Layout, b: nat)
    requires Consistent(h, l) && BlockLinks(h, l, b)
    ensures var w := Beyond(h.m, b); w == 0 || (w in l.bs && w != b)
    ensures FreeBlock(h.m, Next(h.m, b)) ==>
      var w := Beyond(h.m, b); w != Next(h.m, b) && (w == 0 || w in l.ls)
  {
    var x := Next(h.m, b);
    if FreeBlock(h.m, x) {
      var i := IndexOf(l.ls, x);
      LinksOfListed(h, l, i);
      if b in l.ls {
        var k := IndexOf(l.ls, b);
        LinksOfListed(h, l, k);
        OnePlace(l.ls, i, k + 1);
      }
    }
  }

  lemma BeyondListed(h: Heap, l: Layout, b: nat)
    requires Consistent(h, l) && ListedLinks(h, l, b)
    ensures BlockLinks(h, l, b)
    ensures var w := Beyond(h.m, b); w == 0 || (w in l.ls && w != b)
  {
    BeyondBlock(h, l, b);
  }

  /** The first half of a release: marked, and merged to the right. */
  lemma HalfAt(h: Heap, l: Layout, b: nat, d: nat)
    requires Consistent(h, l) && b in l.bs && d in l.bs && BlockLinks(h, l, b)
    ensures var m', w := MarkAndMerge(h.m, b), Beyond(h.m, b);
      && Next(m', d) == (if d == b then w else Next(h.m, d))
      && Prev(m', d) == (if FreeBlock(h.m, Next(h.m, b)) && w != 0 && d == w then b else Prev(h.m, d))
      && (d != b ==> Size(m', d) == Size(h.m, d))
      && Magic(m', d) == Magic(h.m, d) && Flags(m', d) == if d == b then FREE else Flags(h.m, d)
  {
    var m1, x := h.m[b + 16 := FREE], Next(h.m, b);
    BlocksClear(h, l, b, d);
    MarkAt(h.m, b, d);
    BeyondBlock(h, l, b);
    assert Clear(b, b);
    MarkAt(h.m, b, b);
    if x != 0 {
      BlocksClear(h, l, b, x);
      MarkAt(h.m, b, x);
      if FreeBlock(h.m, x) {
        var w := Next(h.m, x);
        if w != 0 {
          BlocksClear(h, l, w, d);
        }
        MergeAt(m1, b, x, d);
      }
    }
  }

  lemma HalfLooks(h: Heap, l: Layout, b: nat)
    requires Consistent(h, l) && b in l.bs && BlockLinks(h, l, b)
    ensures var m', y := MarkAndMerge(h.m, b), Prev(h.m, b);
      Prev(m', b) == y && (FreeBlock(m', y) <==> FreeBlock(h.m, y)) && Next(m', b) == Beyond(h.m, b)
  {
    var y := Prev(h.m, b);
    BeyondBlock(h, l, b);
    HalfAt(h, l, b, b);
    if y != 0 {
      HalfAt(h, l, b, y);
    }
  }

  /** A release that ends in the block before. */
  lemma LeftAt(h: Heap, l: Layout, b: nat, d: nat)
    requires Consistent(h, l) && b in l.bs && d in l.bs && BlockLinks(h, l, b) && FreeBlock(h.m, Prev(h.m, b))
    ensures var h', w, y := FreeUsed(h, b), Beyond(h.m, b), Prev(h.m, b);
      && h'.head == h.head
      && Next(h'.m, d) == (if d == y || d == b then w else Next(h.m, d))
      && Prev(h'.m, d) == (if w != 0 && d == w then y else Prev(h.m, d))
      && (d != b && d != y ==> Size(h'.m, d) == Size(h.m, d))
      && Flags(h'.m, d) == if d == b then FREE else Flags(h.m, d)
  {
    var m2, w, y := MarkAndMerge(h.m, b), Beyond(h.m, b), Prev(h.m, b);
    HalfLooks(h, l, b);
    HalfAt(h, l, b, d);
    BeyondBlock(h, l, b);
    BlocksClear(h, l, y, d);
    BlocksClear(h, l, y, b);
    if w != 0 {
      BlocksClear(h, l, w, d);
    }
    MergeAt(m2, y, b, d);
  }

  /** A release that ends at the head of the list. */
  lemma PushedAt(h: Heap, l: Layout, b: nat, d: nat)
    requires Consistent(h, l) && b in l.bs && d in l.bs && BlockLinks(h, l, b) && !FreeBlock(h.m, Prev(h.m, b))
    ensures var h', w, x := FreeUsed(h, b), Beyond(h.m, b), Next(h.m, b);
      && h'.head == b
      && Next(h'.m, d) == (if d == b then h.head else Next(h.m, d))
      && Prev(h'.m, d) == (if h.head != 0 && d == h.head then b else if d == b then 0
                           else if FreeBlock(h.m, x) && w != 0 && d == w then b else Prev(h.m, d))
      && (d != b ==> Size(h'.m, d) == Size(h.m, d))
      && Flags(h'.m, d) == if d == b then FREE else Flags(h.m, d)
  {
    var m2 := MarkAndMerge(h.m, b);
    HalfLooks(h, l, b);
    HalfAt(h, l, b, d);
    BlocksClear(h, l, b, d);
    if h.head != 0 {
      assert l.ls[0] in l.ls;
      BlocksClear(h, l, h.head, d);
    }
    PushAt(m2, b, h.head, d);
  }

  // ---------------------------------------------------------------- when the list still ends

  /** The entries up to `j`, and those from `i` on. */
  function Bypass(ls: seq<nat>, j: nat, i: nat): (r: seq<nat>)
    requires j < i <= |ls|
    ensures |r| == j + 1 + |ls| - i
  {
    ls[..j + 1] + ls[i..]
  }

  /** The place of `a` on the list; past its end for null. */
  function PlaceOf(ls: seq<nat>, a: nat): (i: nat)
    requires a == 0 || a in ls
    ensures if a == 0 then i == |ls| else i < |ls| && ls[i] == a
  {
    if a == 0 then |ls| else IndexOf(ls, a)
  }

  lemma {:induction false} SortedPlaces(ls: seq<nat>, i: nat, j: nat)
    requires Sorted(ls) && i < |ls| && j < |ls|
    ensures ls[i] < ls[j] <==> i < j
    ensures ls[i] == ls[j] <==> i == j
  {
  }

  /** One next link along a bypass, or along the entries before one that leads back. */
  lemma LeftStep(h: Heap, l: Layout, b: nat, p: nat)
    requires Consistent(h, l) && b in l.bs && BlockLinks(h, l, b) && FreeBlock(h.m, Prev(h.m, b))
    requires p < |l.ls| && l.ls[p] != b
    ensures var m', j := FreeUsed(h, b).m, IndexOf(l.ls, Prev(h.m, b));
      l.ls[p] != 0 && Next(m', l.ls[p]) ==
        if p == j then Beyond(h.m, b) else if p + 1 < |l.ls| then l.ls[p + 1] else 0
  {
    var j := IndexOf(l.ls, Prev(h.m, b));
    assert l.ls[p] in l.ls;
    LeftAt(h, l, b, l.ls[p]);
    assert LinkAt(h.m, l.ls, p);
    if l.ls[p] == l.ls[j] {
      OnePlace(l.ls, p, j);
    }
  }

  /** Merged into the block before: the list is as it was up to that one, and goes on beyond `b`. */
  lemma LeftPrefix(h: Heap, l: Layout, b: nat)
    requires Consistent(h, l) && b in l.bs && BlockLinks(h, l, b) && FreeBlock(h.m, Prev(h.m, b))
    ensures var j := IndexOf(l.ls, Prev(h.m, b)); Path(FreeUsed(h, b).m, l.ls[..j + 1], Beyond(h.m, b))
  {
    var j, w := IndexOf(l.ls, Prev(h.m, b)), Beyond(h.m, b);
    var s, m' := l.ls[..j + 1], FreeUsed(h, b).m;
    forall p | 0 <= p < |s| ensures StepAt(m', s, w, p) {
      if l.ls[p] == b {
        LinksOfListed(h, l, p);
        assert false;
      }
      LeftStep(h, l, b, p);
    }
  }

  lemma {:induction false} ListWalk(h: Heap, l: Layout, p: nat, n: nat)
    requires Consistent(h, l) && p <= |l.ls|
    ensures Walk(h.m, if p < |l.ls| then l.ls[p] else 0, n) == if p + n < |l.ls| then l.ls[p + n] else 0
  {
    if n > 0 {
      ListWalk(h, l, p, n - 1);
      if p + n - 1 < |l.ls| {
        assert LinkAt(h.m, l.ls, p + n - 1);
      }
    }
  }

  /** All that the next links lead to from beyond `b` are blocks. */
  ghost predicate Onward(h: Heap, l: Layout, b: nat) {
    forall n: nat :: Walk(h.m, Beyond(h.m, b), n) == 0 || Walk(h.m, Beyond(h.m, b), n) in l.bs
  }

  lemma OnwardListed(h: Heap, l: Layout, b: nat)
    requires Consistent(h, l) && ListedLinks(h, l, b)
    ensures Onward(h, l, b)
  {
    BeyondListed(h, l, b);
    var i := PlaceOf(l.ls, Beyond(h.m, b));
    forall n: nat ensures Walk(h.m, Beyond(h.m, b), n) == 0 || Walk(h.m, Beyond(h.m, b), n) in l.bs {
      ListWalk(h, l, i, n);
    }
  }

  /** From beyond an absorbed right neighbour the links do not come to `b` again. */
  lemma NotAgain(h: Heap, l: Layout, b: nat, n: nat)
    requires Consistent(h, l) && b in l.bs && BlockLinks(h, l, b) && FreeBlock(h.m, Next(h.m, b))
    ensures Walk(h.m, Beyond(h.m, b), n) != b
  {
    BlockPositive(h, l, b);
    var i := IndexOf(l.ls, Next(h.m, b));
    LinksOfListed(h, l, i);
    ListWalk(h, l, i + 1, n);
    if i + 1 + n < |l.ls| && l.ls[i + 1 + n] == b {
      LinksOfListed(h, l, i + 1 + n);
    }
  }

  /** Up to a meeting with the block before, the links lead the same way after the release. */
  lemma {:induction false} SameOnward(h: Heap, l: Layout, b: nat, n: nat)
    requires Consistent(h, l) && b in l.bs && BlockLinks(h, l, b) && FreeBlock(h.m, Prev(h.m, b))
    requires Onward(h, l, b) && Avoids(h.m, Beyond(h.m, b), Prev(h.m, b), n)
    ensures Walk(FreeUsed(h, b).m, Beyond(h.m, b), n) == Walk(h.m, Beyond(h.m, b), n)
  {
    if n > 0 {
      SameOnward(h, l, b, n - 1);
      var a := Walk(h.m, Beyond(h.m, b), n - 1);
      if a != 0 {
        LeftAt(h, l, b, a);
        if FreeBlock(h.m, Next(h.m, b)) {
          NotAgain(h, l, b, n - 1);
        }
      }
    }
  }

  lemma RoundAndRound(h: Heap, l: Layout, b: nat, q: nat)
    requires Consistent(h, l) && b in l.bs && BlockLinks(h, l, b) && FreeBlock(h.m, Prev(h.m, b))
    requires Onward(h, l, b) && !EndsWithout(h.m, Beyond(h.m, b), Prev(h.m, b))
    ensures Walk(FreeUsed(h, b).m, Beyond(h.m, b), q) != 0
  {
    var m', w, y := FreeUsed(h, b).m, Beyond(h.m, b), Prev(h.m, b);
    assert Avoids(h.m, w, y, 0) && Walk(h.m, w, 0) == w;
    var i := FirstMeeting(h.m, w, y, q);
    SameOnward(h, l, b, i);
    if i <= q {
      LeftAt(h, l, b, y);
      assert Walk(m', w, i + 1) == w;
      CycleNeverEnds(m', w, i + 1, q);
    } else {
      assert Avoids(h.m, w, y, q);
      SameOnward(h, l, b, q);
    }
  }

  lemma LeftEndsIff(h: Heap, l: Layout, b: nat)
    requires Consistent(h, l) && b in l.bs && BlockLinks(h, l, b) && FreeBlock(h.m, Prev(h.m, b))
    requires Onward(h, l, b)
    ensures var h' := FreeUsed(h, b);
      Ends(h'.m, h'.head) <==> EndsWithout(h.m, Beyond(h.m, b), Prev(h.m, b))
  {
    var h', w, y := FreeUsed(h, b), Beyond(h.m, b), Prev(h.m, b);
    LeftAt(h, l, b, b);
    var j := IndexOf(l.ls, y);
    var s := l.ls[..j + 1];
    LeftPrefix(h, l, b);
    WalkPath(h'.m, s, w, j + 1);
    if EndsWithout(h.m, w, y) {
      var n :| Walk(h.m, w, n) == 0 && Avoids(h.m, w, y, n);
      SameOnward(h, l, b, n);
      WalkAdd(h'.m, h'.head, j + 1, n);
    } else {
      forall n: nat ensures Walk(h'.m, h'.head, n) != 0 {
        if n <= j {
          WalkPath(h'.m, s, w, n);
          EntryPositive(h'.m, s, w, n);
        } else {
          WalkAdd(h'.m, h'.head, j + 1, n - j - 1);
          RoundAndRound(h, l, b, n - j - 1);
        }
      }
    }
  }

  lemma PushedPath(h: Heap, l: Layout, b: nat)
    requires Consistent(h, l) && b in l.bs && BlockLinks(h, l, b) && !FreeBlock(h.m, Prev(h.m, b)) && b !in l.ls
    ensures Path(FreeUsed(h, b).m, [b] + l.ls, 0)
  {
    var s, m' := [b] + l.ls, FreeUsed(h, b).m;
    BlockPositive(h, l, b);
    forall p | 0 <= p < |s| ensures StepAt(m', s, 0, p) {
      if p == 0 {
        PushedAt(h, l, b, b);
      } else {
        assert l.ls[p - 1] in l.ls && LinkAt(h.m, l.ls, p - 1);
        PushedAt(h, l, b, l.ls[p - 1]);
      }
    }
  }

  lemma PushedLoops(h: Heap, l: Layout, b: nat, k: nat)
    requires Consistent(h, l) && k < |l.ls| && l.ls[k] == b && b in l.bs && !FreeBlock(h.m, Prev(h.m, b))
    ensures Path(FreeUsed(h, b).m, [b] + l.ls[..k], b)
  {
    LinksOfListed(h, l, k);
    var s, m' := [b] + l.ls[..k], FreeUsed(h, b).m;
    forall p | 0 <= p < |s| ensures StepAt(m', s, b, p) {
      var o := if p == 0 then k else p - 1;
      assert l.ls[o] in l.ls && LinkAt(h.m, l.ls, o) && s[p] == l.ls[o];
      if o != k {
        assert l.ls[o] != l.ls[k];
      }
      PushedAt(h, l, b, l.ls[o]);
    }
  }

  lemma PushedEndsIff(h: Heap, l: Layout, b: nat)
    requires Consistent(h, l) && b in l.bs && BlockLinks(h, l, b) && !FreeBlock(h.m, Prev(h.m, b))
    ensures var h' := FreeUsed(h, b); Ends(h'.m, h'.head) <==> b !in l.ls
  {
    var h' := FreeUsed(h, b);
    PushedAt(h, l, b, b);
    if b in l.ls {
      var k := IndexOf(l.ls, b);
      PushedLoops(h, l, b, k);
      LoopNeverEnds(h'.m, [b] + l.ls[..k], 0);
    } else {
      PushedPath(h, l, b);
      PathEnds(h'.m, [b] + l.ls, h'.head);
    }
  }

  /** The release puts `b` in front of a list that it is not on, or merges it into a block before from
      which the links beyond `b` lead to an end. */
  ghost predicate LeadsOn(h: Heap, l: Layout, b: nat) {
    if FreeBlock(h.m, Prev(h.m, b)) then EndsWithout(h.m, Beyond(h.m, b), Prev(h.m, b)) else b !in l.ls
  }

  /** A release leaves a list that ends exactly when the block was off the list and is put at its head,
      or is merged into the block before and that one leads on. A block allocated by splitting is still
      on the list, so releasing it ends well only if the block before it there is free. */
  lemma ListEndsIff(h: Heap, l: Layout, b: nat)
    requires Consistent(h, l) && b in l.bs && Flags(h.m, b) == USED && BlockLinks(h, l, b) && Onward(h, l, b)
    ensures var h' := FreeUsed(h, b); Ends(h'.m, h'.head) <==> LeadsOn(h, l, b)
  {
    if FreeBlock(h.m, Prev(h.m, b)) {
      LeftEndsIff(h, l, b);
    } else {
      PushedEndsIff(h, l, b);
    }
  }

  /** On an ascending list and with listed links, one leads on exactly in the order of addresses. */
  lemma LeadsOnInOrder(h: Heap, l: Layout, b: nat)
    requires HeapOk(h, l) && b in l.bs && ListedLinks(h, l, b) && FreeBlock(h.m, Prev(h.m, b))
    ensures var y, w := Prev(h.m, b), Beyond(h.m, b); EndsWithout(h.m, w, y) <==> w == 0 || w > y
  {
    BeyondListed(h, l, b);
    var y, w := Prev(h.m, b), Beyond(h.m, b);
    var j, i := IndexOf(l.ls, y), PlaceOf(l.ls, w);
    if w != 0 {
      SortedPlaces(l.ls, j, i);
    }
    if j < i {
      forall n | 0 <= n < |l.ls| - i ensures Walk(h.m, w, n) != y {
        ListWalk(h, l, i, n);
        SortedPlaces(l.ls, j, i + n);
      }
      ListWalk(h, l, i, |l.ls| - i);
      assert Avoids(h.m, w, y, |l.ls| - i);
    } else {
      forall n | Walk(h.m, w, n) == 0 ensures !Avoids(h.m, w, y, n) {
        ListWalk(h, l, i, j - i);
        ListWalk(h, l, i, n);
        EntryListed(h, l, i + n);
      }
    }
  }

  lemma EntryListed(h: Heap, l: Layout, k: nat)
    requires Consistent(h, l)
    ensures k < |l.ls| ==> l.ls[k] > 0
  {
    if k < |l.ls| {
      assert LinkAt(h.m, l.ls, k);
    }
  }

  /** The same where the links of `b` are in the order of addresses, as they are for every listed block:
      the list ends exactly when `b` was off it or the block before is free. */
  lemma ListEndsInOrder(h: Heap, l: Layout, b: nat)
    requires HeapOk(h, l) && b in l.bs && Flags(h.m, b) == USED && ListedLinks(h, l, b)
    requires b in l.ls || (Prev(h.m, b) < b && (Next(h.m, b) == 0 || b < Next(h.m, b)))
    ensures var h' := FreeUsed(h, b);
      Ends(h'.m, h'.head) <==> b !in l.ls || FreeBlock(h.m, Prev(h.m, b))
  {
    OnwardListed(h, l, b);
    ListEndsIff(h, l, b);
    if FreeBlock(h.m, Prev(h.m, b)) {
      LeadsOnInOrder(h, l, b);
    }
    if b in l.ls {
      BeyondOrdered(h, l, IndexOf(l.ls, b));
    } else if Next(h.m, b) != 0 {
      LinksOfListed(h, l, IndexOf(l.ls, Next(h.m, b)));
    }
  }

  lemma BlockPositive(h: Heap, l: Layout, b: nat)
    requires Consistent(h, l) && b in l.bs
    ensures b > 0
  {
    BlockInside(h.m, l.bs, h.base, h.end, IndexOf(l.bs, b));
  }

  // ---------------------------------------------------------------- when the heap is still sound

  lemma {:induction false} SameTile(m: Memory, bs: seq<nat>, cs: seq<nat>, base: nat, end: nat, i: nat)
    requires Tiled(m, bs, base, end) && Tiled(m, cs, base, end) && i < |bs|
    ensures i < |cs| && cs[i] == bs[i]
  {
    if i > 0 {
      SameTile(m, bs, cs, base, end, i - 1);
      assert TileAt(m, bs, end, i - 1) && TileAt(m, cs, end, i - 1);
      BlockInside(m, bs, base, end, i);
    }
  }

  /** A tiling is determined by the headers. */
  lemma TilingUnique(m: Memory, bs: seq<nat>, cs: seq<nat>, base: nat, end: nat)
    requires Tiled(m, bs, base, end) && Tiled(m, cs, base, end)
    ensures bs == cs
  {
    SameTile(m, bs, cs, base, end, |bs| - 1);
    SameTile(m, cs, bs, base, end, |cs| - 1);
    forall i | 0 <= i < |bs| ensures bs[i] == cs[i] {
      SameTile(m, bs, cs, base, end, i);
    }
  }

  /** The links of a listed block are in the order of addresses. */
  lemma BeyondOrdered(h: Heap, l: Layout, k: nat)
    requires HeapOk(h, l) && k < |l.ls|
    ensures Prev(h.m, l.ls[k]) < l.ls[k]
    ensures Beyond(h.m, l.ls[k]) == 0 || Beyond(h.m, l.ls[k]) > l.ls[k]
  {
    LinksOfListed(h, l, k);
    assert LinkAt(h.m, l.ls, k);
    if k + 1 < |l.ls| {
      LinksOfListed(h, l, k + 1);
    }
  }

  /** Merged into the block before, which then leads on past `b`: the list goes round `b`. */
  lemma LeftPath(h: Heap, l: Layout, b: nat)
    requires HeapOk(h, l) && b in l.bs && ListedLinks(h, l, b) && FreeBlock(h.m, Prev(h.m, b))
    requires var w := Beyond(h.m, b); w == 0 || w > Prev(h.m, b)
    ensures Beyond(h.m, b) == 0 || Beyond(h.m, b) in l.ls
    ensures var j, i := IndexOf(l.ls, Prev(h.m, b)), PlaceOf(l.ls, Beyond(h.m, b));
      j < i && b !in Bypass(l.ls, j, i) && Path(FreeUsed(h, b).m, Bypass(l.ls, j, i), 0)
  {
    BeyondListed(h, l, b);
    var w, y := Beyond(h.m, b), Prev(h.m, b);
    var j, i := IndexOf(l.ls, y), PlaceOf(l.ls, w);
    if w != 0 {
      SortedPlaces(l.ls, j, i);
    }
    var r, m' := Bypass(l.ls, j, i), FreeUsed(h, b).m;
    BypassAvoids(h, l, b, j, i);
    forall p | 0 <= p < |r| ensures StepAt(m', r, 0, p) {
      var o := if p <= j then p else i + (p - j - 1);
      assert r[p] == l.ls[o];
      LeftStep(h, l, b, o);
    }
  }

  lemma BypassAvoids(h: Heap, l: Layout, b: nat, j: nat, i: nat)
    requires HeapOk(h, l) && ListedLinks(h, l, b) && j < i <= |l.ls| && l.ls[j] == Prev(h.m, b) != 0
    requires i == |l.ls| || l.ls[i] == Beyond(h.m, b)
    requires i == |l.ls| ==> Beyond(h.m, b) == 0
    ensures b !in Bypass(l.ls, j, i)
  {
    if b in l.ls {
      var k := IndexOf(l.ls, b);
      LinksOfListed(h, l, k);
      SortedPlaces(l.ls, j, k - 1);
      if k + 1 < |l.ls| {
        LinksOfListed(h, l, k + 1);
      }
      assert j < k < i;
      forall p | 0 <= p < |Bypass(l.ls, j, i)| ensures Bypass(l.ls, j, i)[p] != b {
        var o := if p <= j then p else i + (p - j - 1);
        SortedPlaces(l.ls, o, k);
      }
    }
  }

  /** What a release merges with lies right beside the block. */
  predicate MergesNeighbours(m: Memory, b: nat) {
    && (FreeBlock(m, Next(m, b)) ==> Next(m, b) == b + HEADER + Size(m, b))
    && (FreeBlock(m, Prev(m, b)) ==> b == Prev(m, b) + HEADER + Size(m, Prev(m, b)))
  }

  lemma BesideIsNext(m: Memory, bs: seq<nat>, base: nat, end: nat, i: nat, x: nat)
    requires Tiled(m, bs, base, end) && i < |bs| && x in bs && x == bs[i] + HEADER + Size(m, bs[i])
    ensures i + 1 < |bs| && bs[i + 1] == x
  {
    assert TileAt(m, bs, end, i);
    BlockInside(m, bs, base, end, IndexOf(bs, x));
  }

  lemma NeighboursOf(h: Heap, l: Layout, i: nat)
    requires HeapOk(h, l) && i < |l.bs| && ListedLinks(h, l, l.bs[i]) && MergesNeighbours(h.m, l.bs[i])
    ensures NeighbourLinks(h.m, l.bs, i) && !LeadsBack(h.m, l.bs[i])
  {
    var b, x, y := l.bs[i], Next(h.m, l.bs[i]), Prev(h.m, l.bs[i]);
    BeyondListed(h, l, b);
    BlockPositive(h, l, b);
    if FreeBlock(h.m, x) {
      BesideIsNext(h.m, l.bs, h.base, h.end, i, x);
    }
    if FreeBlock(h.m, y) {
      var j := IndexOf(l.bs, y);
      BesideIsNext(h.m, l.bs, h.base, h.end, j, b);
      SamePlace(h, l, i, j + 1);
    }
  }

  lemma SamePlace(h: Heap, l: Layout, i: nat, j: nat)
    requires HeapOk(h, l) && i < |l.bs| && j < |l.bs| && l.bs[i] == l.bs[j]
    ensures i == j
  {
    if i < j {
      BlocksApart(h.m, l.bs, h.base, h.end, i, j);
    } else if j < i {
      BlocksApart(h.m, l.bs, h.base, h.end, j, i);
    }
  }

  lemma ReleasedTiled(h: Heap, l: Layout, i: nat)
    requires HeapOk(h, l) && i < |l.bs| && ListedLinks(h, l, l.bs[i]) && MergesNeighbours(h.m, l.bs[i])
    ensures Tiled(FreeUsed(h, l.bs[i]).m, FreedBlocks(h.m, l.bs, i), h.base, h.end)
  {
    NeighboursOf(h, l, i);
    if h.head != 0 {
      assert l.ls[0] in l.ls;
    }
    KfreeKeepsTiling(h, l.bs, i);
  }

  lemma WithoutMembers(h: Heap, l: Layout, i: nat, c: nat)
    requires HeapOk(h, l) && i < |l.bs|
    ensures c in Without(l.bs, i) <==> c in l.bs && c != l.bs[i]
  {
    var r := Without(l.bs, i);
    if c in r {
      var p :| 0 <= p < |r| && r[p] == c;
      var o := if p < i then p else p + 1;
      assert l.bs[o] == c;
      if c == l.bs[i] {
        SamePlace(h, l, i, o);
      }
    }
    if c in l.bs && c != l.bs[i] {
      var o := IndexOf(l.bs, c);
      assert r[if o < i then o else o - 1] == c;
    }
  }

  /** The blocks that are left: all but those that were absorbed. */
  lemma FreedMembers(h: Heap, l: Layout, i: nat, c: nat)
    requires HeapOk(h, l) && i < |l.bs| && ListedLinks(h, l, l.bs[i]) && MergesNeighbours(h.m, l.bs[i])
    ensures var b := l.bs[i];
      c in FreedBlocks(h.m, l.bs, i) <==>
        && c in l.bs && (FreeBlock(h.m, Next(h.m, b)) ==> c != Next(h.m, b))
        && (FreeBlock(h.m, Prev(h.m, b)) ==> c != b)
  {
    NeighboursOf(h, l, i);
    var b, bs := l.bs[i], l.bs;
    var x, y := Next(h.m, b), Prev(h.m, b);
    if FreeBlock(h.m, x) {
      WithoutMembers(h, l, i + 1, c);
      if FreeBlock(h.m, y) {
        TwiceWithout(h, l, i, c);
      }
    } else if FreeBlock(h.m, y) {
      WithoutMembers(h, l, i, c);
    }
  }

  lemma TwiceWithout(h: Heap, l: Layout, i: nat, c: nat)
    requires HeapOk(h, l) && i + 1 < |l.bs|
    ensures c in Without(Without(l.bs, i + 1), i) <==> c in l.bs && c != l.bs[i] && c != l.bs[i + 1]
  {
    WithoutMembers(h, l, i + 1, c);
    WithoutMembers(h, l, i, c);
    TwiceMembers(l.bs, i, c);
  }

  lemma TwiceMembers(s: seq<nat>, i: nat, c: nat)
    requires i + 1 < |s|
    ensures c in Without(Without(s, i + 1), i) ==> c in Without(s, i + 1) && c in Without(s, i)
    ensures c in Without(s, i + 1) && c != s[i] ==> c in Without(Without(s, i + 1), i)
  {
    assert Without(Without(s, i + 1), i) == s[..i] + s[i + 2..];
    assert Without(s, i) == s[..i] + s[i + 1..] && s[i + 1..] == [s[i + 1]] + s[i + 2..];
    assert Without(s, i + 1) == s[..i] + [s[i]] + s[i + 2..];
  }

  /** No free block is passed over when the list goes from `y` to `w`, save the absorbed `x`. */
  ghost predicate PassesOnlyUsed(m: Memory, ls: seq<nat>, y: nat, w: nat, x: nat) {
    forall c :: c in ls && y < c && (w == 0 || c < w) && c != x ==> Flags(m, c) != FREE
  }

  /** What a release needs of the list. */
  ghost predicate ReleaseFits(h: Heap, l: Layout, b: nat) {
    var x, y, w := Next(h.m, b), Prev(h.m, b), Beyond(h.m, b);
    if FreeBlock(h.m, y) then b in l.ls || ((w == 0 || w > y) && PassesOnlyUsed(h.m, l.ls, y, w, x))
    else b !in l.ls && !FreeBlock(h.m, x) && (l.ls == [] || b < l.ls[0])
  }

  /** What a release can be asked about: a used block whose links are null or listed, and which merges
      with physical neighbours only. */
  ghost predicate Releasable(h: Heap, l: Layout, i: nat) {
    && HeapOk(h, l) && i < |l.bs| && Flags(h.m, l.bs[i]) == USED
    && ListedLinks(h, l, l.bs[i]) && MergesNeighbours(h.m, l.bs[i])
  }

  /** Between the neighbours of a listed block lies only the block, and what it absorbs. */
  lemma ListedPasses(h: Heap, l: Layout, k: nat)
    requires HeapOk(h, l) && k < |l.ls| && Flags(h.m, l.ls[k]) == USED && Prev(h.m, l.ls[k]) != 0
    ensures var b := l.ls[k];
      PassesOnlyUsed(h.m, l.ls, Prev(h.m, b), Beyond(h.m, b), Next(h.m, b))
      && (Beyond(h.m, b) == 0 || Beyond(h.m, b) > Prev(h.m, b))
  {
    var b := l.ls[k];
    LinksOfListed(h, l, k);
    BeyondOrdered(h, l, k);
    if k + 1 < |l.ls| {
      LinksOfListed(h, l, k + 1);
    }
    var x, y, w := Next(h.m, b), Prev(h.m, b), Beyond(h.m, b);
    forall c | c in l.ls && y < c && (w == 0 || c < w) && c != x ensures c == b {
      var p := IndexOf(l.ls, c);
      SortedPlaces(l.ls, k - 1, p);
      SortedPlaces(l.ls, k, p);
      if w != 0 {
        SortedPlaces(l.ls, p, IndexOf(l.ls, w));
      }
      BetweenPlaces(h, l, k, p);
    }
  }

  lemma BetweenPlaces(h: Heap, l: Layout, k: nat, p: nat)
    requires HeapOk(h, l) && k < |l.ls| && k <= p < |l.ls|
    requires var w := Beyond(h.m, l.ls[k]); w == 0 || l.ls[p] < w
    ensures p == k || l.ls[p] == Next(h.m, l.ls[k])
  {
    LinksOfListed(h, l, k);
    if k + 1 < |l.ls| {
      LinksOfListed(h, l, k + 1);
      SortedPlaces(l.ls, k + 1, p);
      if k + 2 < |l.ls| {
        SortedPlaces(l.ls, p, k + 2);
      }
    }
  }

  /** The bypass as a list of its own. */
  lemma LeftLinked(h: Heap, l: Layout, b: nat)
    requires HeapOk(h, l) && b in l.bs && ListedLinks(h, l, b) && FreeBlock(h.m, Prev(h.m, b))
    requires var w := Beyond(h.m, b); w == 0 || w > Prev(h.m, b)
    ensures Beyond(h.m, b) == 0 || Beyond(h.m, b) in l.ls
    ensures var j, i := IndexOf(l.ls, Prev(h.m, b)), PlaceOf(l.ls, Beyond(h.m, b));
      && j < i && Linked(FreeUsed(h, b).m, Bypass(l.ls, j, i), h.head) && Sorted(Bypass(l.ls, j, i))
  {
    LeftPath(h, l, b);
    var w, y, m' := Beyond(h.m, b), Prev(h.m, b), FreeUsed(h, b).m;
    var j, i := IndexOf(l.ls, y), PlaceOf(l.ls, w);
    var r := Bypass(l.ls, j, i);
    BypassSorted(l.ls, j, i);
    forall p | 0 <= p < |r| ensures LinkAt(m', r, p) {
      LeftLinkAt(h, l, b, j, i, p);
    }
  }

  lemma BypassSorted(ls: seq<nat>, j: nat, i: nat)
    requires Sorted(ls) && j < i <= |ls|
    ensures Sorted(Bypass(ls, j, i))
  {
    var r := Bypass(ls, j, i);
    forall p, q | 0 <= p < q < |r| ensures r[p] < r[q] {
      SortedPlaces(ls, if p <= j then p else i + (p - j - 1), if q <= j then q else i + (q - j - 1));
    }
  }

  lemma LeftLinkAt(h: Heap, l: Layout, b: nat, j: nat, i: nat, p: nat)
    requires HeapOk(h, l) && b in l.bs && ListedLinks(h, l, b) && FreeBlock(h.m, Prev(h.m, b))
    requires j < i <= |l.ls| && l.ls[j] == Prev(h.m, b)
    requires if i < |l.ls| then l.ls[i] == Beyond(h.m, b) else Beyond(h.m, b) == 0
    requires p < |Bypass(l.ls, j, i)| && StepAt(FreeUsed(h, b).m, Bypass(l.ls, j, i), 0, p)
    ensures LinkAt(FreeUsed(h, b).m, Bypass(l.ls, j, i), p)
  {
    var r, o := Bypass(l.ls, j, i), if p <= j then p else i + (p - j - 1);
    assert r[p] == l.ls[o] && l.ls[o] in l.ls;
    assert p > 0 ==> r[p - 1] == if p == j + 1 then l.ls[j] else l.ls[o - 1];
    LeftAt(h, l, b, l.ls[o]);
    LinksOfListed(h, l, o);
    if i < |l.ls| {
      SortedPlaces(l.ls, o, i);
    }
  }

  lemma BypassMembers(ls: seq<nat>, j: nat, i: nat, c: nat)
    requires Sorted(ls) && j < i <= |ls|
    ensures c in Bypass(ls, j, i) <==> c in ls && (c <= ls[j] || (i < |ls| && ls[i] <= c))
  {
    var r := Bypass(ls, j, i);
    if c in r {
      var p :| 0 <= p < |r| && r[p] == c;
      assert c == ls[if p <= j then p else i + (p - j - 1)];
    }
    if c in ls {
      var o := IndexOf(ls, c);
      if o <= j {
        assert r[o] == c;
      } else if i <= o {
        assert r[j + 1 + (o - i)] == c;
      }
    }
  }

  /** A block absorbed on the right is passed over. */
  lemma AbsorbedPassed(h: Heap, l: Layout, b: nat)
    requires HeapOk(h, l) && b in l.bs && ListedLinks(h, l, b) && MergesNeighbours(h.m, b)
    requires FreeBlock(h.m, Prev(h.m, b)) && FreeBlock(h.m, Next(h.m, b))
    ensures var x, y, w := Next(h.m, b), Prev(h.m, b), Beyond(h.m, b); y < x && (w == 0 || x < w)
  {
    LinksOfListed(h, l, IndexOf(l.ls, Next(h.m, b)));
  }

  /** Who is on the bypass and who is left as a block. */
  lemma LeftMembers(h: Heap, l: Layout, i: nat, c: nat)
    requires Releasable(h, l, i) && FreeBlock(h.m, Prev(h.m, l.bs[i])) && ReleaseFits(h, l, l.bs[i])
    requires var b := l.bs[i]; Beyond(h.m, b) == 0 || (Beyond(h.m, b) in l.ls && Beyond(h.m, b) > Prev(h.m, b))
    requires PassesOnlyUsed(h.m, l.ls, Prev(h.m, l.bs[i]), Beyond(h.m, l.bs[i]), Next(h.m, l.bs[i]))
    requires IndexOf(l.ls, Prev(h.m, l.bs[i])) < PlaceOf(l.ls, Beyond(h.m, l.bs[i]))
    ensures var b := l.bs[i];
      var r, bs' := Bypass(l.ls, IndexOf(l.ls, Prev(h.m, b)), PlaceOf(l.ls, Beyond(h.m, b))), FreedBlocks(h.m, l.bs, i);
      && (c in r ==> c in bs') && (c in bs' && Flags(FreeUsed(h, b).m, c) == FREE ==> c in r)
  {
    var b := l.bs[i];
    var x, y, w := Next(h.m, b), Prev(h.m, b), Beyond(h.m, b);
    FreedMembers(h, l, i, c);
    BypassMembers(l.ls, IndexOf(l.ls, y), PlaceOf(l.ls, w), c);
    BypassAvoids(h, l, b, IndexOf(l.ls, y), PlaceOf(l.ls, w));
    if FreeBlock(h.m, x) {
      AbsorbedPassed(h, l, b);
    }
    if c in l.bs {
      LeftAt(h, l, b, c);
    }
  }

  lemma LeftSound(h: Heap, l: Layout, i: nat) returns (l': Layout)
    requires Releasable(h, l, i) && FreeBlock(h.m, Prev(h.m, l.bs[i])) && ReleaseFits(h, l, l.bs[i])
    ensures HeapOk(FreeUsed(h, l.bs[i]), l')
  {
    var b := l.bs[i];
    if b in l.ls {
      ListedPasses(h, l, IndexOf(l.ls, b));
    }
    LeftLinked(h, l, b);
    var r := Bypass(l.ls, IndexOf(l.ls, Prev(h.m, b)), PlaceOf(l.ls, Beyond(h.m, b)));
    var bs' := FreedBlocks(h.m, l.bs, i);
    ReleasedTiled(h, l, i);
    LeftAt(h, l, b, b);
    forall c ensures (c in r ==> c in bs') && (c in bs' && Flags(FreeUsed(h, b).m, c) == FREE ==> c in r)
      ensures c in bs' ==> c in l.bs
    {
      LeftMembers(h, l, i, c);
      FreedMembers(h, l, i, c);
    }
    l' := Layout(bs', r);
  }

  lemma PushedLinked(h: Heap, l: Layout, f: nat)
    requires Consistent(h, l) && f in l.bs && f !in l.ls && BlockLinks(h, l, f)
    requires !FreeBlock(h.m, Next(h.m, f)) && !FreeBlock(h.m, Prev(h.m, f))
    ensures Linked(FreeUsed(h, f).m, [f] + l.ls, f)
  {
    var m', s := FreeUsed(h, f).m, [f] + l.ls;
    PushedPath(h, l, f);
    forall p | 0 <= p < |s| ensures LinkAt(m', s, p) {
      assert StepAt(m', s, 0, p);
      if p == 0 {
        PushedAt(h, l, f, f);
      } else {
        assert l.ls[p - 1] in l.ls;
        PushedAt(h, l, f, l.ls[p - 1]);
        LinksOfListed(h, l, p - 1);
        if p > 1 {
          assert l.ls[0] != l.ls[p - 1];
        }
      }
    }
  }

  lemma PushedSound(h: Heap, l: Layout, i: nat) returns (l': Layout)
    requires Releasable(h, l, i) && !FreeBlock(h.m, Prev(h.m, l.bs[i])) && ReleaseFits(h, l, l.bs[i])
    ensures HeapOk(FreeUsed(h, l.bs[i]), l')
  {
    var b := l.bs[i];
    var s, h' := [b] + l.ls, FreeUsed(h, b);
    ReleasedTiled(h, l, i);
    PushedLinked(h, l, b);
    PushedAt(h, l, b, b);
    forall c | c in l.bs && Flags(h'.m, c) == FREE ensures c in s {
      PushedAt(h, l, b, c);
    }
    assert FreedBlocks(h.m, l.bs, i) == l.bs;
    l' := Layout(l.bs, s);
  }

  /** A consistent heap has a list that ends. */
  lemma SoundEnds(h: Heap, l: Layout)
    requires Consistent(h, l)
    ensures Path(h.m, l.ls, 0) && HeadOf(l.ls) == h.head && Ends(h.m, h.head)
  {
    LinkedIsPath(h.m, l.ls, h.head);
    PathEnds(h.m, l.ls, h.head);
  }

  lemma LeftFits(h: Heap, l: Layout, i: nat, l': Layout)
    requires Releasable(h, l, i) && FreeBlock(h.m, Prev(h.m, l.bs[i])) && HeapOk(FreeUsed(h, l.bs[i]), l')
    ensures ReleaseFits(h, l, l.bs[i])
  {
    var b := l.bs[i];
    var h', x, y, w := FreeUsed(h, b), Next(h.m, b), Prev(h.m, b), Beyond(h.m, b);
    SoundEnds(h', l');
    OnwardListed(h, l, b);
    LeftEndsIff(h, l, b);
    LeadsOnInOrder(h, l, b);
    LeftPath(h, l, b);
    LeftAt(h, l, b, b);
    var r := Bypass(l.ls, IndexOf(l.ls, y), PlaceOf(l.ls, w));
    PathUnique(h'.m, r, l'.ls);
    ReleasedTiled(h, l, i);
    TilingUnique(h'.m, l'.bs, FreedBlocks(h.m, l.bs, i), h.base, h.end);
    if b !in l.ls {
      forall c | c in l.ls && y < c && (w == 0 || c < w) && c != x ensures Flags(h.m, c) != FREE {
        BypassMembers(l.ls, IndexOf(l.ls, y), PlaceOf(l.ls, w), c);
        FreedMembers(h, l, i, c);
        LeftAt(h, l, b, c);
      }
    }
  }

  lemma PushedFits(h: Heap, l: Layout, i: nat, l': Layout)
    requires Releasable(h, l, i) && !FreeBlock(h.m, Prev(h.m, l.bs[i])) && HeapOk(FreeUsed(h, l.bs[i]), l')
    ensures ReleaseFits(h, l, l.bs[i])
  {
    var b := l.bs[i];
    var h', x := FreeUsed(h, b), Next(h.m, b);
    SoundEnds(h', l');
    PushedEndsIff(h, l, b);
    PushedPath(h, l, b);
    PushedAt(h, l, b, b);
    var s := [b] + l.ls;
    PathUnique(h'.m, s, l'.ls);
    ReleasedTiled(h, l, i);
    TilingUnique(h'.m, l'.bs, FreedBlocks(h.m, l.bs, i), h.base, h.end);
    FreedMembers(h, l, i, x);
    assert x in l.ls ==> s[1 + IndexOf(l.ls, x)] == x;
    assert l.ls != [] ==> s[0] == b && s[1] == l.ls[0];
  }

  /** Releasing a used block leaves a sound heap exactly when it merges into the block before without
      passing over a free one, or was off the list, does not merge and lies before all that is on it. */
  lemma ReleaseIsSoundIff(h: Heap, l: Layout, i: nat)
    requires Releasable(h, l, i)
    ensures (exists l' :: HeapOk(FreeUsed(h, l.bs[i]), l')) <==> ReleaseFits(h, l, l.bs[i])
  {
    var b := l.bs[i];
    if ReleaseFits(h, l, b) {
      var l';
      if FreeBlock(h.m, Prev(h.m, b)) {
        l' := LeftSound(h, l, i);
      } else {
        l' := PushedSound(h, l, i);
      }
    }
    forall l' | HeapOk(FreeUsed(h, b), l') ensures ReleaseFits(h, l, b) {
      if FreeBlock(h.m, Prev(h.m, b)) {
        LeftFits(h, l, i, l');
      } else {
        PushedFits(h, l, i, l');
      }
    }
  }

  /** So a block allocated by splitting can be released soundly exactly when the block before it on the
      list is free. */
  lemma ListedReleaseIsSoundIff(h: Heap, l: Layout, i: nat)
    requires HeapOk(h, l) && i < |l.bs| && Flags(h.m, l.bs[i]) == USED && l.bs[i] in l.ls
    requires MergesNeighbours(h.m, l.bs[i])
    ensures (exists l' :: HeapOk(FreeUsed(h, l.bs[i]), l')) <==> FreeBlock(h.m, Prev(h.m, l.bs[i]))
  {
    LinksOfListed(h, l, IndexOf(l.ls, l.bs[i]));
    ReleaseIsSoundIff(h, l, i);
  }
}

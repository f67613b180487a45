/** The DNS name encoder of `dns_resolve` and the response parser of `udp_process`
    (sections 3.1 and 4.1 of RFC 1035). */
module Dns {
  import opened Machine

  const DOT := 46
  const MAX_LABEL := 63
  const HEADER_LEN := 12
  const TYPE_A := 1

  type Label = seq<byte>

  // ---------------------------------------------------------------- names

  /** Length of the first label of a hostname. */
  function LabelLen(h: seq<byte>): (r: nat)
    ensures r <= |h| && (forall i :: 0 <= i < r ==> h[i] != DOT)
    ensures r < |h| ==> h[r] == DOT
  {
    if h == [] || h[0] == DOT then 0 else 1 + LabelLen(h[1..])
  }

  /** What is left of a hostname after its first label and the dot that ends it. */
  function AfterLabel(h: seq<byte>): (r: seq<byte>)
    ensures h != [] ==> |r| < |h|
  {
    var n := LabelLen(h);
    if n < |h| then h[n + 1..] else []
  }

  /** The labels that the encoder's loop cuts a hostname into. */
  function Labels(h: seq<byte>): seq<Label>
    decreases |h|
  {
    if h == [] then [] else [h[..LabelLen(h)]] + Labels(AfterLabel(h))
  }

  predicate Short(ls: seq<Label>) {
    forall l :: l in ls ==> |l| <= MAX_LABEL
  }

  /** Labels on the wire, each with its length. */
  function Packed(ls: seq<Label>): seq<byte>
    requires Short(ls)
  {
    if ls == [] then [] else [|ls[0]|] + ls[0] + Packed(ls[1..])
  }

  /** A whole name on the wire: its labels and the root label. */
  function Wire(ls: seq<Label>): seq<byte>
    requires Short(ls)
  {
    Packed(ls) + [0]
  }

  /** Labels joined with dots. */
  function Join(ls: seq<Label>): seq<byte> {
    if ls == [] then [] else if |ls| == 1 then ls[0] else ls[0] + [DOT] + Join(ls[1..])
  }

  /** The standard's reading of a name: labels up to the first empty one. */
  function ReadLabels(d: seq<byte>, i: nat): seq<Label>
    decreases |d| - i
  {
    var n := At(d, i);
    if n == 0 || i + 1 + n > |d| then [] else [d[i + 1..i + 1 + n]] + ReadLabels(d, i + 1 + n)
  }

  /** Every label is nonempty: no dot at either end, and no two in a row. */
  predicate Proper(h: seq<byte>) {
    forall i :: 0 <= i < |h| && h[i] == DOT ==> 0 < i < |h| - 1 && h[i + 1] != DOT
  }

  /** Labels before the first empty one. */
  function UpToEmpty(ls: seq<Label>): seq<Label> {
    if ls == [] || ls[0] == [] then [] else [ls[0]] + UpToEmpty(ls[1..])
  }

  lemma {:induction false} WireReads(ls: seq<Label>, d: seq<byte>, i: nat)
    requires Short(ls) && Match(d, i, Wire(ls))
    ensures ReadLabels(d, i) == UpToEmpty(ls)
    decreases |ls|
  {
    if ls == [] {
      assert d[i + 0] == Wire(ls)[0];
    } else {
      FirstLabelReads(ls, d, i, ls[0], Wire(ls[1..]));
      if ls[0] != [] {
        WireReads(ls[1..], d, i + 1 + |ls[0]|);
      }
    }
  }

  /** The first label on the wire, and where the others start. */
  lemma FirstLabelReads(ls: seq<Label>, d: seq<byte>, i: nat, l: Label, rest: seq<byte>)
    requires Short(ls) && ls != [] && Match(d, i, Wire(ls)) && l == ls[0] && rest == Wire(ls[1..])
    ensures At(d, i) == |l| && i + 1 + |l| <= |d| && d[i + 1..i + 1 + |l|] == l && Match(d, i + 1 + |l|, rest)
  {
    Associative([|l|] + l, Packed(ls[1..]), [0]);
    assert Wire(ls) == [|l|] + l + rest;
    LabelMatches(d, i, l, rest);
  }

  lemma LabelMatches(d: seq<byte>, i: nat, l: Label, rest: seq<byte>)
    requires |l| < 0x100 && Match(d, i, [|l|] + l + rest)
    ensures At(d, i) == |l| && i + 1 + |l| <= |d| && d[i + 1..i + 1 + |l|] == l && Match(d, i + 1 + |l|, rest)
  {
    MatchSplit(d, i, [|l|] + l, rest);
    MatchSplit(d, i, [|l|], l);
    assert d[i + 0] == [|l|][0];
  }

  /** A dot-free nonempty label. */
  predicate Plain(l: Label) {
    l != [] && DOT !in l
  }

  lemma {:induction false} JoinIsProper(ls: seq<Label>)
    requires forall l :: l in ls ==> Plain(l)
    ensures Proper(Join(ls))
    ensures ls != [] ==> Join(ls) != [] && Join(ls)[0] != DOT
  {
    if |ls| >= 1 {
      assert ls[0] in ls && ls[0][0] in ls[0];
    }
    if |ls| >= 2 {
      JoinIsProper(ls[1..]);
      var rest := Join(ls[1..]);
      var n := |ls[0]|;
      assert forall i :: 0 <= i < n ==> ls[0][i] in ls[0];
      forall i | 0 <= i < |Join(ls)| && Join(ls)[i] == DOT
        ensures 0 < i < |Join(ls)| - 1 && Join(ls)[i + 1] != DOT
      {
        if i > n {
          assert Join(ls)[i] == rest[i - n - 1];
          assert Join(ls)[i + 1] == rest[i - n];
        } else if i == n {
          assert Join(ls)[i + 1] == rest[0];
        }
      }
    } else if |ls| == 1 {
      assert forall i :: 0 <= i < |ls[0]| ==> ls[0][i] in ls[0];
    }
  }

  lemma ProperRest(h: seq<byte>)
    requires Proper(h) && LabelLen(h) < |h|
    ensures Proper(AfterLabel(h)) && AfterLabel(h) != [] && LabelLen(h) > 0
    ensures h == h[..LabelLen(h)] + [DOT] + AfterLabel(h)
  {
    var n := LabelLen(h);
    assert h[n] == DOT;
    ProperAfter(h, n);
    assert AfterLabel(h) == h[n + 1..];
  }

  lemma ProperAfter(h: seq<byte>, n: nat)
    requires Proper(h) && n < |h| && h[n] == DOT
    ensures 0 < n < |h| - 1 && Proper(h[n + 1..]) && h == h[..n] + [DOT] + h[n + 1..]
  {
    var rest := h[n + 1..];
    forall i | 0 <= i < |rest| && rest[i] == DOT ensures 0 < i < |rest| - 1 && rest[i + 1] != DOT {
      assert h[n + 1 + i] == DOT;
    }
  }

  lemma {:induction false} LabelsOfProper(h: seq<byte>)
    requires Proper(h)
    ensures Join(Labels(h)) == h
    ensures forall l :: l in Labels(h) ==> Plain(l)
    decreases |h|
  {
    if h != [] {
      var n, rest := LabelLen(h), AfterLabel(h);
      if n < |h| {
        ProperRest(h);
        LabelsOfProper(rest);
        assert Labels(h)[1..] == Labels(rest) && Labels(rest) != [];
      } else {
        assert h[..n] == h && rest == [];
        assert Labels(h) == [h] + Labels(rest) == [h];
      }
    }
  }

  lemma {:induction false} LabelsArePlainUpToEmpty(h: seq<byte>)
    ensures forall l :: l in UpToEmpty(Labels(h)) ==> Plain(l)
    decreases |h|
  {
    if h != [] {
      assert Labels(h)[1..] == Labels(AfterLabel(h));
      LabelsArePlainUpToEmpty(AfterLabel(h));
    }
  }

  lemma {:induction false} UpToEmptyOfPlain(ls: seq<Label>)
    requires forall l :: l in ls ==> Plain(l)
    ensures UpToEmpty(ls) == ls
  {
    if ls != [] {
      assert ls[0] in ls;
      UpToEmptyOfPlain(ls[1..]);
    }
  }

  /** An emitted name decodes back to the hostname exactly when none of its labels is empty. */
  lemma NameRoundTrip(h: seq<byte>)
    requires Short(Labels(h))
    ensures Join(ReadLabels(Wire(Labels(h)), 0)) == h <==> Proper(h)
  {
    var ls := Labels(h);
    WireReads(ls, Wire(ls), 0);
    if Proper(h) {
      LabelsOfProper(h);
      UpToEmptyOfPlain(ls);
    }
    LabelsArePlainUpToEmpty(h);
    JoinIsProper(UpToEmpty(ls));
  }

  /** The name "a.": after its dot there is only an empty label, and it reads back as "a". */
  lemma FinalDot()
    ensures var h: seq<byte> := ['a' as int, DOT];
      Short(Labels(h)) && !Proper(h) && Join(ReadLabels(Wire(Labels(h)), 0)) == ['a' as int]
  {
    var h: seq<byte> := ['a' as int, DOT];
    assert h[1] == DOT;
    LabelLenIs(h, 1);
    var ls := Labels(h);
    assert h[..1] == ['a' as int] && AfterLabel(h) == [];
    assert Labels(AfterLabel(h)) == [];
    assert ls == [h[..1]];
    WireReads(ls, Wire(ls), 0);
    assert UpToEmpty(ls) == ls;
  }

  // ---------------------------------------------------------------- the encoder

  lemma LabelLenIs(h: seq<byte>, n: nat)
    requires n <= |h| && (forall i :: 0 <= i < n ==> h[i] != DOT) && (n < |h| ==> h[n] == DOT)
    ensures LabelLen(h) == n
  {
  }

  lemma {:induction false} PackedSnoc(ls: seq<Label>, l: Label)
    requires Short(ls) && |l| <= MAX_LABEL
    ensures Short(ls + [l])
    ensures Packed(ls + [l]) == Packed(ls) + [|l|] + l
  {
    if ls == [] {
      assert ls + [l] == [l];
      assert Packed([l]) == [|l|] + l + Packed([l][1..]);
    } else {
      PackedSnoc(ls[1..], l);
      assert (ls + [l])[1..] == ls[1..] + [l];
      assert Packed(ls + [l]) == [|ls[0]|] + ls[0] + (Packed(ls[1..]) + [|l|] + l);
    }
  }

  /** Position of the dot that ends the label starting at `p`, or of the end of the string. */
  method FindDot(hostname: seq<byte>, p: nat) returns (dot: nat)
    requires p <= |hostname|
    ensures dot == p + LabelLen(hostname[p..])
  {
    dot := p;
    while dot < |hostname| && hostname[dot] != DOT
      invariant p <= dot <= |hostname| && forall i :: p <= i < dot ==> hostname[i] != DOT
    {
      dot := dot + 1;
    }
    LabelLenIs(hostname[p..], dot - p);
  }

  /** Writes the length and the characters of the label from `p` to `dot`. */
  method EmitLabel(buf: array<byte>, q: nat, hostname: seq<byte>, p: nat, dot: nat, ghost l: Label)
    returns (q': nat)
    requires p <= dot <= |hostname| && l == hostname[p..dot] && q + 1 + |l| <= buf.Length && |l| <= MAX_LABEL
    modifies buf
    ensures q' == q + 1 + |l| && buf[..q'] == old(buf[..q]) + ([|l|] + l)
  {
    buf[q] := dot - p;
    q' := q + 1;
    for i := p to dot
      invariant q' == q + 1 + i - p
      invariant buf[..q'] == old(buf[..q]) + ([dot - p] + hostname[p..i])
    {
      buf[q'] := hostname[i];
      q' := q' + 1;
      assert hostname[p..i + 1] == hostname[p..i] + [hostname[i]];
    }
  }

  lemma LabelsStep(hostname: seq<byte>, p: nat, dot: nat, next: nat)
    requires p < |hostname| && dot == p + LabelLen(hostname[p..])
    requires next == if dot < |hostname| then dot + 1 else dot
    ensures Labels(hostname[p..]) == [hostname[p..dot]] + Labels(hostname[next..])
  {
    var h, n := hostname[p..], dot - p;
    assert LabelLen(h) == n && h[..n] == hostname[p..dot];
    if dot < |hostname| {
      assert h[n + 1..] == hostname[next..];
    } else {
      assert hostname[next..] == [];
    }
    assert AfterLabel(h) == hostname[next..];
  }

  /** Where the label at `p` ends, and where the next one starts. */
  method NextLabel(hostname: seq<byte>, p: nat) returns (dot: nat, next: nat)
    requires p < |hostname|
    ensures p <= dot <= next <= |hostname| && p < next && next <= dot + 1 && (next == dot ==> next == |hostname|)
    ensures Labels(hostname[p..]) == [hostname[p..dot]] + Labels(hostname[next..])
  {
    dot := FindDot(hostname, p);
    next := if dot < |hostname| then dot + 1 else dot;
    LabelsStep(hostname, p, dot, next);
  }

  /** One pass of the name loop: the label at `p`, or failure when it is too long. */
  method EncodeLabel(buf: array<byte>, q: nat, hostname: seq<byte>, p: nat)
    returns (ok: bool, q': nat, p': nat, ghost l: Label)
    requires p < |hostname| && q + 1 + (|hostname| - p) <= buf.Length
    modifies buf
    ensures p < p' <= |hostname| && Labels(hostname[p..]) == [l] + Labels(hostname[p'..])
    ensures ok <==> |l| <= MAX_LABEL
    ensures ok ==> q' == q + 1 + |l| <= q + (p' - p) + (if p' == |hostname| then 1 else 0)
    ensures ok ==> buf[..q'] == old(buf[..q]) + ([|l|] + l)
  {
    var dot;
    dot, p' := NextLabel(hostname, p);
    l := hostname[p..dot];
    ok, q' := dot - p <= MAX_LABEL, q;
    if ok {
      q' := EmitLabel(buf, q, hostname, p, dot, l);
    }
  }

  lemma TooLong(all: seq<Label>, done: seq<Label>, l: Label, rest: seq<Label>)
    requires all == done + ([l] + rest) && |l| > MAX_LABEL
    ensures !Short(all)
  {
    assert all[|done|] == l;
  }

  /** The output so far: what was there before, and the labels done. */
  ghost predicate Written(buf: seq<byte>, q: nat, before: seq<byte>, all: seq<Label>, done: seq<Label>,
                          rest: seq<Label>) {
    && all == done + rest && Short(done)
    && q == |before| + |Packed(done)| <= |buf| && buf[..q] == before + Packed(done)
  }

  lemma WrittenMore(was: seq<byte>, buf: seq<byte>, q: nat, q': nat, before: seq<byte>,
                    all: seq<Label>, done: seq<Label>, l: Label, rest: seq<Label>)
    requires Written(was, q, before, all, done, [l] + rest) && |l| <= MAX_LABEL
    requires q' == q + 1 + |l| <= |buf| && buf[..q'] == was[..q] + ([|l|] + l)
    ensures Written(buf, q', before, all, done + [l], rest)
  {
    PackedSnoc(done, l);
    assert done + ([l] + rest) == done + [l] + rest;
    assert before + Packed(done) + ([|l|] + l) == before + Packed(done + [l]);
  }

  method Step(buf: array<byte>, q: nat, hostname: seq<byte>, p: nat, ghost before: seq<byte>,
              ghost all: seq<Label>, ghost done: seq<Label>)
    returns (ok: bool, q': nat, p': nat, ghost done': seq<Label>)
    requires p < |hostname| && q + 1 + (|hostname| - p) <= buf.Length
    requires Written(buf[..], q, before, all, done, Labels(hostname[p..]))
    modifies buf
    ensures p < p' <= |hostname|
    ensures ok ==> Written(buf[..], q', before, all, done', Labels(hostname[p'..]))
    ensures ok ==> q' <= q + (p' - p) + (if p' == |hostname| then 1 else 0)
    ensures !ok ==> !Short(all)
  {
    ghost var l;
    ghost var was := buf[..];
    ok, q', p', l := EncodeLabel(buf, q, hostname, p);
    done' := done + [l];
    ghost var rest := Labels(hostname[p'..]);
    if ok {
      WrittenMore(was, buf[..], q, q', before, all, done, l, rest);
    } else {
      TooLong(all, done, l, rest);
    }
  }

  /** The name loop of `dns_resolve` up to the root label. */
  method EncodeLabels(buf: array<byte>, at: nat, hostname: seq<byte>) returns (ok: bool, q: nat)
    requires at + |hostname| + 1 <= buf.Length
    modifies buf
    ensures ok <==> Short(Labels(hostname))
    ensures ok ==> q <= at + |hostname| + 1 && buf[..q] == old(buf[..at]) + Packed(Labels(hostname))
  {
    var p := 0;
    ok, q := true, at;
    ghost var all, done: seq<Label>, before := Labels(hostname), [], buf[..at];
    assert hostname[0..] == hostname;
    while p < |hostname|
      invariant p <= |hostname| && q <= at + p + if p == |hostname| then 1 else 0
      invariant Written(buf[..], q, before, all, done, Labels(hostname[p..]))
    {
      ok, q, p, done := Step(buf, q, hostname, p, before, all, done);
      if !ok {
        return;
      }
    }
    assert hostname[p..] == [] && done == all;
  }

  /** The name loop of `dns_resolve`; `None` when a label is too long. */
  method EncodeName(buf: array<byte>, at: nat, hostname: seq<byte>) returns (end: Option<nat>)
    requires at + |hostname| + 2 <= buf.Length
    modifies buf
    ensures end.Some? <==> Short(Labels(hostname))
    ensures end.Some? ==> end.value <= buf.Length && buf[..end.value] == old(buf[..at]) + Wire(Labels(hostname))
  {
    var ok, q := EncodeLabels(buf, at, hostname);
    if !ok {
      return None;
    }
    buf[q] := 0;
    return Some(q + 1);
  }

  // ---------------------------------------------------------------- responses

  datatype Name = Full(labels: seq<Label>) | Pointer(high: byte, low: byte)
  datatype Question = Question(labels: seq<Label>, kind: seq<byte>)
  datatype Record = Record(name: Name, rtype: nat, rest: seq<byte>, rdata: seq<byte>)

  predicate LabelsOk(ls: seq<Label>) {
    Short(ls) && [] !in ls
  }

  /** `kind` is the type and class of a question, four bytes. */
  predicate QuestionOk(q: Question) {
    LabelsOk(q.labels) && |q.kind| == 4
  }

  /** A full name or a bare compression pointer; `rest` is class and time to live, six bytes. */
  predicate RecordOk(r: Record) {
    && (r.name.Full? ==> LabelsOk(r.name.labels))
    && (r.name.Pointer? ==> r.name.high >= 0xC0)
    && r.rtype < TWO_16 && |r.rest| == 6 && |r.rdata| < TWO_16
  }

  function NameBytes(n: Name): seq<byte>
    requires n.Full? ==> LabelsOk(n.labels)
  {
    match n
    case Full(ls) => Wire(ls)
    case Pointer(high, low) => [high, low]
  }

  function RecordBytes(r: Record): seq<byte>
    requires RecordOk(r)
  {
    NameBytes(r.name) + (Be16(r.rtype) + r.rest + Be16(|r.rdata|) + r.rdata)
  }

  function QuestionBytes(q: Question): seq<byte>
    requires QuestionOk(q)
  {
    Wire(q.labels) + q.kind
  }

  function AllQuestions(qs: seq<Question>): seq<byte>
    requires forall q :: q in qs ==> QuestionOk(q)
  {
    if qs == [] then [] else QuestionBytes(qs[0]) + AllQuestions(qs[1..])
  }

  function AllRecords(rs: seq<Record>): seq<byte>
    requires forall r :: r in rs ==> RecordOk(r)
  {
    if rs == [] then [] else RecordBytes(rs[0]) + AllRecords(rs[1..])
  }

  /** The address of the first A record with a four-byte address. */
  function FirstAddress(rs: seq<Record>): Option<nat> {
    if rs == [] then None
    else if rs[0].rtype == TYPE_A && |rs[0].rdata| == 4 then Some(Net32(rs[0].rdata, 0))
    else FirstAddress(rs[1..])
  }

  // ---------------------------------------------------------------- the parser

  /** The position after the name that starts at `p`, as the label loop finds it. */
  function SkipName(d: seq<byte>, p: nat): nat
    decreases |d| - p
  {
    if At(d, p) == 0 then p + 1 else SkipName(d, p + At(d, p) + 1)
  }

  function SkipQuestions(d: seq<byte>, p: nat, n: nat): nat
    decreases n
  {
    if n == 0 then p else SkipQuestions(d, SkipName(d, p) + 4, n - 1)
  }

  function AfterOwner(d: seq<byte>, p: nat): nat {
    if At(d, p) >= 0xC0 then p + 2 else SkipName(d, p)
  }

  function FindAddress(d: seq<byte>, p: nat, n: nat): Option<nat>
    decreases n
  {
    if n == 0 then None else
    var q := AfterOwner(d, p);
    if Net16(d, q) == TYPE_A && Net16(d, q + 8) == 4 then Some(Net32(d, q + 10))
    else FindAddress(d, q + 10 + Net16(d, q + 8), n - 1)
  }

  /** The label skip lands exactly after an emitted name. */
  lemma {:induction false} SkipLandsAfterName(ls: seq<Label>, d: seq<byte>, p: nat)
    requires LabelsOk(ls) && Match(d, p, Wire(ls))
    ensures SkipName(d, p) == p + |Wire(ls)|
    decreases |ls|
  {
    if ls == [] {
      assert d[p + 0] == Wire(ls)[0];
    } else {
      var l := ls[0];
      assert l in ls;
      assert Wire(ls) == [|l|] + (l + Wire(ls[1..])) == ([|l|] + l) + Wire(ls[1..]);
      assert d[p + 0] == Wire(ls)[0];
      MatchSplit(d, p, [|l|] + l, Wire(ls[1..]));
      SkipLandsAfterName(ls[1..], d, p + 1 + |l|);
    }
  }

  lemma {:induction false} QuestionsSkipped(qs: seq<Question>, d: seq<byte>, p: nat)
    requires (forall q :: q in qs ==> QuestionOk(q)) && Match(d, p, AllQuestions(qs))
    ensures SkipQuestions(d, p, |qs|) == p + |AllQuestions(qs)|
    decreases |qs|
  {
    if qs != [] {
      var q := qs[0];
      MatchSplit(d, p, QuestionBytes(q), AllQuestions(qs[1..]));
      MatchSplit(d, p, Wire(q.labels), q.kind);
      SkipLandsAfterName(q.labels, d, p);
      QuestionsSkipped(qs[1..], d, p + |QuestionBytes(q)|);
    }
  }

  lemma OwnerSkipped(n: Name, d: seq<byte>, p: nat)
    requires (n.Full? ==> LabelsOk(n.labels)) && (n.Pointer? ==> n.high >= 0xC0)
    requires Match(d, p, NameBytes(n))
    ensures AfterOwner(d, p) == p + |NameBytes(n)|
  {
    match n
    case Pointer(high, low) =>
      assert d[p + 0] == NameBytes(n)[0];
    case Full(ls) =>
      assert d[p + 0] == Wire(ls)[0];
      assert ls != [] ==> ls[0] in ls;
      SkipLandsAfterName(ls, d, p);
  }

  lemma Net16Match(d: seq<byte>, p: nat, b: seq<byte>)
    requires |b| == 2 && Match(d, p, b)
    ensures Net16(d, p) == Net16(b, 0)
  {
    assert d[p + 0] == b[0] && d[p + 1] == b[1];
  }

  lemma Net32Match(d: seq<byte>, p: nat, b: seq<byte>)
    requires |b| == 4 && Match(d, p, b)
    ensures Net32(d, p) == Net32(b, 0)
  {
    assert d[p + 0] == b[0] && d[p + 1] == b[1] && d[p + 2] == b[2] && d[p + 3] == b[3];
  }

  /** What the parser sees of one record. */
  lemma RecordSeen(r: Record, d: seq<byte>, p: nat, q: nat)
    requires RecordOk(r) && Match(d, p, RecordBytes(r)) && q == AfterOwner(d, p)
    ensures Net16(d, q) == r.rtype && Net16(d, q + 8) == |r.rdata|
    ensures q + 10 + |r.rdata| == p + |RecordBytes(r)|
    ensures |r.rdata| == 4 ==> Net32(d, q + 10) == Net32(r.rdata, 0)
  {
    var t, n := RecordParts(r);
    MatchSplit(d, p, NameBytes(r.name), t + r.rest + n + r.rdata);
    OwnerSkipped(r.name, d, p);
    FieldsSeen(d, q, t, r.rest, n, r.rdata);
  }

  lemma RecordParts(r: Record) returns (t: seq<byte>, n: seq<byte>)
    requires RecordOk(r)
    ensures RecordBytes(r) == NameBytes(r.name) + (t + r.rest + n + r.rdata)
    ensures |t| == |n| == 2 && |r.rest| == 6 && Net16(t, 0) == r.rtype && Net16(n, 0) == |r.rdata|
  {
    t, n := Be16(r.rtype), Be16(|r.rdata|);
    Be16Reads(r.rtype);
    Be16Reads(|r.rdata|);
  }

  /** The fixed fields of a record, wherever they lie. */
  lemma FieldsSeen(d: seq<byte>, q: nat, t: seq<byte>, rest: seq<byte>, n: seq<byte>, rdata: seq<byte>)
    requires |t| == 2 && |rest| == 6 && |n| == 2 && Match(d, q, t + rest + n + rdata)
    ensures Net16(d, q) == Net16(t, 0) && Net16(d, q + 8) == Net16(n, 0)
    ensures |rdata| == 4 ==> Net32(d, q + 10) == Net32(rdata, 0)
  {
    MatchSplit(d, q, t + rest + n, rdata);
    MatchSplit(d, q, t + rest, n);
    MatchSplit(d, q, t, rest);
    Net16Match(d, q, t);
    Net16Match(d, q + 8, n);
    if |rdata| == 4 {
      Net32Match(d, q + 10, rdata);
    }
  }

  lemma Be16Reads(v: nat)
    requires v < TWO_16
    ensures |Be16(v)| == 2 && Net16(Be16(v), 0) == v
  {
  }

  lemma {:induction false} AddressFound(rs: seq<Record>, d: seq<byte>, p: nat)
    requires (forall r :: r in rs ==> RecordOk(r)) && Match(d, p, AllRecords(rs))
    ensures FindAddress(d, p, |rs|) == FirstAddress(rs)
    decreases |rs|
  {
    if rs != [] {
      MatchSplit(d, p, RecordBytes(rs[0]), AllRecords(rs[1..]));
      OneRecord(rs[0], d, p, |rs|);
      AddressFound(rs[1..], d, p + |RecordBytes(rs[0])|);
    }
  }

  /** The parser answers at a record with an address, and goes on behind any other. */
  lemma OneRecord(r: Record, d: seq<byte>, p: nat, n: nat)
    requires RecordOk(r) && Match(d, p, RecordBytes(r)) && n > 0
    ensures FindAddress(d, p, n) ==
      if r.rtype == TYPE_A && |r.rdata| == 4 then Some(Net32(r.rdata, 0))
      else FindAddress(d, p + |RecordBytes(r)|, n - 1)
  {
    RecordSeen(r, d, p, AfterOwner(d, p));
  }

  /** For every response whose names are label sequences or bare pointers, the parser finds the
      address of the first A record, or nothing if there is none. */
  lemma {:induction false} ResponseParsed(qs: seq<Question>, rs: seq<Record>, d: seq<byte>)
    requires (forall q :: q in qs ==> QuestionOk(q)) && (forall r :: r in rs ==> RecordOk(r))
    requires Match(d, HEADER_LEN, AllQuestions(qs) + AllRecords(rs))
    requires Net16(d, 4) == |qs| && Net16(d, 6) == |rs|
    ensures FindAddress(d, SkipQuestions(d, HEADER_LEN, Net16(d, 4)), Net16(d, 6)) == FirstAddress(rs)
  {
    AnswersParsed(qs, rs, d, |qs|, |rs|);
  }

  lemma {:induction false} AnswersParsed(qs: seq<Question>, rs: seq<Record>, d: seq<byte>, questions: nat, answers: nat)
    requires (forall q :: q in qs ==> QuestionOk(q)) && (forall r :: r in rs ==> RecordOk(r))
    requires Match(d, HEADER_LEN, AllQuestions(qs) + AllRecords(rs))
    requires questions == |qs| && answers == |rs|
    ensures FindAddress(d, SkipQuestions(d, HEADER_LEN, questions), answers) == FirstAddress(rs)
  {
    MatchSplit(d, HEADER_LEN, AllQuestions(qs), AllRecords(rs));
    QuestionsSkipped(qs, d, HEADER_LEN);
    AddressFound(rs, d, HEADER_LEN + |AllQuestions(qs)|);
  }

  /** A whole response: identification, flags and the four counts, then its sections. */
  function ResponseBytes(id: nat, flags: nat, qs: seq<Question>, rs: seq<Record>, counts: seq<byte>, rest: seq<byte>): seq<byte>
    requires id < TWO_16 && flags < TWO_16 && |qs| < TWO_16 && |rs| < TWO_16 && |counts| == 4
    requires (forall q :: q in qs ==> QuestionOk(q)) && (forall r :: r in rs ==> RecordOk(r))
  {
    Be16(id) + Be16(flags) + Be16(|qs|) + Be16(|rs|) + counts + (AllQuestions(qs) + AllRecords(rs)) + rest
  }

  lemma CountsRead(front: seq<byte>, qs: nat, rs: nat, counts: seq<byte>, body: seq<byte>, rest: seq<byte>)
    requires |front| == 4 && |counts| == 4 && qs < TWO_16 && rs < TWO_16
    ensures var d := front + Be16(qs) + Be16(rs) + counts + body + rest;
      Net16(d, 4) == qs && Net16(d, 6) == rs && Match(d, HEADER_LEN, body)
  {
    var d := front + Be16(qs) + Be16(rs) + counts + body + rest;
    assert Match(d, 4, Be16(qs)) && Match(d, 6, Be16(rs)) && Match(d, HEADER_LEN, body);
    Net16Reads(d, 4, qs);
    Net16Reads(d, 6, rs);
  }

  /** From the bytes of a response, whatever follows its answers, to the address. */
  lemma ResponseRead(id: nat, flags: nat, qs: seq<Question>, rs: seq<Record>, counts: seq<byte>, rest: seq<byte>)
    requires id < TWO_16 && flags < TWO_16 && |qs| < TWO_16 && |rs| < TWO_16 && |counts| == 4
    requires (forall q :: q in qs ==> QuestionOk(q)) && (forall r :: r in rs ==> RecordOk(r))
    ensures var d := ResponseBytes(id, flags, qs, rs, counts, rest);
      FindAddress(d, SkipQuestions(d, HEADER_LEN, Net16(d, 4)), Net16(d, 6)) == FirstAddress(rs)
  {
    CountsRead(Be16(id) + Be16(flags), |qs|, |rs|, counts, AllQuestions(qs) + AllRecords(rs), rest);
    ResponseParsed(qs, rs, ResponseBytes(id, flags, qs, rs, counts, rest));
  }

  class Resolver {
    var lastDnsIp: nat

    method SkipNameLoop(d: seq<byte>, start: nat) returns (p: nat)
      ensures p == SkipName(d, start)
    {
      p := start;
      while At(d, p) != 0
        invariant SkipName(d, p) == SkipName(d, start)
        decreases |d| - p
      {
        p := p + At(d, p) + 1;
      }
      p := p + 1;
    }

    /** The DNS branch of `udp_process`. `payloadLen` is what the UDP header claims. */
    method Process(d: seq<byte>, payloadLen: nat) returns (r: int)
      modifies this
      ensures r == -1 <==> payloadLen < HEADER_LEN
      ensures payloadLen < HEADER_LEN ==> lastDnsIp == old(lastDnsIp)
      ensures payloadLen >= HEADER_LEN ==>
        var found := FindAddress(d, SkipQuestions(d, HEADER_LEN, Net16(d, 4)), Net16(d, 6));
        lastDnsIp == if found.Some? then found.value else old(lastDnsIp)
    {
      if payloadLen < HEADER_LEN {
        return -1;
      }
      var p: nat := HEADER_LEN;
      var questions := Net16(d, 4);
      for i := 0 to questions
        invariant SkipQuestions(d, p, questions - i) == SkipQuestions(d, HEADER_LEN, questions)
        invariant lastDnsIp == old(lastDnsIp)
      {
        p := SkipNameLoop(d, p);
        p := p + 4;
      }
      var answers := Net16(d, 6);
      ghost var found := FindAddress(d, p, answers);
      for i := 0 to answers
        invariant FindAddress(d, p, answers - i) == found && lastDnsIp == old(lastDnsIp)
      {
        if At(d, p) >= 0xC0 {
          p := p + 2;
        } else {
          p := SkipNameLoop(d, p);
        }
        var rtype, dlen := Net16(d, p), Net16(d, p + 8);
        p := p + 10;
        if rtype == TYPE_A && dlen == 4 {
          lastDnsIp := Net32(d, p);
          return 0;
        }
        p := p + dlen;
      }
      return 0;
    }
  }
}

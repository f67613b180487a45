/** `strtok_r` and `strtok`: a run of calls cuts a string in place into its maximal runs of
    characters that are not delimiters. */
module Tokenizer {
  import opened Machine

  datatype Span = Span(start: nat, end: nat)

  // ---------------------------------------------------------------- what the tokens are

  /** First position from `i` on that holds no delimiter. */
  function SkipDelims(s: seq<byte>, delim: seq<byte>, i: nat): (r: nat)
    requires i <= |s|
    ensures i <= r <= |s|
    decreases |s| - i
  {
    if i < |s| && s[i] in delim then SkipDelims(s, delim, i + 1) else i
  }

  /** First position from `i` on that holds a delimiter. */
  function TokenEnd(s: seq<byte>, delim: seq<byte>, i: nat): (r: nat)
    requires i <= |s|
    ensures i <= r <= |s|
    decreases |s| - i
  {
    if i < |s| && s[i] !in delim then TokenEnd(s, delim, i + 1) else i
  }

  lemma {:induction false} SkipDelimsStops(s: seq<byte>, delim: seq<byte>, i: nat)
    requires i <= |s|
    ensures var r := SkipDelims(s, delim, i);
      (forall j :: i <= j < r ==> s[j] in delim) && (r < |s| ==> s[r] !in delim)
    decreases |s| - i
  {
    if i < |s| && s[i] in delim {
      SkipDelimsStops(s, delim, i + 1);
    }
  }

  lemma {:induction false} TokenEndStops(s: seq<byte>, delim: seq<byte>, i: nat)
    requires i <= |s|
    ensures var r := TokenEnd(s, delim, i);
      (forall j :: i <= j < r ==> s[j] !in delim) && (r < |s| ==> s[r] in delim)
    decreases |s| - i
  {
    if i < |s| && s[i] !in delim {
      TokenEndStops(s, delim, i + 1);
    }
  }

  /** The tokens from `i` on. */
  function Spans(s: seq<byte>, delim: seq<byte>, i: nat): seq<Span>
    requires i <= |s|
    decreases |s| - i
  {
    var a := SkipDelims(s, delim, i);
    if a == |s| then [] else
    var b := TokenEnd(s, delim, a);
    [Span(a, b)] + if b < |s| then Spans(s, delim, b + 1) else []
  }

  /** A nonempty run without delimiters that cannot be extended to either side. */
  predicate Maximal(s: seq<byte>, delim: seq<byte>, t: Span) {
    && t.start < t.end <= |s|
    && (forall j :: t.start <= j < t.end ==> s[j] !in delim)
    && (t.start == 0 || s[t.start - 1] in delim)
    && (t.end == |s| || s[t.end] in delim)
  }

  predicate Covers(t: Span, j: nat) {
    t.start <= j < t.end
  }

  /** The first token from `i` on, and the place after it where the others start. */
  lemma FirstSpan(s: seq<byte>, delim: seq<byte>, i: nat) returns (p: nat)
    requires i <= |s| && (i == 0 || s[i - 1] in delim) && Spans(s, delim, i) != []
    ensures var t := Spans(s, delim, i)[0]; i <= t.start && Maximal(s, delim, t) && t.end < p
    ensures |Spans(s, delim, i)| > 1 ==> p <= |s| && s[p - 1] in delim && Spans(s, delim, p) == Spans(s, delim, i)[1..]
  {
    var a := SkipDelims(s, delim, i);
    var b := TokenEnd(s, delim, a);
    SkipDelimsStops(s, delim, i);
    TokenEndStops(s, delim, a);
    assert Spans(s, delim, i)[0] == Span(a, b);
    p := b + 1;
  }

  lemma {:induction false} SpansMaximal(s: seq<byte>, delim: seq<byte>, i: nat, k: nat)
    requires i <= |s| && (i == 0 || s[i - 1] in delim) && k < |Spans(s, delim, i)|
    ensures i <= Spans(s, delim, i)[k].start && Maximal(s, delim, Spans(s, delim, i)[k])
    decreases k
  {
    var p := FirstSpan(s, delim, i);
    if k > 0 {
      SpansMaximal(s, delim, p, k - 1);
      assert Spans(s, delim, i)[k] == Spans(s, delim, i)[1..][k - 1];
    }
  }

  lemma {:induction false} SpansAscend(s: seq<byte>, delim: seq<byte>, i: nat, k: nat, l: nat)
    requires i <= |s| && (i == 0 || s[i - 1] in delim) && k < l < |Spans(s, delim, i)|
    ensures Spans(s, delim, i)[k].end < Spans(s, delim, i)[l].start
    decreases k
  {
    var p := FirstSpan(s, delim, i);
    assert Spans(s, delim, i)[l] == Spans(s, delim, i)[1..][l - 1];
    if k > 0 {
      SpansAscend(s, delim, p, k - 1, l - 1);
      assert Spans(s, delim, i)[k] == Spans(s, delim, i)[1..][k - 1];
    } else {
      SpansMaximal(s, delim, p, l - 1);
    }
  }

  lemma {:induction false} SpansCover(s: seq<byte>, delim: seq<byte>, i: nat, j: nat) returns (k: nat)
    requires i <= j < |s| && s[j] !in delim
    ensures k < |Spans(s, delim, i)| && Covers(Spans(s, delim, i)[k], j)
    decreases |s| - i
  {
    var a := SkipDelims(s, delim, i);
    var b := TokenEnd(s, delim, a);
    SkipDelimsStops(s, delim, i);
    TokenEndStops(s, delim, a);
    if j < b {
      k := 0;
    } else {
      k := SpansCover(s, delim, b + 1, j);
      k := k + 1;
    }
  }

  /** The tokens are exactly the maximal runs, in order: each is one, they ascend without
      touching, and every character that is no delimiter is in one of them. */
  lemma TokensAreMaximalRuns(s: seq<byte>, delim: seq<byte>)
    ensures var ts := Spans(s, delim, 0);
      && (forall t :: t in ts ==> Maximal(s, delim, t))
      && (forall k, l :: 0 <= k < l < |ts| ==> ts[k].end < ts[l].start)
      && (forall j :: 0 <= j < |s| && s[j] !in delim ==> exists t :: t in ts && Covers(t, j))
  {
    var ts := Spans(s, delim, 0);
    forall t | t in ts ensures Maximal(s, delim, t) {
      var k :| 0 <= k < |ts| && ts[k] == t;
      SpansMaximal(s, delim, 0, k);
    }
    forall k, l | 0 <= k < l < |ts| ensures ts[k].end < ts[l].start {
      SpansAscend(s, delim, 0, k, l);
    }
    forall j | 0 <= j < |s| && s[j] !in delim ensures exists t :: t in ts && Covers(t, j) {
      var k := SpansCover(s, delim, 0, j);
      assert ts[k] in ts;
    }
  }

  // ---------------------------------------------------------------- the code

  /** The buffer still holds the original text, and its terminator, from `p` on. */
  ghost predicate Untouched(buf: seq<byte>, text: seq<byte>, p: nat) {
    |text| < |buf| && p <= |text| && (forall i :: p <= i < |text| ==> buf[i] == text[i]) && buf[|text|] == 0
  }

  /** `strchr` used as a test. */
  method StrChr(str: seq<byte>, c: byte) returns (found: bool)
    ensures found <==> c in str
  {
    for i := 0 to |str|
      invariant c !in str[..i]
    {
      if str[i] == c {
        return true;
      }
    }
    return false;
  }

  method SkipLoop(buf: array<byte>, delim: seq<byte>, p: nat, skipDelims: bool, ghost text: seq<byte>)
    returns (i: nat)
    requires Untouched(buf[..], text, p) && 0 !in text
    ensures i == if skipDelims then SkipDelims(text, delim, p) else TokenEnd(text, delim, p)
  {
    i := p;
    var found := StrChr(delim, buf[i]);
    while buf[i] != 0 && found == skipDelims
      invariant p <= i <= |text| && Untouched(buf[..], text, i)
      invariant found <==> buf[i] in delim
      invariant skipDelims ==> SkipDelims(text, delim, i) == SkipDelims(text, delim, p)
      invariant !skipDelims ==> TokenEnd(text, delim, i) == TokenEnd(text, delim, p)
      decreases |text| - i
    {
      i := i + 1;
      found := StrChr(delim, buf[i]);
    }
    if i < |text| {
      assert text[i] in text;
    }
  }

  /** Ends a token: overwrites the delimiter after it and moves past it. */
  method Cut(buf: array<byte>, end: nat, ghost text: seq<byte>) returns (next: Option<nat>)
    requires Untouched(buf[..], text, end) && 0 !in text
    modifies buf
    ensures buf[..] == old(buf[..])[end := 0]
    ensures next == if end < |text| then Some(end + 1) else None
    ensures next.Some? ==> Untouched(buf[..], text, next.value)
  {
    if end < |text| {
      assert text[end] in text;
    }
    if buf[end] != 0 {
      buf[end] := 0;
      next := Some(end + 1);
    } else {
      next := None;
    }
  }

  /** What one call from position `from` does: it finds the first token from there on, ends it with
      NUL and leaves the rest of the tokens to the next call. */
  ghost predicate Outcome(was: seq<byte>, buf: seq<byte>, text: seq<byte>, delim: seq<byte>,
                          from: Option<nat>, token: Option<nat>, next: Option<nat>)
    requires from.Some? ==> from.value <= |text|
  {
    if from == None || Spans(text, delim, from.value) == [] then
      token == None && next == None && buf == was
    else
      var all := Spans(text, delim, from.value);
      && token == Some(all[0].start)
      && all[0].end < |was| && buf == was[all[0].end := 0]
      && (next.Some? ==> next.value == all[0].end + 1 && Untouched(buf, text, next.value)
                         && Spans(text, delim, next.value) == all[1..])
      && (next == None ==> |all| == 1)
  }

  /** One call of `strtok_r` that continues at `saveptr`. The token is the position of its first
      character; the position to continue from is `None` after the last one. */
  method StrtokR(buf: array<byte>, delim: seq<byte>, saveptr: Option<nat>, ghost text: seq<byte>)
    returns (token: Option<nat>, next: Option<nat>)
    requires 0 !in text && 0 !in delim
    requires saveptr.Some? ==> Untouched(buf[..], text, saveptr.value)
    modifies buf
    ensures Outcome(old(buf[..]), buf[..], text, delim, saveptr, token, next)
  {
    if saveptr == None {
      return None, None;
    }
    var start := SkipLoop(buf, delim, saveptr.value, true, text);
    if start < |text| {
      assert text[start] in text;
    }
    if buf[start] == 0 {
      return None, None;
    }
    var end := SkipLoop(buf, delim, start, false, text);
    token := Some(start);
    next := Cut(buf, end, text);
  }

  /** `strtok` keeps the position to continue from in a static variable. */
  class Strtok {
    var saveptr: Option<nat>

    constructor ()
      ensures saveptr == None
    {
      saveptr := None;
    }

    /** `first`: the call passes the string itself rather than NULL. */
    method Call(buf: array<byte>, first: bool, delim: seq<byte>, ghost text: seq<byte>) returns (token: Option<nat>)
      requires 0 !in text && 0 !in delim
      requires first ==> Untouched(buf[..], text, 0)
      requires !first && saveptr.Some? ==> Untouched(buf[..], text, saveptr.value)
      modifies this, buf
      ensures Outcome(old(buf[..]), buf[..], text, delim, if first then Some(0) else old(saveptr), token, saveptr)
    {
      if first {
        saveptr := Some(0);
      }
      token, saveptr := StrtokR(buf, delim, saveptr, text);
    }
  }

  // ---------------------------------------------------------------- a whole run

  /** The characters of `t` followed by NUL. */
  predicate IsToken(buf: seq<byte>, text: seq<byte>, t: Span) {
    && t.start <= t.end <= |text| && t.end < |buf| && buf[t.end] == 0
    && forall i :: t.start <= i < t.end ==> buf[i] == text[i]
  }

  /** The first `n` tokens stand in the buffer. */
  ghost predicate AllTokens(buf: seq<byte>, text: seq<byte>, ts: seq<Span>, n: nat) {
    n <= |ts| && forall k :: 0 <= k < n ==> IsToken(buf, text, ts[k])
  }

  /** A place to go on from, after a delimiter, with the tokens of `rest` to come. */
  ghost predicate Resumes(buf: seq<byte>, text: seq<byte>, delim: seq<byte>, p: nat, rest: seq<Span>) {
    Untouched(buf, text, p) && Spans(text, delim, p) == rest && (p == 0 || text[p - 1] in delim)
  }

  /** The buffer after `n` tokens of `ts` have been cut, when `next` is where the run continues. */
  ghost predicate Progress(buf: seq<byte>, text: seq<byte>, delim: seq<byte>, ts: seq<Span>, n: nat,
                           next: Option<nat>) {
    && AllTokens(buf, text, ts, n)
    && (next == None ==> n == |ts|)
    && (next.Some? ==> Resumes(buf, text, delim, next.value, ts[n..]))
  }

  /** The tokens lie in the text one after the other, with something between them. */
  ghost predicate Laid(ts: seq<Span>, text: seq<byte>) {
    && (forall k :: 0 <= k < |ts| ==> ts[k].start < ts[k].end <= |text|)
    && (forall k, l :: 0 <= k < l < |ts| ==> ts[k].end < ts[l].start)
  }

  lemma SpansLaid(text: seq<byte>, delim: seq<byte>)
    ensures Laid(Spans(text, delim, 0), text)
  {
    var ts := Spans(text, delim, 0);
    forall k | 0 <= k < |ts| ensures ts[k].start < ts[k].end <= |text| {
      SpansMaximal(text, delim, 0, k);
    }
    forall k, l | 0 <= k < l < |ts| ensures ts[k].end < ts[l].start {
      SpansAscend(text, delim, 0, k, l);
    }
  }

  /** Cutting a token disturbs none of the earlier ones. */
  lemma EarlierTokens(was: seq<byte>, text: seq<byte>, ts: seq<Span>, n: nat)
    requires Laid(ts, text) && n < |ts| && ts[n].end < |was| && AllTokens(was, text, ts, n)
    ensures AllTokens(was[ts[n].end := 0], text, ts, n)
  {
    forall k | 0 <= k < n ensures IsToken(was[ts[n].end := 0], text, ts[k]) {
      assert IsToken(was, text, ts[k]) && ts[k].end < ts[n].start < ts[n].end;
    }
  }

  /** The token at which the run stands is whole, and a delimiter ends it. */
  lemma TokenCut(was: seq<byte>, text: seq<byte>, delim: seq<byte>, p: nat, rest: seq<Span>)
    requires Resumes(was, text, delim, p, rest) && rest != []
    ensures rest[0].end < |was| && IsToken(was[rest[0].end := 0], text, rest[0])
    ensures rest[0].end < |text| ==> text[rest[0].end] in delim
  {
    SpansMaximal(text, delim, p, 0);
  }

  /** One call of `strtok`, with the tokens to come spelled out. */
  lemma OutcomeIs(was: seq<byte>, buf: seq<byte>, text: seq<byte>, delim: seq<byte>, rest: seq<Span>,
                  from: Option<nat>, token: Option<nat>, next: Option<nat>)
    requires if from.Some? then Resumes(was, text, delim, from.value, rest) else rest == []
    requires Outcome(was, buf, text, delim, from, token, next)
    ensures rest == [] ==> token == None && next == None && buf == was
    ensures rest != [] ==> from.Some? && token == Some(rest[0].start)
    ensures rest != [] ==> rest[0].end < |was| && buf == was[rest[0].end := 0]
    ensures rest != [] && next == None ==> |rest| == 1
    ensures rest != [] && next.Some? ==> Resumes(buf, text, delim, next.value, rest[1..])
  {
    if rest != [] {
      TokenCut(was, text, delim, from.value, rest);
    }
  }

  lemma OneMoreToken(was: seq<byte>, text: seq<byte>, delim: seq<byte>, ts: seq<Span>, n: nat, next: Option<nat>)
    requires Laid(ts, text) && n < |ts| && ts[n].end < |was| && AllTokens(was, text, ts, n)
    requires IsToken(was[ts[n].end := 0], text, ts[n])
    requires next == None ==> n + 1 == |ts|
    requires next.Some? ==> Resumes(was[ts[n].end := 0], text, delim, next.value, ts[n + 1..])
    ensures Progress(was[ts[n].end := 0], text, delim, ts, n + 1, next)
  {
    EarlierTokens(was, text, ts, n);
  }

  lemma OutcomeProgress(was: seq<byte>, buf: seq<byte>, text: seq<byte>, delim: seq<byte>, ts: seq<Span>, n: nat,
                        from: Option<nat>, token: Option<nat>, next: Option<nat>)
    requires Laid(ts, text) && Progress(was, text, delim, ts, n, from)
    requires Outcome(was, buf, text, delim, from, token, next)
    ensures token == None <==> n == |ts|
    ensures token.Some? ==> token.value == ts[n].start
    ensures Progress(buf, text, delim, ts, if token.Some? then n + 1 else n, next)
  {
    var rest := ts[n..];
    OutcomeIs(was, buf, text, delim, rest, from, token, next);
    if n < |ts| {
      TokenCut(was, text, delim, from.value, rest);
      assert rest[0] == ts[n] && rest[1..] == ts[n + 1..];
      OneMoreToken(was, text, delim, ts, n, next);
    }
  }

  /** One call in the course of a run. */
  method Step(st: Strtok, buf: array<byte>, first: bool, delim: seq<byte>, ghost text: seq<byte>,
              ghost ts: seq<Span>, ghost n: nat)
    returns (token: Option<nat>)
    requires 0 !in text && 0 !in delim && Laid(ts, text)
    requires Progress(buf[..], text, delim, ts, n, if first then Some(0) else st.saveptr)
    modifies st, buf
    ensures token == None <==> n == |ts|
    ensures token.Some? ==> token.value == ts[n].start
    ensures Progress(buf[..], text, delim, ts, if token.Some? then n + 1 else n, st.saveptr)
  {
    ghost var from, was := if first then Some(0) else st.saveptr, buf[..];
    token := st.Call(buf, first, delim, text);
    OutcomeProgress(was, buf[..], text, delim, ts, n, from, token, st.saveptr);
  }

  /** `strtok(s, d)` and then `strtok(NULL, d)` until it returns NULL. At the end every token stands
      in the buffer as a string of its own. */
  method TokenizeAll(buf: array<byte>, delim: seq<byte>, ghost text: seq<byte>) returns (starts: seq<nat>)
    requires 0 !in text && 0 !in delim && Untouched(buf[..], text, 0)
    modifies buf
    ensures var ts := Spans(text, delim, 0);
      && |starts| == |ts|
      && (forall k :: 0 <= k < |ts| ==> starts[k] == ts[k].start && IsToken(buf[..], text, ts[k]))
  {
    SpansLaid(text, delim);
    assert Spans(text, delim, 0)[0..] == Spans(text, delim, 0);
    var st := new Strtok();
    starts := RunToEnd(st, buf, delim, text, Spans(text, delim, 0));
  }

  method RunToEnd(st: Strtok, buf: array<byte>, delim: seq<byte>, ghost text: seq<byte>, ghost ts: seq<Span>)
    returns (starts: seq<nat>)
    requires 0 !in text && 0 !in delim && Laid(ts, text) && Progress(buf[..], text, delim, ts, 0, Some(0))
    modifies st, buf
    ensures |starts| == |ts| && AllTokens(buf[..], text, ts, |ts|)
    ensures forall k :: 0 <= k < |ts| ==> starts[k] == ts[k].start
  {
    starts := [];
    var token := Step(st, buf, true, delim, text, ts, 0);
    while token.Some?
      invariant |starts| <= |ts| && (token == None <==> |starts| == |ts|)
      invariant Progress(buf[..], text, delim, ts, if token.Some? then |starts| + 1 else |ts|, st.saveptr)
      invariant token.Some? ==> token.value == ts[|starts|].start
      invariant forall k :: 0 <= k < |starts| ==> starts[k] == ts[k].start
      decreases |ts| - |starts|
    {
      starts := starts + [token.value];
      token := Step(st, buf, false, delim, text, ts, |starts|);
    }
  }
}

/** Hiding the "｜"s of ordinary tokens in a streamed completion
    (overlay/patch_output_token_split.py:249-364). */
module OutputStream {
  import opened Arithmetic
  import opened RunDecode

  const PIPE := '\U{FF5C}'
  const HIDE := '\U{FDD0}'

  // ---------------------------------------------------------------------------
  // Added tokens in the text.

  /** The text before the run in progress, and where each added token with a "｜" lies in it. */
  datatype Span = Span(start: nat, text: string)

  function SpansOf(pieces: seq<Piece>): seq<Span> {
    if pieces == [] then []
    else
      var init, last := pieces[..|pieces| - 1], pieces[|pieces| - 1];
      if !last.ordinary && PIPE in last.text then SpansOf(init) + [Span(|Concat(init)|, last.text)] else SpansOf(init)
  }

  /** The text of a span is where the span says. */
  ghost predicate SpanIn(s: Span, all: string) {
    s.start + |s.text| <= |all| && all[s.start..s.start + |s.text|] == s.text
  }

  lemma {:induction false} SpansLieIn(pieces: seq<Piece>, s: Span)
    requires s in SpansOf(pieces)
    ensures SpanIn(s, Concat(pieces))
  {
    var init, last := pieces[..|pieces| - 1], pieces[|pieces| - 1];
    if s in SpansOf(init) {
      SpansLieIn(init, s);
      assert Concat(pieces)[s.start..s.start + |s.text|] == Concat(init)[s.start..s.start + |s.text|];
    } else {
      assert Concat(pieces)[|Concat(init)|..] == last.text;
    }
  }

  /** Position p of the text lies in an added token's text. */
  predicate InAdded(pieces: seq<Piece>, p: nat) {
    if pieces == [] then false
    else
      var init, last := pieces[..|pieces| - 1], pieces[|pieces| - 1];
      if p >= |Concat(init)| then !last.ordinary && p < |Concat(pieces)| else InAdded(init, p)
  }

  /** Piece k is an added token that holds position p. */
  ghost predicate AddedAt(pieces: seq<Piece>, p: nat, k: nat) {
    k < |pieces| && !pieces[k].ordinary && |Concat(pieces[..k])| <= p < |Concat(pieces[..k])| + |pieces[k].text|
  }

  lemma {:induction false} ConcatGrows(pieces: seq<Piece>, k: nat)
    requires k < |pieces|
    ensures |Concat(pieces[..k])| + |pieces[k].text| <= |Concat(pieces)|
  {
    var n := |pieces| - 1;
    if k < n {
      ConcatGrows(pieces[..n], k);
      assert pieces[..n][..k] == pieces[..k];
    }
  }

  lemma {:induction false} FindAdded(pieces: seq<Piece>, p: nat) returns (k: nat)
    requires InAdded(pieces, p)
    ensures AddedAt(pieces, p, k)
  {
    var n := |pieces| - 1;
    if p >= |Concat(pieces[..n])| {
      k := n;
    } else {
      k := FindAdded(pieces[..n], p);
      assert pieces[..n][..k] == pieces[..k];
    }
  }

  lemma {:induction false} AddedFrom(pieces: seq<Piece>, p: nat, k: nat)
    requires AddedAt(pieces, p, k)
    ensures InAdded(pieces, p)
  {
    var n := |pieces| - 1;
    if k < n {
      assert pieces[..n][..k] == pieces[..k];
      ConcatGrows(pieces[..n], k);
      AddedFrom(pieces[..n], p, k);
    }
  }

  /** ... exactly when some added token's text is there in the decode. */
  lemma InAddedIff(pieces: seq<Piece>, p: nat)
    ensures InAdded(pieces, p) <==>
            exists k :: 0 <= k < |pieces| && !pieces[k].ordinary
                        && |Concat(pieces[..k])| <= p < |Concat(pieces[..k])| + |pieces[k].text|
  {
    if InAdded(pieces, p) {
      var k := FindAdded(pieces, p);
    }
    forall k | 0 <= k < |pieces| && !pieces[k].ordinary
               && |Concat(pieces[..k])| <= p < |Concat(pieces[..k])| + |pieces[k].text|
      ensures InAdded(pieces, p)
    {
      AddedFrom(pieces, p, k);
    }
  }

  predicate InSpan(s: Span, p: nat) {
    s.start <= p < s.start + |s.text|
  }

  predicate InAnySpan(spans: seq<Span>, p: nat) {
    spans != [] && (InSpan(spans[|spans| - 1], p) || InAnySpan(spans[..|spans| - 1], p))
  }

  lemma OneMoreSpan(spans: seq<Span>, s: Span, p: nat)
    ensures InAnySpan(spans + [s], p) <==> InAnySpan(spans, p) || InSpan(s, p)
  {
    assert (spans + [s])[..|spans|] == spans;
  }

  /** A "｜" lies in an added token exactly when it lies in a span. */
  lemma {:induction false} PipeInSpan(pieces: seq<Piece>, p: nat)
    requires p < |Concat(pieces)| && Concat(pieces)[p] == PIPE
    ensures InAdded(pieces, p) <==> InAnySpan(SpansOf(pieces), p)
  {
    var init, last := pieces[..|pieces| - 1], pieces[|pieces| - 1];
    OneMoreSpan(SpansOf(init), Span(|Concat(init)|, last.text), p);
    if p < |Concat(init)| {
      PipeInSpan(init, p);
      assert Concat(pieces)[p] == Concat(init)[p];
    } else {
      assert last.text[p - |Concat(init)|] == PIPE;
      NoSpanPast(init, p);
    }
  }

  /** No span reaches past the pieces' text. */
  lemma {:induction false} NoSpanPast(pieces: seq<Piece>, p: nat)
    requires p >= |Concat(pieces)|
    ensures !InAnySpan(SpansOf(pieces), p)
  {
    if pieces != [] {
      var init, last := pieces[..|pieces| - 1], pieces[|pieces| - 1];
      NoSpanPast(init, p);
      OneMoreSpan(SpansOf(init), Span(|Concat(init)|, last.text), p);
    }
  }

  /** The spans that are not all streamed after `seen` characters. */
  function Unfinished(spans: seq<Span>, seen: nat): seq<Span> {
    if spans == [] then []
    else
      var last := spans[|spans| - 1];
      if last.start + |last.text| > seen then Unfinished(spans[..|spans| - 1], seen) + [last]
      else Unfinished(spans[..|spans| - 1], seen)
  }

  lemma UnfinishedOne(spans: seq<Span>, s: Span, seen: nat)
    ensures Unfinished(spans + [s], seen) ==
            if s.start + |s.text| > seen then Unfinished(spans, seen) + [s] else Unfinished(spans, seen)
  {
    assert (spans + [s])[..|spans|] == spans;
  }

  lemma {:induction false} UnfinishedHas(spans: seq<Span>, seen: nat, s: Span)
    ensures s in Unfinished(spans, seen) <==> s in spans && s.start + |s.text| > seen
  {
    if spans != [] {
      UnfinishedHas(spans[..|spans| - 1], seen, s);
      assert s in spans <==> s in spans[..|spans| - 1] || s == spans[|spans| - 1];
    }
  }

  /** Dropping finished spans in two steps is dropping them at once. */
  lemma {:induction false} UnfinishedTwice(spans: seq<Span>, a: nat, b: nat)
    requires a <= b
    ensures Unfinished(Unfinished(spans, a), b) == Unfinished(spans, b)
  {
    if spans != [] {
      var init, last := spans[..|spans| - 1], spans[|spans| - 1];
      UnfinishedTwice(init, a, b);
      if last.start + |last.text| > a {
        UnfinishedOne(Unfinished(init, a), last, b);
      } else {
        assert Unfinished(spans, a) == Unfinished(init, a);
      }
    }
  }

  lemma SpansOne(pieces: seq<Piece>, p: Piece)
    ensures SpansOf(pieces + [p]) ==
            if !p.ordinary && PIPE in p.text
              then SpansOf(pieces) + [Span(|Concat(pieces)|, p.text)] else SpansOf(pieces)
  {
    assert (pieces + [p])[..|pieces|] == pieces;
  }

  /** The state of the runs after the ids. */
  function RunsOf(tk: Tokenizer, ids: seq<int>): Runs {
    FeedAll(tk, Runs([], []), ids)
  }

  /** The run-wise decode of the ids. */
  function RunText(tk: Tokenizer, ids: seq<int>): string {
    Concat(Close(tk, RunsOf(tk, ids)))
  }

  /** The added tokens with a "｜" that are not all streamed after `seen` characters. */
  function OpenSpans(tk: Tokenizer, ids: seq<int>, seen: nat): seq<Span> {
    Unfinished(SpansOf(RunsOf(tk, ids).pieces), seen)
  }

  /** These are the spans not all streamed. */
  ghost predicate Open(spans: seq<Span>, pieces: seq<Piece>, seen: nat) {
    spans == Unfinished(SpansOf(pieces), seen)
  }

  lemma FeedOne(tk: Tokenizer, ids: seq<int>, id: int)
    ensures RunsOf(tk, ids + [id]) == Feed(tk, RunsOf(tk, ids), id)
  {
    assert (ids + [id])[..|ids|] == ids;
  }

  /** At each added token among the call's ids, the decode up to there is no shorter than the text
      streamed before the call. */
  ghost predicate KeepsUp(tk: Tokenizer, ids: seq<int>, newIds: seq<int>, seen: nat) {
    forall k :: 0 <= k < |newIds| && newIds[k] in tk.added ==> seen <= |RunText(tk, ids + newIds[..k])|
  }

  /** What the streamed text and the ids have to do with each other: the ids keep up with the text
      streamed before the call, and with the call's text it is a prefix of the run-wise decode. */
  ghost predicate InStep(tk: Tokenizer, ids: seq<int>, newIds: seq<int>, streamed: string, text: string) {
    && KeepsUp(tk, ids, newIds, |streamed|)
    && streamed + text <= RunText(tk, ids + newIds)
    && HIDE !in text
  }

  /** An added token is decoded but none of its text is streamed yet. */
  predicate Held(spans: seq<Span>, seen: nat) {
    spans != [] &&
    var last := spans[|spans| - 1];
    ((last.start >= seen && last.start + |last.text| > seen) || Held(spans[..|spans| - 1], seen))
  }

  /** Piece k is an added token with a "｜" of which nothing is streamed. */
  ghost predicate HeldAt(pieces: seq<Piece>, seen: nat, k: nat) {
    k < |pieces| && !pieces[k].ordinary && PIPE in pieces[k].text && |Concat(pieces[..k])| >= seen
  }

  lemma HeldStep(pieces: seq<Piece>, last: Piece, seen: nat)
    ensures Held(SpansOf(pieces + [last]), seen) <==>
            Held(SpansOf(pieces), seen) || (!last.ordinary && PIPE in last.text && |Concat(pieces)| >= seen)
  {
    SpansOne(pieces, last);
    HeldOne(SpansOf(pieces), Span(|Concat(pieces)|, last.text), seen);
  }

  lemma {:induction false} FindHeld(pieces: seq<Piece>, seen: nat) returns (k: nat)
    requires Held(SpansOf(pieces), seen)
    ensures HeldAt(pieces, seen, k)
  {
    var n := |pieces| - 1;
    assert pieces == pieces[..n] + [pieces[n]];
    HeldStep(pieces[..n], pieces[n], seen);
    if Held(SpansOf(pieces[..n]), seen) {
      k := FindHeld(pieces[..n], seen);
      assert pieces[..n][..k] == pieces[..k];
    } else {
      k := n;
    }
  }

  lemma {:induction false} HeldFrom(pieces: seq<Piece>, seen: nat, k: nat)
    requires HeldAt(pieces, seen, k)
    ensures Held(SpansOf(pieces), seen)
  {
    var n := |pieces| - 1;
    assert pieces == pieces[..n] + [pieces[n]];
    HeldStep(pieces[..n], pieces[n], seen);
    if k < n {
      assert pieces[..n][..k] == pieces[..k];
      HeldFrom(pieces[..n], seen, k);
    }
  }

  /** An added token is held back exactly when one with a "｜" starts at or after what is streamed. */
  lemma HeldIff(pieces: seq<Piece>, seen: nat)
    ensures Held(SpansOf(pieces), seen) <==>
            exists k :: 0 <= k < |pieces| && !pieces[k].ordinary && PIPE in pieces[k].text
                        && |Concat(pieces[..k])| >= seen
  {
    if Held(SpansOf(pieces), seen) {
      var k := FindHeld(pieces, seen);
    }
    forall k | 0 <= k < |pieces| && !pieces[k].ordinary && PIPE in pieces[k].text && |Concat(pieces[..k])| >= seen
      ensures Held(SpansOf(pieces), seen)
    {
      HeldFrom(pieces, seen, k);
    }
  }

  /** How often `out` and `text` differ. */
  function Changes(text: string, out: string): nat
    requires |text| == |out|
  {
    if text == [] then 0
    else Changes(text[..|text| - 1], out[..|out| - 1]) + if text[|text| - 1] == out[|out| - 1] then 0 else 1
  }

  /** Where they differ. */
  function Differing(text: string, out: string): (d: set<nat>)
    requires |text| == |out|
    ensures forall i: nat :: i in d <==> i < |text| && text[i] != out[i]
  {
    set i: nat | i < |text| && text[i] != out[i]
  }

  lemma {:induction false} ChangesIs(text: string, out: string)
    requires |text| == |out|
    ensures Changes(text, out) == |Differing(text, out)|
  {
    if text != [] {
      var n := |text| - 1;
      ChangesIs(text[..n], out[..n]);
      var before := Differing(text[..n], out[..n]);
      assert Differing(text, out) == if text[n] == out[n] then before else before + {n};
    }
  }

  /** _ots_unhide on one string. */
  function Unhide(s: string): (u: string)
    ensures |u| == |s| && forall i :: 0 <= i < |s| ==> u[i] == if s[i] == HIDE then PIPE else s[i]
  {
    seq(|s|, i requires 0 <= i < |s| => if s[i] == HIDE then PIPE else s[i])
  }

  /** The characters at the given places hidden. */
  function HideAt(text: string, added: set<nat>): (out: string)
    ensures |out| == |text|
    ensures forall i :: 0 <= i < |text| ==> out[i] == if text[i] == PIPE && i !in added then HIDE else text[i]
  {
    seq(|text|, i requires 0 <= i < |text| => if text[i] == PIPE && i !in added then HIDE else text[i])
  }

  lemma ChangesOne(a: string, b: string, c: char, d: char)
    requires |a| == |b|
    ensures Changes(a + [c], b + [d]) == Changes(a, b) + if c == d then 0 else 1
  {
    assert (a + [c])[..|a|] == a && (b + [d])[..|b|] == b;
  }

  lemma {:induction false} NoChanges(text: string)
    ensures Changes(text, text) == 0
  {
    if text != [] {
      NoChanges(text[..|text| - 1]);
    }
  }

  /** text.find from a position on. */
  method FindPipe(text: string, from: nat) returns (at: int)
    requires from <= |text|
    ensures at == -1 || (from <= at < |text| && text[at] == PIPE)
    ensures forall i :: from <= i < (if at == -1 then |text| else at) ==> text[i] != PIPE
  {
    for i := from to |text|
      invariant forall j :: from <= j < i ==> text[j] != PIPE
    {
      if text[i] == PIPE {
        return i;
      }
    }
    at := -1;
  }

  lemma {:induction false} ChangesKeep(text: string, out: string, lo: nat, hi: nat)
    requires |out| == |text| && lo <= hi <= |text|
    requires forall i :: lo <= i < hi ==> text[i] == out[i]
    ensures Changes(text[..hi], out[..hi]) == Changes(text[..lo], out[..lo])
    decreases hi
  {
    if lo < hi {
      ChangesKeep(text, out, lo, hi - 1);
      assert text[..hi] == text[..hi - 1] + [text[hi - 1]] && out[..hi] == out[..hi - 1] + [out[hi - 1]];
      ChangesOne(text[..hi - 1], out[..hi - 1], text[hi - 1], out[hi - 1]);
    }
  }

  lemma ChangesAt(text: string, out: string, at: nat)
    requires |out| == |text| && at < |text| && text[at] != out[at]
    ensures Changes(text[..at + 1], out[..at + 1]) == Changes(text[..at], out[..at]) + 1
  {
    assert text[..at + 1] == text[..at] + [text[at]] && out[..at + 1] == out[..at] + [out[at]];
    ChangesOne(text[..at], out[..at], text[at], out[at]);
  }

  /** The loop's state: the output is written up to `last`, nothing changes up to `done`, and the
      changes up to there are counted. */
  ghost predicate Written(text: string, goal: string, last: nat, done: nat, out: string, count: nat) {
    && |goal| == |text| && last <= done <= |text|
    && out == goal[..last]
    && (forall i :: last <= i < done ==> goal[i] == text[i])
    && count == Changes(text[..done], goal[..done])
  }

  /** Moving on over unchanged characters. */
  lemma WrittenOn(text: string, goal: string, last: nat, done: nat, next: nat, out: string, count: nat)
    requires Written(text, goal, last, done, out, count) && done <= next <= |text|
    requires forall i :: done <= i < next ==> goal[i] == text[i]
    ensures Written(text, goal, last, next, out, count)
  {
    ChangesKeep(text, goal, done, next);
  }

  /** Hiding the character at `at`. */
  lemma WrittenHidden(text: string, goal: string, last: nat, at: nat, out: string, count: nat)
    requires at < |text| && Written(text, goal, last, at, out, count) && goal[at] == HIDE != text[at]
    ensures Written(text, goal, at + 1, at + 1, out + text[last..at] + [HIDE], count + 1)
  {
    assert goal[..at + 1] == goal[..last] + text[last..at] + [HIDE];
    ChangesAt(text, goal, at);
  }

  lemma WrittenAll(text: string, goal: string, last: nat, out: string, count: nat)
    requires Written(text, goal, last, |text|, out, count)
    ensures out + text[last..] == goal && count == Changes(text, goal)
  {
    assert goal == goal[..last] + text[last..];
    assert text[..|text|] == text && goal[..|text|] == goal;
  }

  /** One turn of the loop: the "｜" at `at` is hidden, unless it is an added token's. */
  method ReplaceOne(text: string, added: set<nat>, last: nat, at: nat, soFar: string, sum: nat)
    returns (out: string, count: nat, next: nat)
    requires at < |text| && text[at] == PIPE && Written(text, HideAt(text, added), last, at, soFar, sum)
    ensures Written(text, HideAt(text, added), next, at + 1, out, count)
  {
    if at !in added {
      WrittenHidden(text, HideAt(text, added), last, at, soFar, sum);
      out, count, next := soFar + text[last..at] + [HIDE], sum + 1, at + 1;
    } else {
      WrittenOn(text, HideAt(text, added), last, at, at + 1, soFar, sum);
      out, count, next := soFar, sum, last;
    }
  }

  /** The loop that writes the delta with its ordinary "｜"s hidden. */
  method Replace(text: string, added: set<nat>) returns (out: string, count: nat)
    ensures out == HideAt(text, added) && count == Changes(text, out)
  {
    var last: nat, start: nat := 0, 0;
    out, count := [], 0;
    while true
      invariant start <= |text| && Written(text, HideAt(text, added), last, start, out, count)
      decreases |text| - start
    {
      var at := FindPipe(text, start);
      if at < 0 {
        WrittenOn(text, HideAt(text, added), last, start, |text|, out, count);
        break;
      }
      WrittenOn(text, HideAt(text, added), last, start, at, out, count);
      out, count, last := ReplaceOne(text, added, last, at, out, count);
      start := at + 1;
    }
    WrittenAll(text, HideAt(text, added), last, out, count);
    out := out + text[last..];
  }

  // ---------------------------------------------------------------------------
  // The stream.

  class Stream {
    const tk: Tokenizer
    /** Ordinary ids since the last added token. */
    var run: seq<int>
    /** The length of the decode of the ids before the run. */
    var end: nat
    /** Added tokens with a "｜" that are not all streamed. */
    var spans: seq<Span>
    /** Characters streamed so far. */
    var seen: nat
    var active: bool
    /** "｜"s hidden so far. */
    var hidden: nat
    /** All the ids and all the text that came, and whether every call was in step. */
    ghost var ids: seq<int>
    ghost var streamed: string
    ghost var aligned: bool

    /** The run, its start and the spans are those of the runs so far. */
    ghost predicate FedRuns(r: Runs)
      reads this`run, this`end, this`spans, this`seen
    {
      run == r.run && end == |Concat(r.pieces)| && Open(spans, r.pieces, seen)
    }

    ghost predicate Fed(ids: seq<int>)
      reads this`run, this`end, this`spans, this`seen
    {
      FedRuns(RunsOf(tk, ids))
    }

    ghost predicate Valid()
      reads this
    {
      && (active ==> Fed(ids) && seen == |streamed|)
      && (aligned ==> active && streamed <= RunText(tk, ids))
    }

    constructor (tk: Tokenizer)
      ensures Valid() && this.tk == tk && ids == [] && streamed == [] && aligned && active && hidden == 0
    {
      this.tk, run, end, spans, seen, active, hidden := tk, [], 0, [], 0, true, 0;
      ids, streamed, aligned := [], [], true;
    }

    /** One of the call's ids; false when the streamed text is ahead of an added token. */
    method FeedId(id: int, ghost r: Runs) returns (ok: bool)
      requires FedRuns(r)
      modifies this`run, this`end, this`spans
      ensures ok ==> FedRuns(Feed(tk, r, id))
      ensures ok <==> id !in tk.added || seen <= |Concat(Close(tk, r))|
    {
      if id !in tk.added {
        run := run + [id];
        return true;
      }
      var tokenText := tk.added[id];
      AddedToken(tk, r, id, seen, spans);
      if run != [] {
        end := end + |tk.decode(run)|;
        run := [];
      }
      assert end == RunEnd(tk, r);
      if end < seen {
        return false;
      }
      if PIPE in tokenText {
        spans := spans + [Span(end, tokenText)];
        assert Open(spans, Feed(tk, r, id).pieces, seen);
      }
      end := end + |tokenText|;
      ok := true;
    }

    /** The loop over the call's ids; it stops exactly when the streamed text is ahead of an added
        token. */
    method FeedIds(newIds: seq<int>) returns (ok: bool)
      requires Fed(ids)
      modifies this`run, this`end, this`spans
      ensures ok ==> Fed(ids + newIds)
      ensures ok <==> KeepsUp(tk, ids, newIds, seen)
    {
      ghost var fed := ids;
      Prefixes(ids, newIds);
      for k := 0 to |newIds|
        invariant fed == ids + newIds[..k] && Fed(fed)
        invariant forall j :: 0 <= j < k && newIds[j] in tk.added ==> seen <= |RunText(tk, ids + newIds[..j])|
      {
        ok := FeedId(newIds[k], RunsOf(tk, fed));
        if !ok {
          return;
        }
        FeedOne(tk, fed, newIds[k]);
        fed := fed + [newIds[k]];
      }
      ok := true;
    }

    /** The second half of hide: the ids are in, the text is not counted yet. */
    method Deliver(text: string, ghost r: Runs) returns (out: string)
      requires active && FedRuns(r)
      modifies this`seen, this`spans, this`hidden, this`active
      ensures OnlyHides(text, out) && hidden == old(hidden) + Changes(text, out) && (!active ==> out == text)
      ensures active ==> FedRuns(r) && seen == old(seen) + |text| && Delta(text, old(seen), old(spans), out)
      ensures active <==> HIDE !in text && AllAgree(old(spans), text, old(seen))
    {
      var start := seen;
      StillOpen(spans, r.pieces, start, start + |text|);
      seen := seen + |text|;
      var ok, kept, count;
      ok, out, kept, count := HideDelta(text, start, spans);
      hidden := hidden + count;
      if !ok {
        active := false;
        return;
      }
      spans := kept;
    }

    /** _OutputTokenStream.hide. */
    method Hide(text: string, newIds: seq<int>) returns (out: string)
      requires Valid()
      modifies this
      ensures Valid() && ids == old(ids) + newIds && streamed == old(streamed) + text
      ensures aligned == (old(aligned) && InStep(tk, old(ids), newIds, old(streamed), text))
      ensures OnlyHides(text, out) && hidden == old(hidden) + Changes(text, out) && (!active ==> out == text)
      ensures active <==> old(active) && KeepsUp(tk, old(ids), newIds, |old(streamed)|) && HIDE !in text
                          && AllAgree(OpenSpans(tk, ids, |old(streamed)|), text, |old(streamed)|)
      ensures aligned ==> Hidden(RunsOf(tk, ids).pieces, text, |old(streamed)|, out)
    {
      NoChanges(text);
      ghost var wasIds, wasStreamed := ids, streamed;
      aligned := aligned && InStep(tk, ids, newIds, streamed, text);
      out := text;
      var ok := false;
      if active {
        ok := FeedIds(newIds);
      }
      ids, streamed := wasIds + newIds, wasStreamed + text;
      if !ok {
        active := false;
        return;
      }
      if aligned {
        SpansAgree(tk, ids, wasStreamed, text, spans);
      }
      out := Deliver(text, RunsOf(tk, ids));
      if aligned {
        DeltaHides(tk, ids, wasStreamed, text, out);
      }
    }
  }

  ghost predicate AllAgree(spans: seq<Span>, text: string, start: nat) {
    forall k :: 0 <= k < |spans| ==> Agrees(spans[k], text, start)
  }

  lemma Prefixes(a: seq<int>, b: seq<int>)
    ensures a + b[..0] == a && a + b[..|b|] == a + b
    ensures forall k :: 0 <= k < |b| ==> a + b[..k + 1] == a + b[..k] + [b[k]]
  {
    forall k | 0 <= k < |b| ensures a + b[..k + 1] == a + b[..k] + [b[k]] {
    }
  }

  // ---------------------------------------------------------------------------
  // One delta.

  /** The spans looked at so far have covered these characters, left these open, and so on. */
  ghost predicate Overlaid(text: string, start: nat, spans: seq<Span>, added: set<nat>, kept: seq<Span>, held: bool) {
    var seen := start + |text|;
    && (forall i: nat :: i in added <==> i < |text| && InAnySpan(spans, start + i))
    && kept == Unfinished(spans, seen) && held == Held(spans, seen)
  }

  lemma OverlayOne(text: string, start: nat, spans: seq<Span>, added: set<nat>, kept: seq<Span>, held: bool, s: Span)
    requires Overlaid(text, start, spans, added, kept, held)
    ensures var open := s.start + |s.text| > start + |text|;
            Overlaid(text, start, spans + [s], added + Overlap(s, start, |text|), if open then kept + [s] else kept,
                     held || (open && s.start >= start + |text|))
  {
    forall p: nat ensures InAnySpan(spans + [s], p) <==> InAnySpan(spans, p) || InSpan(s, p) {
      OneMoreSpan(spans, s, p);
    }
    HeldOne(spans, s, start + |text|);
    UnfinishedOne(spans, s, start + |text|);
  }

  /** One turn of the loop over the spans. */
  method OverlaySpan(text: string, start: nat, ghost before: seq<Span>, s: Span, wasAdded: set<nat>,
                     wasKept: seq<Span>, wasHeld: bool)
    returns (added: set<nat>, kept: seq<Span>, held: bool)
    requires Overlaid(text, start, before, wasAdded, wasKept, wasHeld)
    ensures Overlaid(text, start, before + [s], added, kept, held)
  {
    OverlayOne(text, start, before, wasAdded, wasKept, wasHeld, s);
    added, kept, held := wasAdded + Overlap(s, start, |text|), wasKept, wasHeld;
    if s.start + |s.text| > start + |text| {
      kept := kept + [s];
      held := held || s.start >= start + |text|;
    }
  }

  lemma NothingOverlaid(text: string, start: nat)
    ensures Overlaid(text, start, [], {}, [], false)
  {
  }

  /** The loop over the spans: which of the call's characters are an added token's, which spans
      are not all streamed, and whether one of them has not begun; false when an added token's
      text is not where its ids put it. */
  method Overlay(text: string, start: nat, spans: seq<Span>)
    returns (ok: bool, added: set<nat>, kept: seq<Span>, held: bool)
    ensures ok ==> Overlaid(text, start, spans, added, kept, held)
    ensures ok <==> AllAgree(spans, text, start)
  {
    added, kept, held := {}, [], false;
    ghost var before: seq<Span> := [];
    NothingOverlaid(text, start);
    for k := 0 to |spans|
      invariant before == spans[..k] && Overlaid(text, start, before, added, kept, held)
      invariant AllAgree(before, text, start)
    {
      if !Agrees(spans[k], text, start) {
        return false, {}, [], false;
      }
      added, kept, held := OverlaySpan(text, start, before, spans[k], added, kept, held);
      before := before + [spans[k]];
    }
    assert before == spans;
    ok := true;
  }

  /** What a delta becomes, given the unfinished spans. */
  ghost predicate Delta(text: string, start: nat, spans: seq<Span>, out: string) {
    && |out| == |text|
    && if Held(spans, start + |text|) then out == text
       else forall i :: 0 <= i < |text| ==>
              out[i] == if text[i] == PIPE && !InAnySpan(spans, start + i) then HIDE else text[i]
  }

  /** Only a "｜" changes, and only into the hiding character. */
  predicate OnlyHides(text: string, out: string) {
    |out| == |text| && forall i :: 0 <= i < |text| ==> out[i] == text[i] || (text[i] == PIPE && out[i] == HIDE)
  }

  /** The rest of hide, once the ids are in: the delta, the spans left, and how many were hidden. */
  method HideDelta(text: string, start: nat, spans: seq<Span>)
    returns (ok: bool, out: string, kept: seq<Span>, count: nat)
    ensures OnlyHides(text, out) && count == Changes(text, out) && (!ok ==> out == text)
    ensures ok ==> kept == Unfinished(spans, start + |text|) && Delta(text, start, spans, out)
    ensures ok <==> HIDE !in text && AllAgree(spans, text, start)
  {
    NoChanges(text);
    out, kept, count := text, [], 0;
    if HIDE in text {
      return false, text, [], 0;
    }
    var added, held;
    ok, added, kept, held := Overlay(text, start, spans);
    if !ok || held {
      return;
    }
    out, count := Replace(text, added);
  }

  /** In step, the spans say what the text says. */
  lemma SpansAgree(tk: Tokenizer, ids: seq<int>, streamed: string, text: string, spans: seq<Span>)
    requires streamed + text <= RunText(tk, ids)
    requires spans == OpenSpans(tk, ids, |streamed|)
    ensures AllAgree(spans, text, |streamed|)
  {
    var r := RunsOf(tk, ids);
    BeforeRun(tk, r);
    forall k | 0 <= k < |spans| ensures Agrees(spans[k], text, |streamed|) {
      UnfinishedHas(SpansOf(r.pieces), |streamed|, spans[k]);
      SpansLieIn(r.pieces, spans[k]);
      SpanAgrees(spans[k], Concat(r.pieces), RunText(tk, ids), streamed, text);
    }
  }

  lemma BeforeRun(tk: Tokenizer, r: Runs)
    ensures Concat(r.pieces) <= Concat(Close(tk, r))
  {
    if r.run != [] {
      ConcatOne(r.pieces, Piece(true, tk.decode(r.run)));
    }
  }

  lemma SpanAgrees(s: Span, before: string, all: string, streamed: string, text: string)
    requires SpanIn(s, before) && before <= all && streamed + text <= all
    ensures Agrees(s, text, |streamed|)
  {
    forall i | 0 <= i < |text| && InSpan(s, |streamed| + i) ensures text[i] == s.text[|streamed| + i - s.start] {
      var p := |streamed| + i;
      assert text[i] == (streamed + text)[p] == all[p];
      assert s.text[p - s.start] == before[s.start..s.start + |s.text|][p - s.start] == before[p];
    }
    AgreesFrom(s, text, |streamed|);
  }

  /** Leaving out finished spans changes nothing from `seen` on. */
  lemma {:induction false} UnfinishedCovers(spans: seq<Span>, seen: nat, p: nat)
    requires p >= seen
    ensures InAnySpan(Unfinished(spans, seen), p) <==> InAnySpan(spans, p)
  {
    if spans != [] {
      var init, last := spans[..|spans| - 1], spans[|spans| - 1];
      assert spans == init + [last];
      UnfinishedCovers(init, seen, p);
      OneMoreSpan(init, last, p);
      OneMoreSpan(Unfinished(init, seen), last, p);
      UnfinishedOne(init, last, seen);
    }
  }

  lemma {:induction false} HeldUnfinished(spans: seq<Span>, start: nat, seen: nat)
    requires start <= seen
    ensures Held(Unfinished(spans, start), seen) == Held(spans, seen)
  {
    if spans != [] {
      var init, last := spans[..|spans| - 1], spans[|spans| - 1];
      assert spans == init + [last];
      HeldUnfinished(init, start, seen);
      HeldOne(init, last, seen);
      HeldOne(Unfinished(init, start), last, seen);
      UnfinishedOne(init, last, start);
    }
  }

  lemma CharAt(all: string, streamed: string, text: string, i: nat)
    requires streamed + text <= all && i < |text|
    ensures all[|streamed| + i] == text[i]
  {
    assert (streamed + text)[|streamed| + i] == text[i];
  }

  /** A "｜" from `seen` on lies in an added token exactly when an unfinished span covers it. */
  lemma OrdinaryPipe(pieces: seq<Piece>, all: string, seen: nat, p: nat)
    requires Concat(pieces) <= all && seen <= p < |all| && all[p] == PIPE
    ensures InAdded(pieces, p) <==> InAnySpan(Unfinished(SpansOf(pieces), seen), p)
  {
    UnfinishedCovers(SpansOf(pieces), seen, p);
    if p < |Concat(pieces)| {
      PipeInSpan(pieces, p);
    } else {
      NoSpanPast(pieces, p);
    }
  }

  /** The delta with every ordinary "｜" hidden, unless an added token is still held back. */
  ghost predicate Hidden(pieces: seq<Piece>, text: string, start: nat, out: string) {
    && |out| == |text|
    && if Held(SpansOf(pieces), start + |text|) then out == text
       else forall i :: 0 <= i < |text| ==>
              out[i] == if text[i] == PIPE && !InAdded(pieces, start + i) then HIDE else text[i]
  }

  lemma DeltaChar(pieces: seq<Piece>, all: string, seen: nat, p: nat, c: char)
    requires Concat(pieces) <= all && seen <= p < |all|
    requires c == if all[p] == PIPE && !InAnySpan(Unfinished(SpansOf(pieces), seen), p) then HIDE else all[p]
    ensures c == if all[p] == PIPE && !InAdded(pieces, p) then HIDE else all[p]
  {
    if all[p] == PIPE {
      OrdinaryPipe(pieces, all, seen, p);
    }
  }

  ghost predicate CharsAt(all: string, start: nat, text: string) {
    start + |text| <= |all| && forall i :: 0 <= i < |text| ==> text[i] == all[start + i]
  }

  lemma PrefixChars(all: string, streamed: string, text: string)
    requires streamed + text <= all
    ensures CharsAt(all, |streamed|, text)
  {
    forall i | 0 <= i < |text| ensures text[i] == all[|streamed| + i] {
      CharAt(all, streamed, text, i);
    }
  }

  lemma DeltaIn(pieces: seq<Piece>, all: string, start: nat, text: string, out: string)
    requires Concat(pieces) <= all && CharsAt(all, start, text)
    requires Delta(text, start, Unfinished(SpansOf(pieces), start), out)
    ensures Hidden(pieces, text, start, out)
  {
    HeldUnfinished(SpansOf(pieces), start, start + |text|);
    forall i | 0 <= i < |text| && !Held(SpansOf(pieces), start + |text|)
      ensures out[i] == if text[i] == PIPE && !InAdded(pieces, start + i) then HIDE else text[i]
    {
      DeltaChar(pieces, all, start, start + i, out[i]);
    }
  }

  lemma DeltaHides(tk: Tokenizer, ids: seq<int>, streamed: string, text: string, out: string)
    requires streamed + text <= RunText(tk, ids)
    requires Delta(text, |streamed|, Unfinished(SpansOf(RunsOf(tk, ids).pieces), |streamed|), out)
    ensures Hidden(RunsOf(tk, ids).pieces, text, |streamed|, out)
  {
    BeforeRun(tk, RunsOf(tk, ids));
    PrefixChars(RunText(tk, ids), streamed, text);
    DeltaIn(RunsOf(tk, ids).pieces, RunText(tk, ids), |streamed|, text, out);
  }

  function Positions(lo: nat, hi: nat): (s: set<nat>)
    requires lo <= hi
    ensures forall i: nat :: i in s <==> lo <= i < hi
    decreases hi
  {
    if lo == hi then {} else Positions(lo, hi - 1) + {hi - 1}
  }

  /** The n characters of t from a on are those of u from b on. */
  predicate SameText(t: string, a: int, u: string, b: int, n: int) {
    0 <= a <= a + n <= |t| && 0 <= b <= b + n <= |u| && t[a..a + n] == u[b..b + n]
  }

  /** Where a span and a stretch of the text overlap, they say the same. */
  predicate Agrees(s: Span, text: string, start: nat) {
    var low, high := Max(s.start, start), Min(s.start + |s.text|, start + |text|);
    low < high ==> SameText(text, low - start, s.text, low - s.start, high - low)
  }

  lemma SameTextAt(t: string, a: nat, u: string, b: nat, n: nat, i: nat, j: nat)
    requires SameText(t, a, u, b, n) && a <= i < a + n && i - a == j - b
    ensures i < |t| && j < |u| && t[i] == u[j]
  {
    assert t[a..a + n][i - a] == u[b..b + n][i - a];
  }

  lemma AgreesAt(s: Span, text: string, start: nat, i: nat, j: nat)
    requires Agrees(s, text, start) && i < |text| && j < |s.text| && start + i == s.start + j
    ensures text[i] == s.text[j]
  {
    var low, high := Max(s.start, start), Min(s.start + |s.text|, start + |text|);
    SameTextAt(text, low - start, s.text, low - s.start, high - low, i, j);
  }

  lemma SameTextFrom(t: string, a: int, u: string, b: int, n: int)
    requires 0 <= a <= a + n <= |t| && 0 <= b <= b + n <= |u|
    requires forall i :: a <= i < a + n ==> t[i] == u[i - a + b]
    ensures SameText(t, a, u, b, n)
  {
    var x, y := t[a..a + n], u[b..b + n];
    forall k | 0 <= k < n ensures x[k] == y[k] {
      assert x[k] == t[a + k];
    }
  }

  lemma AgreesFrom(s: Span, text: string, start: nat)
    requires forall i :: 0 <= i < |text| && InSpan(s, start + i) ==> text[i] == s.text[start + i - s.start]
    ensures Agrees(s, text, start)
  {
    var low, high := Max(s.start, start), Min(s.start + |s.text|, start + |text|);
    if low < high {
      forall i | low - start <= i < high - start ensures text[i] == s.text[i - (low - start) + (low - s.start)] {
        assert InSpan(s, start + i);
      }
      SameTextFrom(text, low - start, s.text, low - s.start, high - low);
    }
  }

  /** They say the same exactly when every character of the call inside the span is the span's. */
  lemma AgreesIff(s: Span, text: string, start: nat)
    ensures Agrees(s, text, start) <==>
            forall i :: 0 <= i < |text| && InSpan(s, start + i) ==> text[i] == s.text[start + i - s.start]
  {
    if Agrees(s, text, start) {
      forall i | 0 <= i < |text| && InSpan(s, start + i) ensures text[i] == s.text[start + i - s.start] {
        AgreesAt(s, text, start, i, start + i - s.start);
      }
    } else if forall i :: 0 <= i < |text| && InSpan(s, start + i) ==> text[i] == s.text[start + i - s.start] {
      AgreesFrom(s, text, start);
    }
  }

  /** The characters of the call that a span covers. */
  function Overlap(s: Span, start: nat, length: nat): (o: set<nat>)
    ensures forall i: nat :: i in o <==> i < length && InSpan(s, start + i)
  {
    var low, high := Max(s.start, start), Min(s.start + |s.text|, start + length);
    if low < high then Positions(low - start, high - start) else {}
  }

  lemma HeldOne(spans: seq<Span>, s: Span, seen: nat)
    ensures Held(spans + [s], seen) <==> Held(spans, seen) || (s.start >= seen && s.start + |s.text| > seen)
  {
    assert (spans + [s])[..|spans|] == spans;
  }

  lemma StillOpen(spans: seq<Span>, pieces: seq<Piece>, seen: nat, later: nat)
    requires Open(spans, pieces, seen) && seen <= later
    ensures Open(Unfinished(spans, later), pieces, later)
  {
    UnfinishedTwice(SpansOf(pieces), seen, later);
  }

  /** Where the text of a run in progress ends. */
  function RunEnd(tk: Tokenizer, r: Runs): nat {
    |Concat(r.pieces)| + if r.run == [] then 0 else |tk.decode(r.run)|
  }

  lemma RunEndIs(tk: Tokenizer, r: Runs)
    ensures RunEnd(tk, r) == |Concat(Close(tk, r))| && SpansOf(Close(tk, r)) == SpansOf(r.pieces)
  {
    if r.run != [] {
      ConcatOne(r.pieces, Piece(true, tk.decode(r.run)));
      SpansOne(r.pieces, Piece(true, tk.decode(r.run)));
    }
  }

  /** What an added token does to the text before the run and to the spans. */
  lemma AddedToken(tk: Tokenizer, r: Runs, id: int, seen: nat, open: seq<Span>)
    requires id in tk.added && Open(open, r.pieces, seen)
    ensures var now, text, end := Feed(tk, r, id), tk.added[id], RunEnd(tk, r);
            && now.run == [] && end == |Concat(Close(tk, r))| && |Concat(now.pieces)| == end + |text|
            && (end >= seen && PIPE in text ==> Open(open + [Span(end, text)], now.pieces, seen))
            && (end >= seen && PIPE !in text ==> Open(open, now.pieces, seen))
  {
    var closed, added := Close(tk, r), Piece(false, tk.added[id]);
    RunEndIs(tk, r);
    ConcatOne(closed, added);
    SpansOne(closed, added);
    UnfinishedOne(SpansOf(closed), Span(|Concat(closed)|, added.text), seen);
  }

  // ---------------------------------------------------------------------------
  // A whole stream.

  /** One parse_delta call: the delta's text and its token ids. */
  datatype Call = Call(text: string, ids: seq<int>)

  function IdsUpTo(calls: seq<Call>, k: nat): seq<int>
    requires k <= |calls|
  {
    if k == 0 then [] else IdsUpTo(calls, k - 1) + calls[k - 1].ids
  }

  function TextUpTo(calls: seq<Call>, k: nat): string
    requires k <= |calls|
  {
    if k == 0 then [] else TextUpTo(calls, k - 1) + calls[k - 1].text
  }

  function Flat(deltas: seq<string>): string {
    if deltas == [] then [] else Flat(deltas[..|deltas| - 1]) + deltas[|deltas| - 1]
  }

  ghost predicate CallInStep(tk: Tokenizer, calls: seq<Call>, k: nat)
    requires k < |calls|
  {
    InStep(tk, IdsUpTo(calls, k), calls[k].ids, TextUpTo(calls, k), calls[k].text)
  }

  /** The first k calls are in step. */
  ghost predicate InStepUpTo(tk: Tokenizer, calls: seq<Call>, k: nat)
    requires k <= |calls|
  {
    k == 0 || (InStepUpTo(tk, calls, k - 1) && CallInStep(tk, calls, k - 1))
  }

  lemma TokenInStep(tk: Tokenizer, ids: seq<int>, newIds: seq<int>, streamed: string, text: string)
    requires |newIds| == 1 && HIDE !in text
    requires streamed == RunText(tk, ids) && streamed + text == RunText(tk, ids + newIds)
    ensures InStep(tk, ids, newIds, streamed, text)
  {
    assert ids + newIds[..0] == ids;
  }

  /** A call that brings one token, with text that is what the ids decode to before and after it, is
      in step. */
  lemma TokenCallInStep(tk: Tokenizer, calls: seq<Call>, k: nat)
    requires k < |calls| && |calls[k].ids| == 1 && HIDE !in calls[k].text
    requires TextUpTo(calls, k) == RunText(tk, IdsUpTo(calls, k))
    requires TextUpTo(calls, k) + calls[k].text == RunText(tk, IdsUpTo(calls, k) + calls[k].ids)
    ensures CallInStep(tk, calls, k)
  {
    TokenInStep(tk, IdsUpTo(calls, k), calls[k].ids, TextUpTo(calls, k), calls[k].text);
  }

  /** Each delta is the call's text with its ordinary "｜"s hidden. */
  ghost predicate AllHidden(tk: Tokenizer, calls: seq<Call>, outs: seq<string>)
    requires |outs| <= |calls|
  {
    outs == [] ||
    var k := |outs| - 1;
    && AllHidden(tk, calls, outs[..k])
    && Hidden(RunsOf(tk, IdsUpTo(calls, k + 1)).pieces, calls[k].text, |TextUpTo(calls, k)|, outs[k])
  }

  /** The deltas so far are right, and un-hiding them gives the text so far. */
  ghost predicate StreamedWell(tk: Tokenizer, calls: seq<Call>, outs: seq<string>)
    requires |outs| <= |calls|
  {
    AllHidden(tk, calls, outs) && Unhide(Flat(outs)) == TextUpTo(calls, |outs|)
  }

  lemma StreamedOneMore(tk: Tokenizer, calls: seq<Call>, outs: seq<string>, out: string)
    requires |outs| < |calls| && StreamedWell(tk, calls, outs)
    requires HIDE !in calls[|outs|].text && OnlyHides(calls[|outs|].text, out)
    requires Hidden(RunsOf(tk, IdsUpTo(calls, |outs| + 1)).pieces, calls[|outs|].text, |TextUpTo(calls, |outs|)|, out)
    ensures StreamedWell(tk, calls, outs + [out])
  {
    assert (outs + [out])[..|outs|] == outs;
    UnhideOnlyHides(calls[|outs|].text, out);
    UnhideConcat(Flat(outs), out);
  }

  lemma UnhideOnlyHides(text: string, out: string)
    requires OnlyHides(text, out) && HIDE !in text
    ensures Unhide(out) == text
  {
  }

  lemma UnhideConcat(a: string, b: string)
    ensures Unhide(a + b) == Unhide(a) + Unhide(b)
  {
  }

  /** The stream after the deltas so far. */
  ghost predicate StreamAt(stream: Stream, tk: Tokenizer, calls: seq<Call>, outs: seq<string>)
    requires |outs| <= |calls|
    reads stream
  {
    && stream.tk == tk && stream.Valid()
    && stream.ids == IdsUpTo(calls, |outs|) && stream.streamed == TextUpTo(calls, |outs|)
    && (InStepUpTo(tk, calls, |outs|) ==> stream.aligned && StreamedWell(tk, calls, outs))
  }

  /** One delta of a stream. */
  method HideCall(stream: Stream, tk: Tokenizer, calls: seq<Call>, ghost outs: seq<string>,
                  k: nat) returns (out: string)
    requires k == |outs| < |calls| && StreamAt(stream, tk, calls, outs)
    modifies stream
    ensures StreamAt(stream, tk, calls, outs + [out])
  {
    out := stream.Hide(calls[k].text, calls[k].ids);
    if InStepUpTo(tk, calls, k + 1) {
      assert CallInStep(tk, calls, k);
      StreamedOneMore(tk, calls, outs, out);
    }
  }

  /** A completion streamed through hide. As long as every call is in step, hiding never stops,
      each delta has exactly its ordinary "｜"s hidden unless an added token is held back, and
      un-hiding the deltas gives the text back. */
  method HideAll(tk: Tokenizer, calls: seq<Call>) returns (outs: seq<string>, active: bool)
    ensures |outs| == |calls|
    ensures InStepUpTo(tk, calls, |calls|) ==>
              && active
              && AllHidden(tk, calls, outs)
              && Unhide(Flat(outs)) == TextUpTo(calls, |calls|)
  {
    var stream := new Stream(tk);
    outs := [];
    for k := 0 to |calls|
      invariant fresh(stream) && |outs| == k && StreamAt(stream, tk, calls, outs)
    {
      var out := HideCall(stream, tk, calls, outs, k);
      outs := outs + [out];
    }
    active := stream.active;
  }

  /** Whether a streamed character is an added token's does not change when more ids come in. */
  lemma AddedIsStable(tk: Tokenizer, r: Runs, id: int, p: nat)
    requires p < |Concat(Close(tk, r))|
    ensures InAdded(Feed(tk, r, id).pieces, p) <==> InAdded(r.pieces, p)
  {
    if id in tk.added {
      var closed := Close(tk, r);
      assert (closed + [Piece(false, tk.added[id])])[..|closed|] == closed;
      if r.run != [] {
        assert closed[..|r.pieces|] == r.pieces;
        PastTheText(r.pieces, p);
      }
    }
  }

  lemma PastTheText(pieces: seq<Piece>, p: nat)
    ensures p >= |Concat(pieces)| ==> !InAdded(pieces, p)
  {
  }
}

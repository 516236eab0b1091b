/** Keeping control-token text in request content from becoming control tokens
    (overlay/patch_control_token_injection.py:59-204). */
module ControlGuard {
  import opened Arithmetic
  import opened Wrappers
  import opened Placeholders
  import opened RunDecode
  import WordScan

  // ---------------------------------------------------------------------------
  // Marking the template's control tokens.

  class Guard {
    /** The added-token strings, which the scan looks for. */
    const words: seq<string>
    const m: Marker
    /** The token of each marker number, and the number of each token. */
    var tokens: seq<string>
    var markers: map<string, nat>

    ghost predicate Valid()
      reads this
    {
      && m.Good() && words != []
      && (forall t :: t in markers ==> markers[t] < |tokens| && tokens[markers[t]] == t)
      && (forall i :: 0 <= i < |tokens| ==> tokens[i] in markers && tokens[i] in words)
    }

    constructor (words: seq<string>, m: Marker)
      requires m.Good() && words != []
      ensures Valid() && this.words == words && this.m == m && tokens == []
    {
      this.words, this.m, tokens, markers := words, m, [], map[];
    }

    /** _marker_for: one number a token, for good. */
    method MarkerFor(token: string) returns (n: nat)
      requires Valid() && token in words
      modifies this`tokens, this`markers
      ensures Valid() && tokens == if token in old(tokens) then old(tokens) else old(tokens) + [token]
      ensures n < |tokens| && tokens[n] == token
    {
      if token in markers {
        return markers[token];
      }
      n := |tokens|;
      tokens := tokens + [token];
      markers := markers[token := n];
    }

    /** The markers of the strings that were found. */
    method MarkersFor(found: seq<string>) returns (numbers: seq<nat>)
      requires Valid() && forall i :: 0 <= i < |found| ==> found[i] in words
      modifies this`tokens, this`markers
      ensures Valid() && old(tokens) <= tokens && Stand(numbers, tokens, found)
    {
      numbers := [];
      for k := 0 to |found|
        invariant Valid() && old(tokens) <= tokens && Stand(numbers, tokens, found[..k])
      {
        ghost var before := tokens;
        var n := MarkerFor(found[k]);
        assert found[..k + 1] == found[..k] + [found[k]];
        StandOneMore(numbers, before, tokens, found[..k], n);
        numbers := numbers + [n];
      }
      assert found[..|found|] == found;
    }

    /** _mark: every added-token string of the text replaced by its marker. */
    method Mark(text: string) returns (marked: string, ghost q: Parts<nat>)
      requires Valid() && [] !in words
      modifies this`tokens, this`markers
      ensures Valid() && old(tokens) <= tokens
      ensures Shaped(q) && Known(q, tokens) && Named(q, tokens) == WordScan.ScanParts(words, text)
      ensures marked == Render(m, q)
    {
      var parts := WordScan.ScanParts(words, text);
      ScanFindsWords(words, text);
      var numbers := MarkersFor(parts.holes);
      marked := Render(m, Parts(parts.texts, numbers));
      q := Parts(parts.texts, numbers);
      StandNamed(q, tokens, parts);
    }
  }

  /** The numbers stand for the strings. */
  ghost predicate Stand(numbers: seq<nat>, tokens: seq<string>, found: seq<string>) {
    |numbers| == |found| && forall j :: 0 <= j < |found| ==> numbers[j] < |tokens| && tokens[numbers[j]] == found[j]
  }

  lemma StandOneMore(numbers: seq<nat>, before: seq<string>, after: seq<string>, found: seq<string>, n: nat)
    requires Stand(numbers, before, found) && before <= after && n < |after|
    ensures Stand(numbers + [n], after, found + [after[n]])
  {
  }

  lemma StandNamed(q: Parts<nat>, tokens: seq<string>, p: Parts<string>)
    requires Shaped(q) && q.texts == p.texts && Stand(q.holes, tokens, p.holes)
    ensures Known(q, tokens) && Named(q, tokens) == p
  {
    assert Named(q, tokens).holes == p.holes;
  }

  /** Building a guard; a tokenizer without added tokens is an error. */
  method MakeGuard(words: seq<string>, m: Marker) returns (g: Guard?)
    requires m.Good()
    ensures g == null <==> words == []
    ensures g != null ==> fresh(g) && g.Valid() && g.words == words && g.m == m && g.tokens == []
  {
    g := null;
    if words != [] {
      g := new Guard(words, m);
    }
  }

  /** Every number of the parts has a token. */
  ghost predicate Known(q: Parts<nat>, tokens: seq<string>) {
    forall i :: 0 <= i < |q.holes| ==> q.holes[i] < |tokens|
  }

  lemma ScanFindsWords(words: seq<string>, s: string)
    requires words != [] && [] !in words
    ensures forall i :: 0 <= i < |WordScan.ScanParts(words, s).holes| ==> WordScan.ScanParts(words, s).holes[i] in words
  {
    var p := WordScan.ScanParts(words, s);
    forall h | 0 <= h < |p.holes| ensures p.holes[h] in words {
      WordScan.ScanTakesLongest(words, s, p, h);
    }
  }

  // ---------------------------------------------------------------------------
  // Rendering a conversation.

  function JoinAll(qs: seq<Parts<nat>>): (q: Parts<nat>)
    requires forall i :: 0 <= i < |qs| ==> Shaped(qs[i])
    ensures Shaped(q)
  {
    if qs == [] then Parts([[]], []) else Join(qs[0], JoinAll(qs[1..]))
  }

  function RenderAll(m: Marker, qs: seq<Parts<nat>>): string
    requires forall i :: 0 <= i < |qs| ==> Shaped(qs[i])
  {
    if qs == [] then [] else Render(m, qs[0]) + RenderAll(m, qs[1..])
  }

  ghost predicate AllKnown(qs: seq<Parts<nat>>, tokens: seq<string>) {
    forall i :: 0 <= i < |qs| ==> Shaped(qs[i]) && Known(qs[i], tokens)
  }

  function PlainAll(qs: seq<Parts<nat>>, tokens: seq<string>): string
    requires AllKnown(qs, tokens)
  {
    if qs == [] then [] else Fill(Named(qs[0], tokens)) + PlainAll(qs[1..], tokens)
  }

  lemma JoinKnown(a: Parts<nat>, b: Parts<nat>, tokens: seq<string>)
    requires Shaped(a) && Shaped(b) && Known(a, tokens) && Known(b, tokens)
    ensures Known(Join(a, b), tokens)
    ensures Named(Join(a, b), tokens) == Join(Named(a, tokens), Named(b, tokens))
  {
    assert Named(Join(a, b), tokens).holes == Join(Named(a, tokens), Named(b, tokens)).holes;
  }

  /** The markers of all the pieces, in order; request text has none. */
  function MarksOf(qs: seq<Parts<nat>>): seq<nat> {
    if qs == [] then [] else qs[0].holes + MarksOf(qs[1..])
  }

  lemma {:induction false} JoinAllIs(m: Marker, qs: seq<Parts<nat>>, tokens: seq<string>)
    requires AllKnown(qs, tokens)
    ensures Known(JoinAll(qs), tokens) && JoinAll(qs).holes == MarksOf(qs)
    ensures Render(m, JoinAll(qs)) == RenderAll(m, qs)
    ensures Fill(Named(JoinAll(qs), tokens)) == PlainAll(qs, tokens)
  {
    if qs != [] {
      JoinAllIs(m, qs[1..], tokens);
      JoinKnown(qs[0], JoinAll(qs[1..]), tokens);
      RenderJoin(m, qs[0], JoinAll(qs[1..]));
      FillJoin(Named(qs[0], tokens), Named(JoinAll(qs[1..]), tokens));
    }
  }

  /** The marked render of a conversation (request text as it is, template text marked) splits
      into exactly the marks of the template and rebuilds the prompt, as long as the prompt does
      not hold the nonce. */
  lemma MarkedRenderRebuilds(m: Marker, qs: seq<Parts<nat>>, tokens: seq<string>)
    requires m.Good() && AllKnown(qs, tokens) && Free(m, PlainAll(qs, tokens))
    ensures SplitAll(m, RenderAll(m, qs)) == JoinAll(qs) && JoinAll(qs).holes == MarksOf(qs)
    ensures Known(JoinAll(qs), tokens) && Fill(Named(JoinAll(qs), tokens)) == PlainAll(qs, tokens)
  {
    JoinAllIs(m, qs, tokens);
    var q := JoinAll(qs);
    forall i | 0 <= i < |q.texts| ensures Free(m, q.texts[i]) {
      FreeTexts(m, Named(q, tokens), i);
    }
    SplitRender(m, q);
  }

  // ---------------------------------------------------------------------------
  // Encoding segment by segment.

  function Segments(texts: seq<string>, tokens: seq<string>, added: map<string, int>,
                    encode: string -> seq<int>): seq<int>
    requires |texts| == |tokens| + 1 && forall i :: 0 <= i < |tokens| ==> tokens[i] in added
    decreases |tokens|
  {
    var n := |tokens|;
    var last := if texts[n] == [] then [] else encode(texts[n]);
    if n == 0 then last else Segments(texts[..n], tokens[..n - 1], added, encode) + [added[tokens[n - 1]]] + last
  }

  function NonEmpty(texts: seq<string>): seq<string> {
    if texts == [] then []
    else if texts[|texts| - 1] == [] then NonEmpty(texts[..|texts| - 1])
    else NonEmpty(texts[..|texts| - 1]) + [texts[|texts| - 1]]
  }

  /** encode_batch. */
  function Batch(texts: seq<string>, encode: string -> seq<int>): (b: seq<seq<int>>)
    ensures |b| == |texts| && forall i :: 0 <= i < |texts| ==> b[i] == encode(texts[i])
  {
    seq(|texts|, i requires 0 <= i < |texts| => encode(texts[i]))
  }

  lemma {:induction false} NonEmptyUpTo(texts: seq<string>, k: nat)
    requires k <= |texts|
    ensures |NonEmpty(texts[..k])| <= |NonEmpty(texts)|
              && NonEmpty(texts[..k]) == NonEmpty(texts)[..|NonEmpty(texts[..k])|]
    decreases |texts|
  {
    if k == |texts| {
      assert texts[..k] == texts;
    } else {
      var init := texts[..|texts| - 1];
      assert init[..k] == texts[..k];
      NonEmptyUpTo(init, k);
    }
  }

  /** What the loop has done for the first k texts. */
  ghost predicate EncodedTo(texts: seq<string>, tokens: seq<string>, added: map<string, int>,
                            encode: string -> seq<int>, k: nat, next: nat, ids: seq<int>)
    requires |texts| == |tokens| + 1 && (forall i :: 0 <= i < |tokens| ==> tokens[i] in added) && k <= |texts|
  {
    && next == |NonEmpty(texts[..k])| <= |NonEmpty(texts)|
    && ids == if k == 0 then [] else Segments(texts[..k], tokens[..k - 1], added, encode)
  }

  /** One text more: its token if it is not the first, and its encoding if it is not empty. */
  lemma EncodedOneMore(texts: seq<string>, tokens: seq<string>, added: map<string, int>, encode: string -> seq<int>,
                       k: nat, next: nat, ids: seq<int>)
    requires |texts| == |tokens| + 1 && (forall i :: 0 <= i < |tokens| ==> tokens[i] in added) && k < |texts|
    requires EncodedTo(texts, tokens, added, encode, k, next, ids)
    ensures texts[k] != [] ==> next < |NonEmpty(texts)| && NonEmpty(texts)[next] == texts[k]
    ensures EncodedTo(texts, tokens, added, encode, k + 1, if texts[k] == [] then next else next + 1,
                      (if k == 0 then ids else ids + [added[tokens[k - 1]]])
                      + if texts[k] == [] then [] else encode(texts[k]))
  {
    assert texts[..k + 1][..k] == texts[..k];
    assert k > 0 ==> tokens[..k][..k - 1] == tokens[..k - 1];
    NonEmptyUpTo(texts, k + 1);
  }

  /** _encode_segments: the batch of the nonempty texts, taken one after the other. */
  method EncodeSegments(texts: seq<string>, tokens: seq<string>, added: map<string, int>, encode: string -> seq<int>)
    returns (ids: seq<int>)
    requires |texts| == |tokens| + 1 && forall i :: 0 <= i < |tokens| ==> tokens[i] in added
    ensures ids == Segments(texts, tokens, added, encode)
  {
    var encoded := Batch(NonEmpty(texts), encode);
    var next := 0;
    ids := [];
    for k := 0 to |texts|
      invariant EncodedTo(texts, tokens, added, encode, k, next, ids)
    {
      EncodedOneMore(texts, tokens, added, encode, k, next, ids);
      if k > 0 {
        ids := ids + [added[tokens[k - 1]]];
      }
      if texts[k] != [] {
        ids := ids + encoded[next];
        next := next + 1;
      }
    }
    assert texts[..|texts|] == texts && tokens[..|tokens|] == tokens;
  }

  // ---------------------------------------------------------------------------
  // Truncation.

  /** The request's options: `truncate` is false for truncation False or "do_not_truncate". */
  datatype Options = Options(maxLength: Option<int>, truncate: bool)

  /** s[from:] and s[:to] as Python reads them. */
  function DropTo(s: seq<int>, start: int): seq<int> {
    if start >= 0 then (if start <= |s| then s[start..] else []) else (if -start <= |s| then s[|s| + start..] else s)
  }

  function TakeTo(s: seq<int>, stop: int): seq<int> {
    if stop >= 0 then (if stop <= |s| then s[..stop] else s) else (if -stop <= |s| then s[..|s| + stop] else [])
  }

  function Truncate(ids: seq<int>, options: Options, left: bool): seq<int> {
    if options.maxLength.None? || !options.truncate || |ids| <= options.maxLength.value then ids
    else if left then DropTo(ids, -options.maxLength.value)
    else TakeTo(ids, options.maxLength.value)
  }

  /** Without a limit, with truncation off, or within the limit every id stays. Otherwise the prompt
      is cut to max_length ids, from the side asked for, exactly when max_length is not 0 or the cut
      is on the right: with 0 on the left, everything stays. A negative limit takes that many ids
      off the side asked for. */
  lemma TruncateKeeps(ids: seq<int>, options: Options, left: bool)
    ensures var r := Truncate(ids, options, left);
            if options.maxLength.None? || !options.truncate || options.maxLength.value >= |ids| then r == ids
            else
              var k := options.maxLength.value;
              if k < 0 then r == if left then ids[Min(-k, |ids|)..] else ids[..Max(0, |ids| + k)]
              else
                && (k > 0 || !left <==> |r| == k && r == if left then ids[|ids| - k..] else ids[..k])
                && (k == 0 && left ==> r == ids)
  {
  }

  // ---------------------------------------------------------------------------
  // The guarded encode.

  datatype Outcome = Text(prompt: string) | Ids(ids: seq<int>) | UnknownMarker | RenderDiffers

  /** scan.search on every text between the markers. */
  predicate Dirty(words: seq<string>, texts: seq<string>) {
    exists i :: 0 <= i < |texts| && WordScan.AnyWord(words, texts[i])
  }

  /** The texts are dirty exactly when a stretch of one of them is an added-token string. */
  lemma DirtyIff(words: seq<string>, texts: seq<string>)
    requires words != []
    ensures Dirty(words, texts) <==> exists t, i, k :: t in texts && 0 <= i <= k <= |t| && t[i..k] in words
  {
    forall t | t in texts
      ensures WordScan.AnyWord(words, t) <==> exists i, k :: 0 <= i <= k <= |t| && t[i..k] in words
    {
      WordScan.AnyWordIff(words, t);
    }
  }

  /** _ControlTokenGuard.encode. `stock` is the tokenizer's own encode with the options, and
      `encode` the base vocabulary's; `tokenize` is the request's keyword. */
  method Encode(guard: Guard, added: map<string, int>, prompt: string, marked: string, tokenize: bool,
                options: Options, left: bool,
                stock: (string, Options) -> seq<int>, encode: string -> seq<int>)
    returns (r: Outcome)
    requires guard.Valid() && forall w :: w in guard.words ==> w in added
    ensures var q := SplitAll(guard.m, marked);
            if !Known(q, guard.tokens) then r == UnknownMarker
            else
              var p := Named(q, guard.tokens);
              if Fill(p) != prompt then r == RenderDiffers
              else if forall t, i, k :: t in p.texts && 0 <= i <= k <= |t| ==> t[i..k] !in guard.words then
                r == if tokenize then Ids(stock(prompt, options)) else Text(prompt)
              else (forall i :: 0 <= i < |p.holes| ==> p.holes[i] in added) &&
                   var ids := Segments(p.texts, p.holes, added, encode);
                   r == Ids(if tokenize then Truncate(ids, options, left) else ids)
  {
    var pieces := SplitAll(guard.m, marked);
    if exists i :: 0 <= i < |pieces.holes| && pieces.holes[i] >= |guard.tokens| {
      return UnknownMarker;
    }
    var p := Named(pieces, guard.tokens);
    if Fill(p) != prompt {
      return RenderDiffers;
    }
    var dirty := Dirty(guard.words, p.texts);
    DirtyIff(guard.words, p.texts);
    if !tokenize && !dirty {
      return Text(prompt);
    }
    if !dirty {
      return Ids(stock(prompt, options));
    }
    var ids := EncodeSegments(p.texts, p.holes, added, encode);
    r := Ids(if tokenize then Truncate(ids, options, left) else ids);
  }

  // ---------------------------------------------------------------------------
  // What a guarded prompt is.

  /** The base encoder is undone by the backend's decode, run by run, and emits no added id. */
  ghost predicate Inverts(tk: Tokenizer, encode: string -> seq<int>) {
    && tk.decode([]) == []
    && forall t: string :: tk.decode(encode(t)) == t && forall i :: 0 <= i < |encode(t)| ==> encode(t)[i] !in tk.added
  }

  /** The added ids of an id list, in order. */
  function AddedIds(tk: Tokenizer, ids: seq<int>): seq<int> {
    if ids == [] then []
    else if ids[|ids| - 1] in tk.added then AddedIds(tk, ids[..|ids| - 1]) + [ids[|ids| - 1]]
    else AddedIds(tk, ids[..|ids| - 1])
  }

  /** The ids of the tokens. */
  function IdsOf(tokens: seq<string>, added: map<string, int>): (r: seq<int>)
    requires forall i :: 0 <= i < |tokens| ==> tokens[i] in added
    ensures |r| == |tokens| && forall i :: 0 <= i < |tokens| ==> r[i] == added[tokens[i]]
  {
    seq(|tokens|, i requires 0 <= i < |tokens| => added[tokens[i]])
  }

  /** The two directions of the added vocabulary belong together. */
  ghost predicate SameVocabulary(tk: Tokenizer, added: map<string, int>) {
    forall t :: t in added ==> added[t] in tk.added && tk.added[added[t]] == t
  }

  lemma {:induction false} AddedIdsConcat(tk: Tokenizer, a: seq<int>, b: seq<int>)
    ensures AddedIds(tk, a + b) == AddedIds(tk, a) + AddedIds(tk, b)
  {
    if b == [] {
      assert a + b == a;
    } else {
      assert (a + b)[..|a + b| - 1] == a + b[..|b| - 1];
      AddedIdsConcat(tk, a, b[..|b| - 1]);
    }
  }

  lemma {:induction false} NoAddedIds(tk: Tokenizer, ids: seq<int>)
    requires forall i :: 0 <= i < |ids| ==> ids[i] !in tk.added
    ensures AddedIds(tk, ids) == []
  {
    if ids != [] {
      NoAddedIds(tk, ids[..|ids| - 1]);
    }
  }

  lemma AddedIdsOne(tk: Tokenizer, id: int)
    requires id in tk.added
    ensures AddedIds(tk, [id]) == [id]
  {
    assert [id][..0] == [];
  }

  /** One segment's ids. */
  function Segment(text: string, encode: string -> seq<int>): seq<int> {
    if text == [] then [] else encode(text)
  }

  lemma SegmentHasNoAdded(tk: Tokenizer, text: string, encode: string -> seq<int>)
    requires Inverts(tk, encode)
    ensures AddedIds(tk, Segment(text, encode)) == []
    ensures forall i :: 0 <= i < |Segment(text, encode)| ==> Segment(text, encode)[i] !in tk.added
    ensures tk.decode(Segment(text, encode)) == text
  {
    if text != [] {
      NoAddedIds(tk, encode(text));
    }
  }

  /** The added-token ids of a guarded prompt are the template's control ids, in order: none comes
      from request text. */
  lemma {:induction false} ControlIdsAreTemplate(tk: Tokenizer, texts: seq<string>, tokens: seq<string>,
                                                 added: map<string, int>, encode: string -> seq<int>)
    requires |texts| == |tokens| + 1 && (forall i :: 0 <= i < |tokens| ==> tokens[i] in added)
    requires Inverts(tk, encode) && SameVocabulary(tk, added)
    ensures AddedIds(tk, Segments(texts, tokens, added, encode)) == IdsOf(tokens, added)
    decreases |tokens|
  {
    var n := |tokens|;
    var last := Segment(texts[n], encode);
    SegmentHasNoAdded(tk, texts[n], encode);
    if n > 0 {
      var id := added[tokens[n - 1]];
      var front := Segments(texts[..n], tokens[..n - 1], added, encode);
      ControlIdsAreTemplate(tk, texts[..n], tokens[..n - 1], added, encode);
      AddedIdsConcat(tk, front + [id], last);
      AddedIdsConcat(tk, front, [id]);
      AddedIdsOne(tk, id);
      assert IdsOf(tokens, added) == IdsOf(tokens[..n - 1], added) + [id];
    }
  }

  /** A token and a segment more. */
  lemma OneMoreSegment(tk: Tokenizer, front: seq<int>, id: int, last: seq<int>, before: string, token: string,
                       text: string)
    requires Concat(Close(tk, FeedAll(tk, Runs([], []), front))) == before
    requires id in tk.added && tk.added[id] == token
    requires (forall i :: 0 <= i < |last| ==> last[i] !in tk.added) && tk.decode([]) == [] && tk.decode(last) == text
    ensures var r := FeedAll(tk, Runs([], []), front + [id] + last);
            r.run == last && Concat(Close(tk, r)) == before + token + text
  {
    var r := FeedAll(tk, Runs([], []), front);
    var closed := Close(tk, r) + [Piece(false, token)];
    FeedMore(tk, Runs([], []), front + [id], last);
    FeedMore(tk, Runs([], []), front, [id]);
    FeedSingle(tk, r, id);
    FeedOrdinary(tk, Runs(closed, []), last);
    assert [] + last == last;
    ConcatOne(Close(tk, r), Piece(false, token));
    CloseRun(tk, closed, last, text);
  }

  /** Up to its last token a guarded prompt decodes to the text so far, and what follows is one
      run: the last segment. */
  lemma {:induction false} SegmentsDecode(tk: Tokenizer, texts: seq<string>, tokens: seq<string>, added: map<string,
                                          int>, encode: string -> seq<int>)
    requires |texts| == |tokens| + 1 && (forall i :: 0 <= i < |tokens| ==> tokens[i] in added)
    requires Inverts(tk, encode) && SameVocabulary(tk, added)
    ensures Concat(Close(tk, FeedAll(tk, Runs([], []), Segments(texts, tokens, added, encode))))
              == FillUpTo(texts, tokens, |tokens|)
    decreases |tokens|
  {
    var n := |tokens|;
    var last := Segment(texts[n], encode);
    SegmentHasNoAdded(tk, texts[n], encode);
    if n == 0 {
      FeedOrdinary(tk, Runs([], []), last);
      assert [] + last == last;
      CloseRun(tk, [], last, texts[0]);
    } else {
      var front := Segments(texts[..n], tokens[..n - 1], added, encode);
      SegmentsDecode(tk, texts[..n], tokens[..n - 1], added, encode);
      FillUpToPrefix(texts, tokens, n - 1);
      OneMoreSegment(tk, front, added[tokens[n - 1]], last, FillUpTo(texts, tokens, n - 1), tokens[n - 1], texts[n]);
    }
  }

  /** The text with the tokens up to the k-th. */
  function FillUpTo(texts: seq<string>, tokens: seq<string>, k: nat): string
    requires k < |texts| && k <= |tokens|
  {
    if k == 0 then texts[0] else FillUpTo(texts, tokens, k - 1) + tokens[k - 1] + texts[k]
  }

  lemma {:induction false} FillUpToPrefix(texts: seq<string>, tokens: seq<string>, k: nat)
    requires k + 1 < |texts| && k < |tokens|
    ensures FillUpTo(texts[..k + 1], tokens[..k], k) == FillUpTo(texts, tokens, k)
  {
    FillUpToAgree(texts[..k + 1], tokens[..k], texts, tokens, k);
  }

  lemma {:induction false} FillUpToAgree(a: seq<string>, s: seq<string>, b: seq<string>, t: seq<string>, k: nat)
    requires k < |a| <= |b| && k <= |s| <= |t| && a == b[..|a|] && s == t[..|s|]
    ensures FillUpTo(a, s, k) == FillUpTo(b, t, k)
  {
    if k > 0 {
      FillUpToAgree(a, s, b, t, k - 1);
    }
  }

  lemma CloseRun(tk: Tokenizer, pieces: seq<Piece>, run: seq<int>, text: string)
    requires tk.decode([]) == [] && tk.decode(run) == text
    ensures Concat(Close(tk, Runs(pieces, run))) == Concat(pieces) + text
  {
    if run != [] {
      ConcatOne(pieces, Piece(true, text));
    } else {
      assert Concat(pieces) + [] == Concat(pieces);
    }
  }

  lemma {:induction false} FillUpToShift(texts: seq<string>, tokens: seq<string>, k: nat)
    requires |texts| == |tokens| + 1 && 0 < k <= |tokens|
    ensures FillUpTo(texts, tokens, k) == texts[0] + tokens[0] + FillUpTo(texts[1..], tokens[1..], k - 1)
  {
    if k == 1 {
      assert FillUpTo(texts, tokens, 0) == texts[0];
    } else {
      FillUpToShift(texts, tokens, k - 1);
      var front, rest := texts[0] + tokens[0], FillUpTo(texts[1..], tokens[1..], k - 2);
      assert front + rest + tokens[k - 1] + texts[k] == front + (rest + tokens[k - 1] + texts[k]);
    }
  }

  lemma {:induction false} FillIsUpTo(p: Parts<string>)
    requires Shaped(p)
    ensures Fill(p) == FillUpTo(p.texts, p.holes, |p.holes|)
    decreases |p.holes|
  {
    if p.holes != [] {
      var rest := Parts(p.texts[1..], p.holes[1..]);
      FillIsUpTo(rest);
      FillUpToShift(p.texts, p.holes, |p.holes|);
      assert p.texts[0] + (p.holes[0] + Fill(rest)) == p.texts[0] + p.holes[0] + Fill(rest);
    }
  }

  /** A guarded prompt decodes back to the prompt. */
  lemma GuardedDecodes(tk: Tokenizer, p: Parts<string>, added: map<string, int>, encode: string -> seq<int>)
    requires Shaped(p) && forall i :: 0 <= i < |p.holes| ==> p.holes[i] in added
    requires Inverts(tk, encode) && SameVocabulary(tk, added)
    ensures Concat(Pieces(tk, Segments(p.texts, p.holes, added, encode))) == Fill(p)
  {
    SegmentsDecode(tk, p.texts, p.holes, added, encode);
    FillIsUpTo(p);
  }

  /** The ids stand for the prompt: their added ids are those of the given tokens, in order, and
      they decode to the prompt. */
  ghost predicate StandFor(tk: Tokenizer, ids: seq<int>, tokens: seq<string>, added: map<string, int>, prompt: string) {
    && (forall t :: t in tokens ==> t in added)
    && AddedIds(tk, ids) == IdsOf(tokens, added)
    && Concat(Pieces(tk, ids)) == prompt
  }

  /** A conversation from end to end: for a render of marked template text and plain request text,
      a prompt whose request text holds a control string becomes ids that stand for it with
      exactly the template's control tokens, and are then truncated if the request asks for it;
      any other prompt takes the stock path unchanged. */
  method EncodeRender(guard: Guard, added: map<string, int>, qs: seq<Parts<nat>>, tokenize: bool, options: Options,
                      left: bool, stock: (string, Options) -> seq<int>, encode: string -> seq<int>, ghost tk: Tokenizer)
    returns (r: Outcome)
    requires guard.Valid() && (forall w :: w in guard.words ==> w in added)
    requires AllKnown(qs, guard.tokens) && Free(guard.m, PlainAll(qs, guard.tokens))
    requires Inverts(tk, encode) && SameVocabulary(tk, added)
    ensures var prompt, q := PlainAll(qs, guard.tokens), JoinAll(qs);
            if forall t, i, k :: t in q.texts && 0 <= i <= k <= |t| ==> t[i..k] !in guard.words then
              r == if tokenize then Ids(stock(prompt, options)) else Text(prompt)
            else
              && Known(q, guard.tokens) && q.holes == MarksOf(qs)
              && exists ids :: StandFor(tk, ids, Named(q, guard.tokens).holes, added, prompt)
                               && r == Ids(if tokenize then Truncate(ids, options, left) else ids)
  {
    MarkedRenderRebuilds(guard.m, qs, guard.tokens);
    var prompt, marked := PlainAll(qs, guard.tokens), RenderAll(guard.m, qs);
    r := Encode(guard, added, prompt, marked, tokenize, options, left, stock, encode);
    ghost var p := Named(JoinAll(qs), guard.tokens);
    ControlIdsAreTemplate(tk, p.texts, p.holes, added, encode);
    GuardedDecodes(tk, p, added, encode);
    assert StandFor(tk, Segments(p.texts, p.holes, added, encode), p.holes, added, prompt);
  }

  /** The guard's own marker: U+E000, hex digits, "#", then the number and U+E001. */
  lemma GuardMarkerGood(hex: string)
    requires forall i :: 0 <= i < |hex| ==> HexDigit(hex[i])
    ensures Marker(['\U{E000}'] + hex + ['#'], '\U{E001}').Good()
  {
    var p := ['\U{E000}'] + hex + ['#'];
    forall i | 0 <= i < |p| - 1 ensures p[i] != '#' {
      assert i >= 1 ==> p[i] == hex[i - 1];
    }
  }
}

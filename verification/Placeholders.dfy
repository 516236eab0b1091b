/** Numbered placeholders in a text and how they are found again: the marker regexes of
    overlay/patch_output_token_split.py:141-142, 173-187 and
    overlay/patch_control_token_injection.py:97-98, 144-147. */
module Placeholders {
  import opened Wrappers

  // ---------------------------------------------------------------------------
  // Decimal numbers.

  predicate IsDigit(c: char) {
    '0' <= c <= '9'
  }

  predicate HexDigit(c: char) {
    IsDigit(c) || 'a' <= c <= 'f'
  }

  function Value(c: char): nat
    requires IsDigit(c)
  {
    c as int - '0' as int
  }

  function Digit(d: nat): (c: char)
    requires d < 10
    ensures IsDigit(c) && Value(c) == d
  {
    ('0' as int + d) as char
  }

  function Decimal(n: nat): (s: string)
    ensures s != [] && forall i :: 0 <= i < |s| ==> IsDigit(s[i])
  {
    if n < 10 then [Digit(n)] else Decimal(n / 10) + [Digit(n % 10)]
  }

  /** int() of a digit string. */
  function ParseInt(s: string): nat
    requires forall i :: 0 <= i < |s| ==> IsDigit(s[i])
  {
    if s == [] then 0 else ParseInt(s[..|s| - 1]) * 10 + Value(s[|s| - 1])
  }

  lemma {:induction false} ParseDecimal(n: nat)
    ensures ParseInt(Decimal(n)) == n
  {
    var s := Decimal(n);
    if n < 10 {
      assert s[..0] == [];
    } else {
      ParseDecimal(n / 10);
      assert s[..|s| - 1] == Decimal(n / 10);
    }
  }

  // ---------------------------------------------------------------------------
  // Markers.

  /** A marker is the prefix, a number, and the end character. */
  datatype Marker = Marker(prefix: string, end: char) {
    /** The prefix ends with a character that it has nowhere else: it has no proper border. */
    ghost predicate Good() {
      && prefix != []
      && (forall i :: 0 <= i < |prefix| - 1 ==> prefix[i] != prefix[|prefix| - 1])
      && !IsDigit(end)
    }
  }

  function Placeholder(m: Marker, n: nat): string {
    m.prefix + Decimal(n) + [m.end]
  }

  /** How many digits s starts with. */
  function DigitRun(s: string): (k: nat)
    ensures k <= |s| && forall i :: 0 <= i < k ==> IsDigit(s[i])
    ensures k < |s| ==> !IsDigit(s[k])
  {
    if s == [] || !IsDigit(s[0]) then 0 else 1 + DigitRun(s[1..])
  }

  datatype Found = Found(index: nat, length: nat)

  /** The number and the end character at the start of s. */
  function NumberAt(m: Marker, s: string): (f: Option<Found>)
    ensures f.Some? ==> 0 < f.value.length <= |s|
  {
    var k := DigitRun(s);
    if 0 < k < |s| && s[k] == m.end then Some(Found(ParseInt(s[..k]), k + 1)) else None
  }

  /** The marker regex at the start of s. */
  function MarkerAt(m: Marker, s: string): (f: Option<Found>)
    ensures f.Some? ==> 0 < f.value.length <= |s|
  {
    if !(m.prefix <= s) then None
    else
      match NumberAt(m, s[|m.prefix|..])
      case None => None
      case Some(f) => Some(Found(f.index, |m.prefix| + f.length))
  }

  /** What re.split leaves: the texts around the markers, one more than there are markers. */
  datatype Parts<T> = Parts(texts: seq<string>, holes: seq<T>)

  predicate Shaped<T>(p: Parts<T>) {
    |p.texts| == |p.holes| + 1
  }

  /** More text in front of the first text. */
  function Glue<T>(t: string, p: Parts<T>): (g: Parts<T>)
    requires Shaped(p)
    ensures Shaped(g)
  {
    Parts([t + p.texts[0]] + p.texts[1..], p.holes)
  }

  lemma GlueTwice<T>(a: string, b: string, p: Parts<T>)
    requires Shaped(p)
    ensures Glue(a, Glue(b, p)) == Glue(a + b, p)
  {
    assert a + (b + p.texts[0]) == a + b + p.texts[0];
  }

  lemma GlueNothing<T>(p: Parts<T>)
    requires Shaped(p)
    ensures Glue([], p) == p
  {
    assert [] + p.texts[0] == p.texts[0];
  }

  function SplitAll(m: Marker, s: string): (p: Parts<nat>)
    ensures Shaped(p)
    decreases |s|
  {
    if s == [] then Parts([[]], [])
    else
      match MarkerAt(m, s)
      case Some(f) =>
        var rest := SplitAll(m, s[f.length..]);
        Parts([[]] + rest.texts, [f.index] + rest.holes)
      case None =>
        Glue([s[0]], SplitAll(m, s[1..]))
  }

  /** The text with its markers. */
  function Render(m: Marker, p: Parts<nat>): string
    requires Shaped(p)
    decreases |p.holes|
  {
    if p.holes == [] then p.texts[0]
    else p.texts[0] + (Placeholder(m, p.holes[0]) + Render(m, Parts(p.texts[1..], p.holes[1..])))
  }

  /** The text with strings in place of the markers. */
  function Fill(p: Parts<string>): string
    requires Shaped(p)
    decreases |p.holes|
  {
    if p.holes == [] then p.texts[0] else p.texts[0] + (p.holes[0] + Fill(Parts(p.texts[1..], p.holes[1..])))
  }

  /** The prefix occurs nowhere in s. */
  predicate Free(m: Marker, s: string) {
    forall i :: 0 <= i <= |s| ==> !Occurs(m.prefix, s, i)
  }

  predicate Occurs(p: string, s: string, i: nat)
    requires i <= |s|
  {
    i + |p| <= |s| && s[i..i + |p|] == p
  }

  lemma FreeIff(m: Marker, s: string)
    ensures Free(m, s) <==> forall i, k :: 0 <= i <= k <= |s| ==> s[i..k] != m.prefix
  {
    forall i | 0 <= i <= |s| && Occurs(m.prefix, s, i) ensures exists k :: i <= k <= |s| && s[i..k] == m.prefix {
      assert s[i..i + |m.prefix|] == m.prefix;
    }
    if Free(m, s) {
      forall i, k | 0 <= i <= k <= |s| ensures s[i..k] != m.prefix {
        assert !Occurs(m.prefix, s, i);
      }
    }
  }

  lemma FreeTail(m: Marker, s: string)
    requires s != [] && Free(m, s)
    ensures Free(m, s[1..])
  {
    forall i | 0 <= i <= |s[1..]| ensures !Occurs(m.prefix, s[1..], i) {
      assert !Occurs(m.prefix, s, i + 1);
      assert i + |m.prefix| <= |s[1..]| ==> s[1..][i..i + |m.prefix|] == s[i + 1..i + 1 + |m.prefix|];
    }
  }

  lemma {:induction false} DigitRunIs(d: string, rest: string)
    requires (forall i :: 0 <= i < |d| ==> IsDigit(d[i])) && rest != [] && !IsDigit(rest[0])
    ensures DigitRun(d + rest) == |d|
  {
    if d == [] {
      assert d + rest == rest;
    } else {
      DigitRunIs(d[1..], rest);
      assert (d + rest)[1..] == d[1..] + rest;
    }
  }

  lemma AfterPrefix(m: Marker, r: string)
    ensures m.prefix <= m.prefix + r && (m.prefix + r)[|m.prefix|..] == r
  {
  }

  lemma NumberFound(m: Marker, d: string, tail: string)
    requires d != [] && (forall i :: 0 <= i < |d| ==> IsDigit(d[i]))
    requires tail != [] && tail[0] == m.end && !IsDigit(m.end)
    ensures NumberAt(m, d + tail) == Some(Found(ParseInt(d), |d| + 1))
  {
    DigitRunIs(d, tail);
    assert (d + tail)[..|d|] == d;
  }

  lemma PlaceholderFound(m: Marker, n: nat, rest: string)
    requires m.Good()
    ensures MarkerAt(m, Placeholder(m, n) + rest) == Some(Found(n, |Placeholder(m, n)|))
  {
    var tail, d := [m.end] + rest, Decimal(n);
    NumberFound(m, d, tail);
    ParseDecimal(n);
    AfterPrefix(m, d + tail);
    Regroup(m.prefix, d, [m.end], rest);
  }

  lemma Regroup(a: string, b: string, c: string, d: string)
    ensures a + b + c + d == a + (b + (c + d))
  {
  }

  /** A string whose last character is nowhere else in it does not overlap itself. */
  lemma NoOverlap(p: string, t: string, rest: string)
    requires p != [] && (forall i :: 0 <= i < |p| - 1 ==> p[i] != p[|p| - 1])
    requires 0 < |t| < |p| && p <= rest
    ensures !(p <= t + rest)
  {
    var last := |p| - 1;
    var i := last - |t|;
    assert rest[i] == p[i] && p[i] != p[last];
    assert (t + rest)[last] == rest[i];
  }

  /** No marker starts in text that is free of the prefix, even where a placeholder follows: the
      prefix would have to overlap itself. */
  lemma NoMarkerInText(m: Marker, t: string, rest: string)
    requires m.Good() && t != [] && Free(m, t) && (rest == [] || m.prefix <= rest)
    ensures MarkerAt(m, t + rest) == None
  {
    if |m.prefix| <= |t| {
      assert !Occurs(m.prefix, t, 0);
      assert t[0..|m.prefix|] == (t + rest)[..|m.prefix|];
    } else if rest != [] {
      NoOverlap(m.prefix, t, rest);
    }
  }

  lemma SplitText(m: Marker, c: char, s: string)
    requires MarkerAt(m, [c] + s) == None
    ensures SplitAll(m, [c] + s) == Glue([c], SplitAll(m, s))
  {
    assert ([c] + s)[1..] == s;
  }

  lemma SplitMarker(m: Marker, n: nat, s: string)
    requires m.Good()
    ensures var p := SplitAll(m, s); SplitAll(m, Placeholder(m, n) + s) == Parts([[]] + p.texts, [n] + p.holes)
  {
    PlaceholderFound(m, n, s);
    var h := Placeholder(m, n);
    assert (h + s)[|h|..] == s;
  }

  /** What follows the first text. */
  function AfterText(m: Marker, p: Parts<nat>): string
    requires Shaped(p)
  {
    if p.holes == [] then [] else Placeholder(m, p.holes[0]) + Render(m, Parts(p.texts[1..], p.holes[1..]))
  }

  lemma RenderIs(m: Marker, p: Parts<nat>)
    requires Shaped(p)
    ensures Render(m, p) == p.texts[0] + AfterText(m, p)
  {
  }

  lemma SplitOneMore(m: Marker, c: char, t: string, rest: string)
    requires MarkerAt(m, [c] + t + rest) == None && SplitAll(m, t + rest) == Glue(t, SplitAll(m, rest))
    ensures SplitAll(m, [c] + t + rest) == Glue([c] + t, SplitAll(m, rest))
  {
    assert [c] + t + rest == [c] + (t + rest);
    SplitText(m, c, t + rest);
    GlueTwice([c], t, SplitAll(m, rest));
  }

  /** One text split in front of what follows it, one character at a time. */
  lemma {:induction false} SplitAfterText(m: Marker, t: string, rest: string)
    requires m.Good() && Free(m, t) && (rest == [] || m.prefix <= rest)
    ensures SplitAll(m, t + rest) == Glue(t, SplitAll(m, rest))
  {
    if t == [] {
      assert t + rest == rest;
      GlueNothing(SplitAll(m, rest));
    } else {
      FreeTail(m, t);
      SplitAfterText(m, t[1..], rest);
      NoMarkerInText(m, t, rest);
      assert t == [t[0]] + t[1..];
      SplitOneMore(m, t[0], t[1..], rest);
    }
  }

  /** Splitting at the markers gives back the texts and the numbers, whatever the texts are, as
      long as the prefix is in none of them. */
  lemma {:induction false} SplitRender(m: Marker, p: Parts<nat>)
    requires m.Good() && Shaped(p) && forall i :: 0 <= i < |p.texts| ==> Free(m, p.texts[i])
    ensures SplitAll(m, Render(m, p)) == p
    decreases |p.holes|
  {
    RenderIs(m, p);
    SplitAfterText(m, p.texts[0], AfterText(m, p));
    if p.holes == [] {
      GlueOnEmpty(p.texts[0]);
      assert p.texts == [p.texts[0]];
    } else {
      var next := Parts(p.texts[1..], p.holes[1..]);
      SplitRender(m, next);
      SplitMarker(m, p.holes[0], Render(m, next));
      GlueOnMarker(p);
    }
  }

  lemma GlueOnEmpty(t: string)
    ensures Glue<nat>(t, Parts([[]], [])) == Parts([t], [])
  {
    assert t + [] == t;
  }

  lemma GlueOnMarker(p: Parts<nat>)
    requires Shaped(p) && p.holes != []
    ensures Glue(p.texts[0], Parts([[]] + p.texts[1..], [p.holes[0]] + p.holes[1..])) == p
  {
    assert p.texts[0] + [] == p.texts[0];
    assert ([[]] + p.texts[1..])[1..] == p.texts[1..];
  }

  // ---------------------------------------------------------------------------
  // Putting parts together.

  /** The parts of one text followed by another's. */
  function Join<T>(a: Parts<T>, b: Parts<T>): (j: Parts<T>)
    requires Shaped(a) && Shaped(b)
    ensures Shaped(j)
  {
    var last := |a.holes|;
    Parts(a.texts[..last] + [a.texts[last] + b.texts[0]] + b.texts[1..], a.holes + b.holes)
  }

  lemma JoinHead<T>(a: Parts<T>, b: Parts<T>)
    requires Shaped(a) && Shaped(b) && a.holes != []
    ensures Join(a, b).texts[0] == a.texts[0] && Join(a, b).holes[0] == a.holes[0]
    ensures Parts(Join(a, b).texts[1..], Join(a, b).holes[1..]) == Join(Parts(a.texts[1..], a.holes[1..]), b)
  {
    var rest := Join(Parts(a.texts[1..], a.holes[1..]), b);
    assert Join(a, b).texts[1..] == rest.texts;
  }

  lemma RenderAfter(m: Marker, p: Parts<nat>)
    requires Shaped(p) && p.holes != []
    ensures Render(m, p) == p.texts[0] + Placeholder(m, p.holes[0]) + Render(m, Parts(p.texts[1..], p.holes[1..]))
  {
    var a, b, c := p.texts[0], Placeholder(m, p.holes[0]), Render(m, Parts(p.texts[1..], p.holes[1..]));
    assert a + (b + c) == a + b + c;
  }

  lemma RenderGlue(m: Marker, t: string, p: Parts<nat>)
    requires Shaped(p)
    ensures Render(m, Glue(t, p)) == t + Render(m, p)
  {
    RenderIs(m, p);
    RenderIs(m, Glue(t, p));
    assert Glue(t, p).texts[1..] == p.texts[1..];
    assert t + (p.texts[0] + AfterText(m, p)) == t + p.texts[0] + AfterText(m, p);
  }

  lemma {:induction false} RenderJoin(m: Marker, a: Parts<nat>, b: Parts<nat>)
    requires Shaped(a) && Shaped(b)
    ensures Render(m, Join(a, b)) == Render(m, a) + Render(m, b)
    decreases |a.holes|
  {
    if a.holes == [] {
      assert Join(a, b) == Glue(a.texts[0], b);
      RenderGlue(m, a.texts[0], b);
    } else {
      var rest := Parts(a.texts[1..], a.holes[1..]);
      JoinHead(a, b);
      RenderJoin(m, rest, b);
      RenderAfter(m, a);
      RenderAfter(m, Join(a, b));
      var front := a.texts[0] + Placeholder(m, a.holes[0]);
      assert front + (Render(m, rest) + Render(m, b)) == front + Render(m, rest) + Render(m, b);
    }
  }

  lemma {:induction false} FillJoin(a: Parts<string>, b: Parts<string>)
    requires Shaped(a) && Shaped(b)
    ensures Fill(Join(a, b)) == Fill(a) + Fill(b)
    decreases |a.holes|
  {
    if a.holes == [] {
      FillGlue(a.texts[0], b);
      assert Join(a, b) == Glue(a.texts[0], b);
    } else {
      var rest := Parts(a.texts[1..], a.holes[1..]);
      JoinHead(a, b);
      FillJoin(rest, b);
      Regroup(a.texts[0], a.holes[0], Fill(rest), Fill(b));
      Regroup(a.texts[0], a.holes[0], Fill(rest), []);
    }
  }

  lemma FillGlue(t: string, p: Parts<string>)
    requires Shaped(p)
    ensures Fill(Glue(t, p)) == t + Fill(p)
  {
    assert Glue(t, p).texts[1..] == p.texts[1..];
    if p.holes != [] {
      var rest := p.holes[0] + Fill(Parts(p.texts[1..], p.holes[1..]));
      assert t + (p.texts[0] + rest) == t + p.texts[0] + rest;
    }
  }

  /** The strings that the numbers stand for. */
  function Named(p: Parts<nat>, originals: seq<string>): (w: Parts<string>)
    requires Shaped(p) && forall i :: 0 <= i < |p.holes| ==> p.holes[i] < |originals|
    ensures Shaped(w) && w.texts == p.texts
    ensures forall i :: 0 <= i < |p.holes| ==> w.holes[i] == originals[p.holes[i]]
  {
    Parts(p.texts, seq(|p.holes|, i requires 0 <= i < |p.holes| => originals[p.holes[i]]))
  }

  /** Every text around the holes is part of the whole. */
  lemma {:induction false} FreeTexts(m: Marker, p: Parts<string>, i: nat)
    requires Shaped(p) && Free(m, Fill(p)) && i < |p.texts|
    ensures Free(m, p.texts[i])
    decreases |p.holes|
  {
    var all := Fill(p);
    if i == 0 {
      assert [] + p.texts[0] + all[|p.texts[0]|..] == all;
      FreePart(m, [], p.texts[0], all[|p.texts[0]|..]);
    } else {
      var front, rest := p.texts[0] + p.holes[0], Parts(p.texts[1..], p.holes[1..]);
      assert front + Fill(rest) + [] == all;
      FreePart(m, front, Fill(rest), []);
      FreeTexts(m, rest, i - 1);
    }
  }

  lemma FreePart(m: Marker, a: string, b: string, c: string)
    requires Free(m, a + b + c)
    ensures Free(m, b)
  {
    forall i | 0 <= i <= |b| ensures !Occurs(m.prefix, b, i) {
      assert !Occurs(m.prefix, a + b + c, |a| + i);
      assert i + |m.prefix| <= |b| ==> (a + b + c)[|a| + i..|a| + i + |m.prefix|] == b[i..i + |m.prefix|];
    }
  }

  /** marker.sub with the originals, and the check that no placeholder is left
      (overlay/patch_output_token_split.py:108-114); None for an unknown number or a left-over. */
  function Restore(m: Marker, value: string, originals: seq<string>): Option<string> {
    var p := SplitAll(m, value);
    if exists i :: 0 <= i < |p.holes| && p.holes[i] >= |originals| then None
    else
      var restored := Fill(Named(p, originals));
      if Free(m, restored) then Some(restored) else None
  }

  /** A string made of prefix-free text and whole placeholders is restored, unless what comes out
      holds the prefix itself. */
  lemma RestoreRender(m: Marker, p: Parts<nat>, originals: seq<string>)
    requires m.Good() && Shaped(p) && forall i :: 0 <= i < |p.holes| ==> p.holes[i] < |originals|
    requires Free(m, Fill(Named(p, originals)))
    ensures Restore(m, Render(m, p), originals) == Some(Fill(Named(p, originals)))
  {
    forall i | 0 <= i < |p.texts| ensures Free(m, p.texts[i]) {
      FreeTexts(m, Named(p, originals), i);
    }
    SplitRender(m, p);
  }

  /** A string made of prefix-free text and whole placeholders is restored exactly when every number
      has an original and the prefix is nowhere in what comes out; the originals may bring it in. */
  lemma RestoreIff(m: Marker, p: Parts<nat>, originals: seq<string>)
    requires m.Good() && Shaped(p) && forall i :: 0 <= i < |p.texts| ==> Free(m, p.texts[i])
    ensures if exists i :: 0 <= i < |p.holes| && p.holes[i] >= |originals| then
              Restore(m, Render(m, p), originals) == None
            else
              var out := Fill(Named(p, originals));
              Restore(m, Render(m, p), originals) ==
              if forall i, k :: 0 <= i <= k <= |out| ==> out[i..k] != m.prefix then Some(out) else None
  {
    SplitRender(m, p);
    if forall i :: 0 <= i < |p.holes| ==> p.holes[i] < |originals| {
      FreeIff(m, Fill(Named(p, originals)));
    }
  }

  /** Whatever is restored, the prefix is not in it. */
  lemma RestoredIsFree(m: Marker, value: string, originals: seq<string>, i: nat, k: nat)
    ensures match Restore(m, value, originals)
            case Some(out) => i <= k <= |out| ==> out[i..k] != m.prefix
            case None => true
  {
    var r := Restore(m, value, originals);
    if r.Some? {
      FreeIff(m, r.value);
    }
  }
}

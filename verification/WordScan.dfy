/** Finding the added-token strings in a text: the pattern's search and substitution on one text
    (overlay/patch_output_token_split.py:146, 180; overlay/patch_control_token_injection.py:112, 156),
    and where what was taken out lies. */
module WordScan {
  import opened Wrappers
  import TriePattern
  import opened Placeholders

  // ---------------------------------------------------------------------------
  // scan.sub on one text.

  /** The length of the pattern's match at the start of s; 0 for none. */
  function WordAt(words: seq<string>, s: string): (n: nat)
    ensures n <= |s|
  {
    match TriePattern.MatchLength(words, s)
    case None => 0
    case Some(k) => k
  }

  lemma WordAtIs(words: seq<string>, s: string, w: string)
    requires words != [] && [] !in words
    ensures WordAt(words, s) == 0 ==> !(w in words && w <= s)
    ensures WordAt(words, s) > 0 ==>
              s[..WordAt(words, s)] in words && (w in words && w <= s ==> |w| <= WordAt(words, s))
  {
    TriePattern.LongestWord(words, s, w);
    assert s[..0] == [];
  }

  /** The scan from left to right: the words it takes out, and the texts between. */
  function ScanParts(words: seq<string>, s: string): (p: Parts<string>)
    ensures Shaped(p)
    decreases |s|
  {
    if s == [] then Parts([[]], [])
    else
      var n := WordAt(words, s);
      if n > 0 then
        var rest := ScanParts(words, s[n..]);
        Parts([[]] + rest.texts, [s[..n]] + rest.holes)
      else Glue([s[0]], ScanParts(words, s[1..]))
  }

  lemma AfterHole(w: string, p: Parts<string>)
    requires Shaped(p)
    ensures Parts([[]] + p.texts, [w] + p.holes) == Join(Parts([[], []], [w]), p)
    ensures Fill(Parts([[], []], [w])) == w
  {
    assert [] + p.texts[0] == p.texts[0];
    assert Parts([[], []][1..], [w][1..]) == Parts([[]], []);
    assert Join(Parts([[], []], [w]), p).texts == [[]] + p.texts;
    assert Fill(Parts([[], []], [w])) == [] + (w + []);
  }

  /** One step of the scan: over the word here, or over a character. */
  lemma ScanOne(words: seq<string>, s: string) returns (a: Parts<string>, n: nat)
    requires s != []
    ensures 0 < n <= |s| && Shaped(a) && Fill(a) == s[..n]
    ensures ScanParts(words, s) == Join(a, ScanParts(words, s[n..]))
    ensures if WordAt(words, s) > 0 then n == WordAt(words, s) && a == Parts([[], []], [s[..n]])
            else n == 1 && a == Parts([[s[0]]], [])
  {
    n := WordAt(words, s);
    if n > 0 {
      a := Parts([[], []], [s[..n]]);
      AfterHole(s[..n], ScanParts(words, s[n..]));
    } else {
      n, a := 1, Parts([[s[0]]], []);
    }
  }

  lemma {:induction false} ScanKeepsText(words: seq<string>, s: string)
    ensures Fill(ScanParts(words, s)) == s
    decreases |s|
  {
    if s != [] {
      var a, n := ScanOne(words, s);
      ScanKeepsText(words, s[n..]);
      FillJoin(a, ScanParts(words, s[n..]));
      assert s[..n] + s[n..] == s;
    }
  }

  // ---------------------------------------------------------------------------
  // Where the holes lie.

  /** Where hole k starts in the filled text. */
  function HoleStart(p: Parts<string>, k: nat): nat
    requires Shaped(p) && k < |p.holes|
    decreases k
  {
    |p.texts[0]| + if k == 0 then 0 else |p.holes[0]| + HoleStart(Parts(p.texts[1..], p.holes[1..]), k - 1)
  }

  lemma {:induction false} HoleInJoin(a: Parts<string>, b: Parts<string>, k: nat)
    requires Shaped(a) && Shaped(b) && k < |a.holes| + |b.holes|
    ensures HoleStart(Join(a, b), k) ==
            if k < |a.holes| then HoleStart(a, k) else |Fill(a)| + HoleStart(b, k - |a.holes|)
    decreases |a.holes|
  {
    if a.holes == [] {
      assert Join(a, b) == Glue(a.texts[0], b);
      assert Glue(a.texts[0], b).texts[1..] == b.texts[1..];
    } else {
      JoinHead(a, b);
      if k > 0 {
        HoleInJoin(Parts(a.texts[1..], a.holes[1..]), b, k - 1);
      }
    }
  }

  /** Holes lie inside the text. */
  lemma {:induction false} HoleFits(p: Parts<string>, k: nat)
    requires Shaped(p) && k < |p.holes|
    ensures HoleStart(p, k) + |p.holes[k]| <= |Fill(p)|
    decreases k
  {
    if k > 0 {
      HoleFits(Parts(p.texts[1..], p.holes[1..]), k - 1);
    }
  }

  /** A hole is where HoleStart says. */
  lemma {:induction false} HoleIsThere(p: Parts<string>, k: nat)
    requires Shaped(p) && k < |p.holes|
    ensures HoleStart(p, k) + |p.holes[k]| <= |Fill(p)|
    ensures Fill(p)[HoleStart(p, k)..HoleStart(p, k) + |p.holes[k]|] == p.holes[k]
    decreases k
  {
    var rest := Parts(p.texts[1..], p.holes[1..]);
    var front := p.texts[0] + p.holes[0];
    assert Fill(p) == front + Fill(rest);
    if k > 0 {
      HoleIsThere(rest, k - 1);
      var at, n := HoleStart(rest, k - 1), |p.holes[k]|;
      assert (front + Fill(rest))[|front| + at..|front| + at + n] == Fill(rest)[at..at + n];
    }
  }

  /** A hole of the second part, in the whole. */
  lemma LaterHole(a: Parts<string>, b: Parts<string>, j: nat, k: nat)
    requires Shaped(a) && Shaped(b) && j < |b.holes| && k == |a.holes| + j
    ensures |Join(a, b).holes| == |a.holes| + |b.holes| && Join(a, b).holes[k] == b.holes[j]
    ensures HoleStart(Join(a, b), k) == |Fill(a)| + HoleStart(b, j)
  {
    HoleInJoin(a, b, k);
  }

  lemma {:induction false} HolesInOrder(p: Parts<string>, g: nat, h: nat)
    requires Shaped(p) && g < h < |p.holes|
    ensures HoleStart(p, g) + |p.holes[g]| <= HoleStart(p, h)
    decreases g
  {
    if g > 0 {
      HolesInOrder(Parts(p.texts[1..], p.holes[1..]), g - 1, h - 1);
    }
  }

  /** Hole h is at the same place and takes the same string in both. */
  ghost predicate SameHole(p: Parts<string>, q: Parts<string>, h: nat)
    requires Shaped(p) && Shaped(q)
  {
    h < |p.holes| && h < |q.holes| && p.holes[h] == q.holes[h] && HoleStart(p, h) == HoleStart(q, h)
  }

  lemma {:induction false} HolesDecide(p: Parts<string>, q: Parts<string>)
    requires Shaped(p) && Shaped(q) && Fill(p) == Fill(q) && |p.holes| == |q.holes|
    requires forall h: nat :: h < |p.holes| ==> SameHole(p, q, h)
    ensures p == q
    decreases |p.holes|
  {
    if p.holes != [] {
      var restP, restQ := Parts(p.texts[1..], p.holes[1..]), Parts(q.texts[1..], q.holes[1..]);
      assert SameHole(p, q, 0);
      FillSplits(p);
      FillSplits(q);
      forall h: nat | h < |restP.holes| ensures SameHole(restP, restQ, h) {
        assert SameHole(p, q, h + 1);
      }
      HolesDecide(restP, restQ);
      assert p.texts == [p.texts[0]] + restP.texts && q.texts == [q.texts[0]] + restQ.texts;
      assert p.holes == [p.holes[0]] + restP.holes && q.holes == [q.holes[0]] + restQ.holes;
    }
  }

  lemma FillSplits(p: Parts<string>)
    requires Shaped(p) && p.holes != []
    ensures var n, m := |p.texts[0]|, |p.texts[0]| + |p.holes[0]|;
            m <= |Fill(p)| && Fill(p)[..n] == p.texts[0] && Fill(p)[m..] == Fill(Parts(p.texts[1..], p.holes[1..]))
  {
  }

  /** Place `at` of the filled text lies in a hole. */
  ghost predicate Covered(p: Parts<string>, at: nat)
    requires Shaped(p)
  {
    exists h :: 0 <= h < |p.holes| && HoleStart(p, h) <= at < HoleStart(p, h) + |p.holes[h]|
  }

  lemma CoveredInFirst(a: Parts<string>, b: Parts<string>, at: nat)
    requires Shaped(a) && Shaped(b) && Covered(a, at)
    ensures Covered(Join(a, b), at)
  {
    var h :| 0 <= h < |a.holes| && HoleStart(a, h) <= at < HoleStart(a, h) + |a.holes[h]|;
    HoleInJoin(a, b, h);
    assert Join(a, b).holes[h] == a.holes[h];
  }

  lemma CoveredInSecond(a: Parts<string>, b: Parts<string>, at: nat)
    requires Shaped(a) && Shaped(b) && Covered(b, at)
    ensures Covered(Join(a, b), |Fill(a)| + at)
  {
    var h :| 0 <= h < |b.holes| && HoleStart(b, h) <= at < HoleStart(b, h) + |b.holes[h]|;
    LaterHole(a, b, h, |a.holes| + h);
  }

  lemma CoveredByFirst(a: Parts<string>, b: Parts<string>, i: nat)
    requires Shaped(a) && Shaped(b) && |a.holes| == 1 && a.texts[0] == [] && i < |a.holes[0]|
    ensures Covered(Join(a, b), i)
  {
    assert HoleStart(a, 0) == 0;
    CoveredInFirst(a, b, i);
  }

  // ---------------------------------------------------------------------------
  // What the scan takes out.

  /** `w` is the longest word that the text has at `at`. */
  ghost predicate LongestAt(words: seq<string>, s: string, at: nat, w: string) {
    w in words && forall k :: at + |w| < k <= |s| ==> s[at..k] !in words
  }

  lemma LongestHere(words: seq<string>, s: string)
    requires words != [] && [] !in words && WordAt(words, s) > 0
    ensures LongestAt(words, s, 0, s[..WordAt(words, s)])
  {
    WordAtIs(words, s, []);
    forall k | WordAt(words, s) < k <= |s| ensures s[0..k] !in words {
      WordAtIs(words, s, s[0..k]);
    }
  }

  /** That step is over the longest word here, or over a character where no word starts. */
  lemma ScanStep(words: seq<string>, s: string) returns (a: Parts<string>, n: nat)
    requires words != [] && [] !in words && s != []
    ensures 0 < n <= |s| && Shaped(a) && Fill(a) == s[..n]
    ensures ScanParts(words, s) == Join(a, ScanParts(words, s[n..]))
    ensures (a.holes == [] && n == 1 && forall k :: 0 < k <= |s| ==> s[0..k] !in words)
            || (a.holes == [s[..n]] && a.texts[0] == [] && LongestAt(words, s, 0, s[..n]))
  {
    a, n := ScanOne(words, s);
    if WordAt(words, s) > 0 {
      LongestHere(words, s);
    } else {
      forall k | 0 < k <= |s| ensures s[0..k] !in words {
        WordAtIs(words, s, s[0..k]);
      }
    }
  }

  /** Characters i to k of the text are a word. */
  predicate WordIn(words: seq<string>, text: string, i: nat, k: nat) {
    i < k <= |text| && text[i..k] in words
  }

  lemma WordLater(words: seq<string>, s: string, n: nat, i: nat, k: nat)
    requires n <= i && WordIn(words, s, i, k)
    ensures WordIn(words, s[n..], i - n, k - n)
  {
    assert s[n..][i - n..k - n] == s[i..k];
  }

  lemma WordOfTwo(words: seq<string>, a: string, b: string, i: nat, k: nat)
    requires WordIn(words, a + b, i, k)
    ensures k <= |a| ==> WordIn(words, a, i, k)
    ensures i >= |a| ==> WordIn(words, b, i - |a|, k - |a|)
  {
    assert k <= |a| ==> (a + b)[i..k] == a[i..k];
    assert i >= |a| ==> (a + b)[i..k] == b[i - |a|..k - |a|];
  }

  /** The scan is complete: wherever a word starts, the character is part of what was taken out. */
  lemma {:induction false} ScanComplete(words: seq<string>, s: string, i: nat, k: nat)
    requires words != [] && [] !in words && WordIn(words, s, i, k)
    ensures Covered(ScanParts(words, s), i)
    decreases |s|
  {
    var a, n := ScanStep(words, s);
    if i < n {
      CoveredByFirst(a, ScanParts(words, s[n..]), i);
    } else {
      WordLater(words, s, n, i, k);
      ScanComplete(words, s[n..], i - n, k - n);
      CoveredInSecond(a, ScanParts(words, s[n..]), i - n);
    }
  }

  lemma LongestLater(words: seq<string>, s: string, cut: nat, at: nat, w: string)
    requires cut <= |s| && LongestAt(words, s[cut..], at, w)
    ensures LongestAt(words, s, cut + at, w)
  {
    var start := cut + at;
    forall k | start + |w| < k <= |s| ensures s[start..k] !in words {
      assert s[cut..][at..k - cut] == s[start..k];
    }
  }

  /** Hole h is the longest word at its place. */
  ghost predicate LongestHole(words: seq<string>, s: string, p: Parts<string>, h: nat)
    requires Shaped(p) && h < |p.holes|
  {
    LongestAt(words, s, HoleStart(p, h), p.holes[h])
  }

  lemma LongestInFirst(words: seq<string>, s: string, a: Parts<string>, b: Parts<string>)
    requires Shaped(a) && Shaped(b) && |a.holes| == 1 && a.texts[0] == [] && LongestAt(words, s, 0, a.holes[0])
    ensures LongestHole(words, s, Join(a, b), 0)
  {
  }

  lemma LongestInSecond(words: seq<string>, s: string, p: Parts<string>, h: nat, b: Parts<string>, j: nat, cut: nat)
    requires Shaped(p) && Shaped(b) && j < |b.holes| && h < |p.holes| && cut <= |s|
    requires p.holes[h] == b.holes[j] && HoleStart(p, h) == cut + HoleStart(b, j)
    requires LongestHole(words, s[cut..], b, j)
    ensures LongestHole(words, s, p, h)
  {
    LongestLater(words, s, cut, HoleStart(b, j), b.holes[j]);
  }

  /** Every string taken out is the longest word at its place. */
  lemma {:induction false} ScanTakesLongest(words: seq<string>, s: string, p: Parts<string>, h: nat)
    requires words != [] && [] !in words && p == ScanParts(words, s) && h < |p.holes|
    ensures LongestHole(words, s, p, h)
    decreases |s|
  {
    var a, n := ScanStep(words, s);
    var rest := ScanParts(words, s[n..]);
    if h < |a.holes| {
      LongestInFirst(words, s, a, rest);
    } else {
      var j := h - |a.holes|;
      ScanTakesLongest(words, s[n..], rest, j);
      LaterHole(a, rest, j, h);
      LongestInSecond(words, s, p, h, rest, j, n);
    }
  }

  // ---------------------------------------------------------------------------
  // The search.

  /** scan.search: the pattern matches somewhere in the text. */
  predicate AnyWord(words: seq<string>, text: string) {
    exists i :: 0 <= i <= |text| && TriePattern.MatchLength(words, text[i..]).Some?
  }

  /** The search finds something exactly when some stretch of the text is a word. */
  lemma AnyWordIff(words: seq<string>, text: string)
    requires words != []
    ensures AnyWord(words, text) <==> exists i, k :: 0 <= i <= k <= |text| && text[i..k] in words
  {
    if AnyWord(words, text) {
      var i :| 0 <= i <= |text| && TriePattern.MatchLength(words, text[i..]).Some?;
      TriePattern.LongestWord(words, text[i..], []);
      var n := TriePattern.MatchLength(words, text[i..]).value;
      assert text[i..][..n] == text[i..i + n];
    }
    forall i, k | 0 <= i <= k <= |text| && text[i..k] in words ensures AnyWord(words, text) {
      TriePattern.LongestWord(words, text[i..], text[i..k]);
    }
  }
}

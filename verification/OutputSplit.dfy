/** Masking the added-token strings that ordinary tokens spell in a completion
    (overlay/patch_output_token_split.py:132-188). */
module OutputSplit {
  import opened Arithmetic
  import opened Wrappers
  import opened Placeholders
  import opened RunDecode
  import opened WordScan

  // ---------------------------------------------------------------------------
  // Masking a completion.

  /** How much of a piece is visible with `room` characters left. */
  function Shown(piece: Piece, room: nat): (n: nat)
    ensures n <= |piece.text| && n <= room && (n == room || n == |piece.text|)
  {
    Min(|piece.text|, room)
  }

  /** The parts of the first `room` characters of the pieces: ordinary runs are scanned, added
      tokens are left alone. */
  function MaskParts(words: seq<string>, pieces: seq<Piece>, room: nat): (p: Parts<string>)
    ensures Shaped(p)
    decreases |pieces|
  {
    if pieces == [] || room == 0 then Parts([[]], [])
    else
      var shown := Shown(pieces[0], room);
      Join(PieceParts(words, pieces[0], shown), MaskParts(words, pieces[1..], room - shown))
  }

  /** The first `shown` characters of one piece. */
  function PieceParts(words: seq<string>, piece: Piece, shown: nat): (p: Parts<string>)
    requires shown <= |piece.text|
    ensures Shaped(p)
  {
    if piece.ordinary then ScanParts(words, piece.text[..shown]) else Parts([piece.text[..shown]], [])
  }

  /** Placeholders numbered from `base` on. */
  function Numbered(p: Parts<string>, base: nat): (q: Parts<nat>)
    requires Shaped(p)
    ensures Shaped(q)
  {
    Parts(p.texts, seq(|p.holes|, i requires 0 <= i < |p.holes| => base + i))
  }

  lemma NumberedJoin(a: Parts<string>, b: Parts<string>, base: nat)
    requires Shaped(a) && Shaped(b)
    ensures Numbered(Join(a, b), base) == Join(Numbered(a, base), Numbered(b, base + |a.holes|))
  {
  }

  lemma PieceKeepsText(words: seq<string>, piece: Piece, shown: nat)
    requires shown <= |piece.text|
    ensures Fill(PieceParts(words, piece, shown)) == piece.text[..shown]
    ensures PieceParts(words, piece, shown).holes != [] ==> piece.ordinary
  {
    ScanKeepsText(words, piece.text[..shown]);
  }

  lemma ConcatHead(pieces: seq<Piece>)
    requires pieces != []
    ensures Concat(pieces) == pieces[0].text + Concat(pieces[1..])
  {
    assert pieces == [pieces[0]] + pieces[1..];
    ConcatAll([pieces[0]], pieces[1..]);
    ConcatOne([], pieces[0]);
    assert [] + [pieces[0]] == [pieces[0]];
  }

  /** The masking's step over one piece. */
  lemma MaskStep(words: seq<string>, pieces: seq<Piece>, room: nat)
    returns (a: Parts<string>, b: Parts<string>, shown: nat)
    requires pieces != [] && 0 < room
    ensures shown == Min(|pieces[0].text|, room) && Shaped(a) && Shaped(b) && Fill(a) == pieces[0].text[..shown]
    ensures a == PieceParts(words, pieces[0], shown) && b == MaskParts(words, pieces[1..], room - shown)
    ensures MaskParts(words, pieces, room) == Join(a, b)
  {
    shown := Shown(pieces[0], room);
    a, b := PieceParts(words, pieces[0], shown), MaskParts(words, pieces[1..], room - shown);
    PieceKeepsText(words, pieces[0], shown);
  }

  lemma MaskFill(words: seq<string>, pieces: seq<Piece>, room: nat, shown: nat)
    requires pieces != [] && 0 < room && shown == Min(|pieces[0].text|, room)
    ensures Fill(MaskParts(words, pieces, room))
              == pieces[0].text[..shown] + Fill(MaskParts(words, pieces[1..], room - shown))
  {
    var a, b, n := MaskStep(words, pieces, room);
    FillJoin(a, b);
  }

  lemma TakePieces(pieces: seq<Piece>, room: nat, shown: nat)
    requires pieces != [] && room <= |Concat(pieces)| && shown == Min(|pieces[0].text|, room)
    ensures room - shown <= |Concat(pieces[1..])|
    ensures Concat(pieces)[..room] == pieces[0].text[..shown] + Concat(pieces[1..])[..room - shown]
  {
    ConcatHead(pieces);
  }

  lemma {:induction false} MaskKeepsText(words: seq<string>, pieces: seq<Piece>, room: nat)
    requires room <= |Concat(pieces)|
    ensures Fill(MaskParts(words, pieces, room)) == Concat(pieces)[..room]
    decreases |pieces|
  {
    if pieces != [] && room > 0 {
      var shown := Min(|pieces[0].text|, room);
      TakePieces(pieces, room, shown);
      MaskFill(words, pieces, room, shown);
      MaskKeepsText(words, pieces[1..], room - shown);
    }
  }

  // ---------------------------------------------------------------------------
  // Where the masked strings lie.

  /** A stretch of the text lies wholly within one run of ordinary tokens. */
  predicate InRun(pieces: seq<Piece>, start: nat, length: nat)
    decreases |pieces|
  {
    pieces != [] &&
    var head := |pieces[0].text|;
    (pieces[0].ordinary && start + length <= head) || (start >= head && InRun(pieces[1..], start - head, length))
  }

  lemma InLaterRun(pieces: seq<Piece>, start: nat, at: nat, length: nat)
    requires pieces != [] && InRun(pieces[1..], start, length) && at == |pieces[0].text| + start
    ensures InRun(pieces, at, length)
  {
  }

  /** Past the first piece, the whole of it was shown. */
  lemma FirstPiece(words: seq<string>, pieces: seq<Piece>, room: nat, p: Parts<string>, k: nat)
    returns (a: Parts<string>, b: Parts<string>, n: nat)
    requires p == MaskParts(words, pieces, room) && k < |p.holes|
    ensures pieces != [] && n <= room && Shaped(a) && Shaped(b) && p == Join(a, b)
    ensures a == PieceParts(words, pieces[0], Shown(pieces[0], room)) && b == MaskParts(words, pieces[1..], room - n)
    ensures k < |a.holes| ==> pieces[0].ordinary && |Fill(a)| <= |pieces[0].text|
    ensures k >= |a.holes| ==> k - |a.holes| < |b.holes| && n == |Fill(a)| == |pieces[0].text|
  {
    n := Shown(pieces[0], room);
    a, b := PieceParts(words, pieces[0], n), MaskParts(words, pieces[1..], room - n);
    PieceKeepsText(words, pieces[0], n);
  }

  /** Characters i to k of the pieces' text belong to one piece, a run of ordinary tokens. */
  ghost predicate WithinRun(pieces: seq<Piece>, i: nat, k: nat) {
    exists j :: 0 <= j < |pieces| && pieces[j].ordinary
                && |Concat(pieces[..j])| <= i && k <= |Concat(pieces[..j])| + |pieces[j].text|
  }

  lemma ConcatUpTo(pieces: seq<Piece>, j: nat)
    requires 0 < j <= |pieces|
    ensures Concat(pieces[..j]) == pieces[0].text + Concat(pieces[1..][..j - 1])
  {
    ConcatHead(pieces[..j]);
    assert pieces[..j][1..] == pieces[1..][..j - 1];
  }

  lemma {:induction false} RunAt(pieces: seq<Piece>, j: nat, i: nat, k: nat)
    requires j < |pieces| && pieces[j].ordinary
    requires |Concat(pieces[..j])| <= i <= k <= |Concat(pieces[..j])| + |pieces[j].text|
    ensures InRun(pieces, i, k - i)
    decreases j
  {
    if j == 0 {
      assert pieces[..0] == [];
    } else {
      var head := |pieces[0].text|;
      ConcatUpTo(pieces, j);
      RunAt(pieces[1..], j - 1, i - head, k - head);
      InLaterRun(pieces, i - head, i, k - i);
    }
  }

  lemma {:induction false} FindRun(pieces: seq<Piece>, i: nat, k: nat) returns (j: nat)
    requires i <= k && InRun(pieces, i, k - i)
    ensures j < |pieces| && pieces[j].ordinary
    ensures |Concat(pieces[..j])| <= i && k <= |Concat(pieces[..j])| + |pieces[j].text|
    decreases |pieces|
  {
    var head := |pieces[0].text|;
    if pieces[0].ordinary && k <= head {
      j := 0;
      assert pieces[..0] == [];
    } else {
      var before := FindRun(pieces[1..], i - head, k - head);
      j := before + 1;
      ConcatUpTo(pieces, j);
    }
  }

  /** The two ways of saying so agree. */
  lemma InRunIff(pieces: seq<Piece>, i: nat, k: nat)
    requires i <= k
    ensures InRun(pieces, i, k - i) <==> WithinRun(pieces, i, k)
  {
    if InRun(pieces, i, k - i) {
      var j := FindRun(pieces, i, k);
    } else if WithinRun(pieces, i, k) {
      var j :| 0 <= j < |pieces| && pieces[j].ordinary && |Concat(pieces[..j])| <= i
               && k <= |Concat(pieces[..j])| + |pieces[j].text|;
      RunAt(pieces, j, i, k);
    }
  }

  lemma PieceComplete(words: seq<string>, piece: Piece, shown: nat, i: nat, k: nat)
    requires words != [] && [] !in words && k <= shown <= |piece.text| && piece.ordinary
    requires WordIn(words, piece.text, i, k)
    ensures Covered(PieceParts(words, piece, shown), i)
  {
    assert piece.text[..shown][i..k] == piece.text[i..k];
    ScanComplete(words, piece.text[..shown], i, k);
  }

  lemma FirstOrLaterRun(words: seq<string>, pieces: seq<Piece>, i: nat, k: nat)
    requires pieces != [] && WordIn(words, Concat(pieces), i, k) && InRun(pieces, i, k - i)
    ensures var n := |pieces[0].text|;
            (pieces[0].ordinary && k <= n && WordIn(words, pieces[0].text, i, k))
            || (i >= n && WordIn(words, Concat(pieces[1..]), i - n, k - n) && InRun(pieces[1..], i - n, k - i))
  {
    ConcatHead(pieces);
    WordOfTwo(words, pieces[0].text, Concat(pieces[1..]), i, k);
  }

  lemma CoveredByPiece(words: seq<string>, piece: Piece, shown: nat, b: Parts<string>, i: nat, k: nat)
    requires words != [] && [] !in words && k <= shown <= |piece.text| && piece.ordinary && Shaped(b)
    requires WordIn(words, piece.text, i, k)
    ensures Covered(Join(PieceParts(words, piece, shown), b), i)
  {
    PieceComplete(words, piece, shown, i, k);
    CoveredInFirst(PieceParts(words, piece, shown), b, i);
  }

  /** Characters i to k of the first `room` are a word, within one run. */
  ghost predicate VisibleWord(words: seq<string>, pieces: seq<Piece>, room: nat, i: nat, k: nat) {
    k <= room && WordIn(words, Concat(pieces), i, k) && InRun(pieces, i, k - i)
  }

  lemma VisibleLater(words: seq<string>, pieces: seq<Piece>, room: nat, n: nat, i: nat, k: nat)
    requires pieces != [] && n == |pieces[0].text| <= room && i >= n && VisibleWord(words, pieces, room, i, k)
    ensures VisibleWord(words, pieces[1..], room - n, i - n, k - n)
  {
    FirstOrLaterRun(words, pieces, i, k);
  }

  /** The masking is complete: the first character of every word that lies within one run is part
      of a masked string. */
  lemma {:induction false} MaskComplete(words: seq<string>, pieces: seq<Piece>, room: nat, i: nat, k: nat)
    requires words != [] && [] !in words && room <= |Concat(pieces)| && VisibleWord(words, pieces, room, i, k)
    ensures Covered(MaskParts(words, pieces, room), i)
    decreases |pieces|
  {
    var a, b, shown := MaskStep(words, pieces, room);
    if i < |pieces[0].text| {
      FirstOrLaterRun(words, pieces, i, k);
      CoveredByPiece(words, pieces[0], shown, b, i, k);
    } else {
      ConcatHead(pieces);
      VisibleLater(words, pieces, room, shown, i, k);
      MaskComplete(words, pieces[1..], room - shown, i - shown, k - shown);
      CoveredInSecond(a, b, i - shown);
    }
  }

  /** A hole of the first piece is the longest word there. */
  lemma LongestInFirstRun(words: seq<string>, pieces: seq<Piece>, room: nat, a: Parts<string>, h: nat, k: nat)
    requires words != [] && [] !in words && pieces != [] && h < |a.holes|
    requires a == PieceParts(words, pieces[0], Shown(pieces[0], room))
    ensures a.holes[h] in words
    ensures VisibleWord(words, pieces, room, HoleStart(a, h), k) ==> k <= HoleStart(a, h) + |a.holes[h]|
  {
    var shown, at := Shown(pieces[0], room), HoleStart(a, h);
    var s := pieces[0].text[..shown];
    ScanTakesLongest(words, s, a, h);
    PieceKeepsText(words, pieces[0], shown);
    HoleFits(a, h);
    if VisibleWord(words, pieces, room, at, k) {
      FirstOrLaterRun(words, pieces, at, k);
      assert s[at..k] == pieces[0].text[at..k];
    }
  }

  /** Hole h of the masked pieces is `w`, at `at`. */
  ghost predicate HoleAt(words: seq<string>, pieces: seq<Piece>, room: nat, h: nat, at: nat, w: string) {
    var p := MaskParts(words, pieces, room);
    h < |p.holes| && p.holes[h] == w && HoleStart(p, h) == at
  }

  /** A hole is one of the first piece, or one of the rest. */
  lemma HoleOfPiece(words: seq<string>, pieces: seq<Piece>, room: nat, h: nat, at: nat, w: string, k: nat)
    returns (first: bool, j: nat, n: nat)
    requires HoleAt(words, pieces, room, h, at, w)
    ensures pieces != []
    ensures first ==> pieces[0].ordinary && at + |w| <= |pieces[0].text|
    ensures first && words != [] && [] !in words ==>
              w in words && (VisibleWord(words, pieces, room, at, k) ==> k <= at + |w|)
    ensures !first ==> n == |pieces[0].text| <= room && n <= at && HoleAt(words, pieces[1..], room - n, j, at - n, w)
  {
    var a, b;
    a, b, n := FirstPiece(words, pieces, room, MaskParts(words, pieces, room), h);
    first, j := h < |a.holes|, 0;
    if first {
      HoleInJoin(a, b, h);
      HoleFits(a, h);
      if words != [] && [] !in words {
        LongestInFirstRun(words, pieces, room, a, h, k);
      }
    } else {
      j := h - |a.holes|;
      LaterHole(a, b, j, h);
    }
  }

  /** Every masked string lies wholly within the text of one run of ordinary tokens ... */
  lemma {:induction false} MaskedInRun(words: seq<string>, pieces: seq<Piece>, room: nat, h: nat, at: nat, w: string)
    requires HoleAt(words, pieces, room, h, at, w)
    ensures InRun(pieces, at, |w|)
    decreases |pieces|
  {
    var first, j, n := HoleOfPiece(words, pieces, room, h, at, w, 0);
    if !first {
      MaskedInRun(words, pieces[1..], room - n, j, at - n, w);
      InLaterRun(pieces, at - n, at, |w|);
    }
  }

  /** ... is a word ... */
  lemma {:induction false} MaskTakesWords(words: seq<string>, pieces: seq<Piece>, room: nat, h: nat, at: nat, w: string)
    requires words != [] && [] !in words && HoleAt(words, pieces, room, h, at, w)
    ensures w in words
    decreases |pieces|
  {
    var first, j, n := HoleOfPiece(words, pieces, room, h, at, w, 0);
    if !first {
      MaskTakesWords(words, pieces[1..], room - n, j, at - n, w);
    }
  }

  /** ... and the longest one at its place within its run. */
  lemma {:induction false} MaskTakesLongest(words: seq<string>, pieces: seq<Piece>, room: nat, h: nat, at: nat,
                                            w: string, k: nat)
    requires words != [] && [] !in words && HoleAt(words, pieces, room, h, at, w)
    requires VisibleWord(words, pieces, room, at, k)
    ensures k <= at + |w|
    decreases |pieces|
  {
    var first, j, n := HoleOfPiece(words, pieces, room, h, at, w, k);
    if !first {
      VisibleLater(words, pieces, room, n, at, k);
      MaskTakesLongest(words, pieces[1..], room - n, j, at - n, w, k - n);
    }
  }

  /** Characters i to k of the text are a word that ordinary tokens of one run spell. */
  ghost predicate RunWord(words: seq<string>, pieces: seq<Piece>, text: string, i: nat, k: nat) {
    WordIn(words, text, i, k) && WithinRun(pieces, i, k)
  }

  /** Hole h is such a word, and the longest one that starts there. */
  ghost predicate MaskedWord(words: seq<string>, pieces: seq<Piece>, text: string, p: Parts<string>, h: nat)
    requires Shaped(p) && h < |p.holes|
  {
    var at, end := HoleStart(p, h), HoleStart(p, h) + |p.holes[h]|;
    && RunWord(words, pieces, text, at, end) && text[at..end] == p.holes[h]
    && forall k: nat :: RunWord(words, pieces, text, at, k) ==> k <= end
  }

  /** What a mask of the text is: longest words of the runs are taken out, and no word of a run
      starts anywhere else. */
  ghost predicate Masks(words: seq<string>, pieces: seq<Piece>, text: string, p: Parts<string>) {
    && Shaped(p) && Fill(p) == text
    && (forall h :: 0 <= h < |p.holes| ==> MaskedWord(words, pieces, text, p, h))
    && (forall i: nat, k: nat :: RunWord(words, pieces, text, i, k) ==> Covered(p, i))
  }

  lemma VisibleIff(words: seq<string>, pieces: seq<Piece>, text: string, i: nat, k: nat)
    requires text <= Concat(pieces)
    ensures RunWord(words, pieces, text, i, k) <==> VisibleWord(words, pieces, |text|, i, k)
  {
    assert i <= k <= |text| ==> text[i..k] == Concat(pieces)[i..k];
    if i <= k {
      InRunIff(pieces, i, k);
    }
  }

  lemma MaskIsWord(words: seq<string>, pieces: seq<Piece>, text: string, p: Parts<string>, h: nat, at: nat, w: string)
    requires words != [] && [] !in words && text <= Concat(pieces) && p == MaskParts(words, pieces, |text|)
    requires Fill(p) == text && h < |p.holes| && at == HoleStart(p, h) && w == p.holes[h]
    ensures MaskedWord(words, pieces, text, p, h)
  {
    HoleIsThere(p, h);
    MaskedInRun(words, pieces, |text|, h, at, w);
    InRunIff(pieces, at, at + |w|);
    MaskTakesWords(words, pieces, |text|, h, at, w);
    forall k: nat | RunWord(words, pieces, text, at, k) ensures k <= at + |w| {
      VisibleIff(words, pieces, text, at, k);
      MaskTakesLongest(words, pieces, |text|, h, at, w, k);
    }
  }

  /** MaskParts is a mask of the text. */
  lemma MaskPartsMask(words: seq<string>, pieces: seq<Piece>, text: string)
    requires words != [] && [] !in words && text <= Concat(pieces)
    ensures Masks(words, pieces, text, MaskParts(words, pieces, |text|))
  {
    var p := MaskParts(words, pieces, |text|);
    MaskKeepsText(words, pieces, |text|);
    assert Concat(pieces)[..|text|] == text;
    forall h | 0 <= h < |p.holes| ensures MaskedWord(words, pieces, text, p, h) {
      MaskIsWord(words, pieces, text, p, h, HoleStart(p, h), p.holes[h]);
    }
    forall i: nat, k: nat | RunWord(words, pieces, text, i, k) ensures Covered(p, i) {
      VisibleIff(words, pieces, text, i, k);
      MaskComplete(words, pieces, |text|, i, k);
    }
  }

  // ---------------------------------------------------------------------------
  // A text has one mask only.

  /** If the holes before agree, hole h of q comes no later than hole h of p. */
  lemma NotLater(words: seq<string>, pieces: seq<Piece>, text: string, p: Parts<string>, q: Parts<string>, h: nat)
    requires Masks(words, pieces, text, p) && Masks(words, pieces, text, q) && h < |p.holes|
    requires forall g: nat :: g < h ==> SameHole(p, q, g)
    ensures h < |q.holes| && HoleStart(q, h) <= HoleStart(p, h)
  {
    var at := HoleStart(p, h);
    assert MaskedWord(words, pieces, text, p, h);
    assert Covered(q, at);
    var g: nat :| g < |q.holes| && HoleStart(q, g) <= at < HoleStart(q, g) + |q.holes[g]|;
    if g < h {
      assert SameHole(p, q, g);
      HolesInOrder(p, g, h);
    } else if g > h {
      HolesInOrder(q, h, g);
    }
  }

  lemma {:induction false} SameHoles(words: seq<string>, pieces: seq<Piece>, text: string, p: Parts<string>,
                                     q: Parts<string>, h: nat)
    requires Masks(words, pieces, text, p) && Masks(words, pieces, text, q) && h < |p.holes|
    ensures SameHole(p, q, h)
  {
    forall g: nat | g < h ensures SameHole(p, q, g) && SameHole(q, p, g) {
      SameHoles(words, pieces, text, p, q, g);
    }
    NotLater(words, pieces, text, p, q, h);
    NotLater(words, pieces, text, q, p, h);
    assert MaskedWord(words, pieces, text, p, h) && MaskedWord(words, pieces, text, q, h);
  }

  /** A text has one mask: longest words of the runs, and every word that starts in a run reached,
      leave no choice. */
  lemma OneMask(words: seq<string>, pieces: seq<Piece>, text: string, p: Parts<string>, q: Parts<string>)
    requires Masks(words, pieces, text, p) && Masks(words, pieces, text, q)
    ensures p == q
  {
    forall h: nat | h < |p.holes| ensures SameHole(p, q, h) {
      SameHoles(words, pieces, text, p, q, h);
    }
    if |q.holes| > |p.holes| {
      SameHoles(words, pieces, text, q, p, |p.holes|);
    } else if |p.holes| > |q.holes| {
      SameHoles(words, pieces, text, p, q, |q.holes|);
    }
    HolesDecide(p, q);
  }

  // ---------------------------------------------------------------------------
  // The split.

  datatype Masked = Masked(text: string, originals: seq<string>)

  /** What splitting a completion comes to. */
  function SplitOf(tk: Tokenizer, words: seq<string>, m: Marker, text: string, ids: seq<int>): Option<Masked> {
    var pieces := Pieces(tk, ids);
    if words == [] || !AnyWord(words, text) || !Free(m, text) || !(text <= Concat(pieces)) then None
    else
      var p := MaskParts(words, pieces, |text|);
      if p.holes == [] then None else Some(Masked(Render(m, Numbered(p, 0)), p.holes))
  }

  /** The runs and their layout: run ids where a run stands, an added token's text elsewhere. */
  datatype Item = RunItem(index: nat) | AddedItem(text: string)

  function ItemPiece(tk: Tokenizer, runs: seq<seq<int>>, item: Item): Piece
    requires item.RunItem? ==> item.index < |runs|
  {
    match item
    case RunItem(i) => Piece(true, tk.decode(runs[i]))
    case AddedItem(text) => Piece(false, text)
  }

  ghost predicate LaidOut(tk: Tokenizer, runs: seq<seq<int>>, layout: seq<Item>, pieces: seq<Piece>) {
    && |layout| == |pieces|
    && forall k :: 0 <= k < |layout| ==>
         (layout[k].RunItem? ==> layout[k].index < |runs|) && pieces[k] == ItemPiece(tk, runs, layout[k])
  }

  /** The loop over the ids: runs, layout, and the decode of each item. */
  method Layout(tk: Tokenizer, ids: seq<int>) returns (pieces: seq<Piece>)
    ensures pieces == Pieces(tk, ids)
  {
    var runs: seq<seq<int>>, layout: seq<Item>, run: seq<int> := [], [], [];
    ghost var state := Runs([], []);
    for k := 0 to |ids|
      invariant state == FeedAll(tk, Runs([], []), ids[..k]) && state.run == run
      invariant LaidOut(tk, runs, layout, state.pieces)
    {
      assert ids[..k + 1][..k] == ids[..k];
      state := Feed(tk, state, ids[k]);
      if ids[k] !in tk.added {
        run := run + [ids[k]];
        continue;
      }
      if run != [] {
        layout := layout + [RunItem(|runs|)];
        runs := runs + [run];
        run := [];
      }
      layout := layout + [AddedItem(tk.added[ids[k]])];
    }
    assert ids[..|ids|] == ids;
    if run != [] {
      layout := layout + [RunItem(|runs|)];
      runs := runs + [run];
    }
    pieces := seq(|layout|, k requires 0 <= k < |layout| && (layout[k].RunItem? ==> layout[k].index < |runs|) =>
      ItemPiece(tk, runs, layout[k]));
  }

  /** What the loop over the pieces has done: the parts so far, rendered, and the rest to come. */
  ghost predicate MaskedTo(words: seq<string>, m: Marker, pieces: seq<Piece>, room: nat, k: nat, left: nat,
                           done: Parts<string>, out: string, originals: seq<string>)
    requires k <= |pieces|
  {
    && Shaped(done)
    && Join(done, MaskParts(words, pieces[k..], left)) == MaskParts(words, pieces, room)
    && originals == done.holes
    && out == Render(m, Numbered(done, 0))
  }

  lemma MaskedStart(words: seq<string>, m: Marker, pieces: seq<Piece>, room: nat)
    ensures MaskedTo(words, m, pieces, room, 0, room, Parts([[]], []), [], [])
  {
    assert pieces[0..] == pieces;
    JoinNothing(MaskParts(words, pieces, room));
    assert Numbered(Parts([[]], []), 0) == Parts([[]], []);
  }

  /** The rest of the pieces, one piece less. */
  lemma RestOfPieces(words: seq<string>, pieces: seq<Piece>, k: nat, left: nat, shown: nat, part: Parts<string>)
    requires k < |pieces| && left > 0 && shown == Shown(pieces[k], left) && part == PieceParts(words, pieces[k], shown)
    ensures MaskParts(words, pieces[k..], left) == Join(part, MaskParts(words, pieces[k + 1..], left - shown))
  {
    assert pieces[k..][1..] == pieces[k + 1..] && pieces[k..][0] == pieces[k];
    var a, b, n := MaskStep(words, pieces[k..], left);
  }

  lemma MaskedStep(words: seq<string>, m: Marker, pieces: seq<Piece>, room: nat, k: nat, left: nat,
                   done: Parts<string>, out: string, originals: seq<string>, shown: nat, part: Parts<string>)
    requires k < |pieces| && left > 0 && MaskedTo(words, m, pieces, room, k, left, done, out, originals)
    requires shown == Shown(pieces[k], left) && part == PieceParts(words, pieces[k], shown)
    ensures MaskedTo(words, m, pieces, room, k + 1, left - shown, Join(done, part),
                     out + Render(m, Numbered(part, |originals|)), originals + part.holes)
  {
    RestOfPieces(words, pieces, k, left, shown, part);
    JoinTwice(done, part, MaskParts(words, pieces[k + 1..], left - shown));
    RenderStep(m, done, part);
  }

  lemma MaskedEnd(words: seq<string>, m: Marker, pieces: seq<Piece>, room: nat, k: nat, left: nat,
                  done: Parts<string>, out: string, originals: seq<string>)
    requires k <= |pieces| && (left == 0 || k == |pieces|)
             && MaskedTo(words, m, pieces, room, k, left, done, out, originals)
    ensures originals == MaskParts(words, pieces, room).holes
    ensures out == Render(m, Numbered(MaskParts(words, pieces, room), 0))
  {
    JoinEnd(done);
  }

  /** One turn of the loop: the visible part of a piece, masked or copied. */
  method MaskPiece(words: seq<string>, m: Marker, pieces: seq<Piece>, ghost room: nat, k: nat, left: nat,
                   ghost done: Parts<string>, soFar: string, found: seq<string>)
    returns (out: string, originals: seq<string>, taken: nat, ghost next: Parts<string>, ghost rest: nat)
    requires k < |pieces| && left > 0 && MaskedTo(words, m, pieces, room, k, left, done, soFar, found)
    ensures taken <= left && rest == left - taken
    ensures MaskedTo(words, m, pieces, room, k + 1, rest, next, out, originals)
  {
    taken := Shown(pieces[k], left);
    var part := PieceParts(words, pieces[k], taken);
    MaskedStep(words, m, pieces, room, k, left, done, soFar, found, taken, part);
    out := soFar + Render(m, Numbered(part, |found|));
    originals := found + part.holes;
    next, rest := Join(done, part), left - taken;
  }

  /** The loop over the pieces. */
  method MaskPieces(words: seq<string>, m: Marker, pieces: seq<Piece>, text: string)
    returns (out: string, originals: seq<string>)
    ensures originals == MaskParts(words, pieces, |text|).holes
    ensures out == Render(m, Numbered(MaskParts(words, pieces, |text|), 0))
  {
    var position: nat, k: nat, taken: nat := 0, 0, 0;
    ghost var done: Parts<string> := Parts([[]], []);
    ghost var left: nat := |text|;
    out, originals := [], [];
    MaskedStart(words, m, pieces, left);
    while k < |pieces| && position < |text|
      invariant k <= |pieces| && left == |text| - position
      invariant MaskedTo(words, m, pieces, |text|, k, left, done, out, originals)
      decreases |pieces| - k
    {
      out, originals, taken, done, left :=
        MaskPiece(words, m, pieces, |text|, k, |text| - position, done, out, originals);
      position, k := position + taken, k + 1;
    }
    MaskedEnd(words, m, pieces, |text|, k, left, done, out, originals);
  }

  lemma RenderStep(m: Marker, done: Parts<string>, part: Parts<string>)
    requires Shaped(done) && Shaped(part)
    ensures Render(m, Numbered(Join(done, part), 0))
              == Render(m, Numbered(done, 0)) + Render(m, Numbered(part, |done.holes|))
  {
    NumberedJoin(done, part, 0);
    RenderJoin(m, Numbered(done, 0), Numbered(part, |done.holes|));
  }

  lemma JoinNothing(p: Parts<string>)
    requires Shaped(p)
    ensures Join(Parts([[]], []), p) == p
  {
    assert [] + p.texts[0] == p.texts[0];
  }

  lemma JoinEnd(p: Parts<string>)
    requires Shaped(p)
    ensures Join(p, Parts([[]], [])) == p
  {
    assert p.texts[|p.holes|] + [] == p.texts[|p.holes|];
  }

  lemma JoinTwice(a: Parts<string>, b: Parts<string>, c: Parts<string>)
    requires Shaped(a) && Shaped(b) && Shaped(c)
    ensures Join(Join(a, b), c) == Join(a, Join(b, c))
  {
    if b.holes == [] {
      assert a.texts[|a.holes|] + b.texts[0] + c.texts[0] == a.texts[|a.holes|] + (b.texts[0] + c.texts[0]);
    }
    assert Join(Join(a, b), c).texts == Join(a, Join(b, c)).texts;
  }

  /** When a completion is split: the marker's prefix is nowhere in it, it is what its ids decode
      to so far, and ordinary tokens of one run spell an added token somewhere in it. */
  ghost predicate Splits(tk: Tokenizer, words: seq<string>, m: Marker, text: string, ids: seq<int>) {
    && (forall i, k :: 0 <= i <= k <= |text| ==> text[i..k] != m.prefix)
    && text <= Concat(Pieces(tk, ids))
    && exists i, k :: RunWord(words, Pieces(tk, ids), text, i, k)
  }

  /** A mask with a hole stands for a word in a run, and the other way round. */
  lemma HoleIffWord(words: seq<string>, pieces: seq<Piece>, text: string, p: Parts<string>)
    requires Masks(words, pieces, text, p)
    ensures p.holes != [] <==> exists i, k :: RunWord(words, pieces, text, i, k)
  {
    if p.holes != [] {
      assert MaskedWord(words, pieces, text, p, 0);
    }
    forall i: nat, k: nat | RunWord(words, pieces, text, i, k) ensures p.holes != [] {
      assert Covered(p, i);
    }
  }

  /** A completion is split exactly when it should be, and then into its one mask, rendered. */
  lemma SplitIff(tk: Tokenizer, words: seq<string>, m: Marker, text: string, ids: seq<int>)
    requires [] !in words
    ensures SplitOf(tk, words, m, text, ids).Some? <==> Splits(tk, words, m, text, ids)
    ensures var r := SplitOf(tk, words, m, text, ids);
            r.Some? ==> exists p :: Masks(words, Pieces(tk, ids), text, p)
                                    && r.value == Masked(Render(m, Numbered(p, 0)), p.holes)
  {
    var pieces := Pieces(tk, ids);
    FreeIff(m, text);
    if words != [] && text <= Concat(pieces) {
      var p := MaskParts(words, pieces, |text|);
      MaskPartsMask(words, pieces, text);
      HoleIffWord(words, pieces, text, p);
      AnyWordIff(words, text);
    }
  }

  /** _OutputTokenSplit.split. */
  method Split(tk: Tokenizer, words: seq<string>, m: Marker, text: string, ids: seq<int>) returns (r: Option<Masked>)
    requires [] !in words
    ensures r == SplitOf(tk, words, m, text, ids)
    ensures r.Some? <==> Splits(tk, words, m, text, ids)
    ensures r.Some? ==> exists p :: Masks(words, Pieces(tk, ids), text, p)
                                    && r.value == Masked(Render(m, Numbered(p, 0)), p.holes)
  {
    SplitIff(tk, words, m, text, ids);
    if words == [] || !AnyWord(words, text) || !Free(m, text) {
      return None;
    }
    var pieces := Layout(tk, ids);
    if !(text <= Concat(pieces)) {
      return None;
    }
    var out, originals := MaskPieces(words, m, pieces, text);
    if originals == [] {
      return None;
    }
    r := Some(Masked(out, originals));
  }

  // ---------------------------------------------------------------------------
  // What a split is good for.

  /** The splitter's own marker: "DSV41OTS", hex digits, "n", then the number and "z". */
  lemma SplitterMarkerGood(hex: string)
    requires forall i :: 0 <= i < |hex| ==> HexDigit(hex[i])
    ensures Marker("DSV41OTS" + hex + "n", 'z').Good()
  {
    var p := "DSV41OTS" + hex + "n";
    forall i | 0 <= i < |p| - 1 ensures p[i] != 'n' {
      assert i >= 8 ==> p[i] == hex[i - 8];
    }
  }

  /** Restoring the masked text gives back the text, for every completion that is masked. */
  lemma RestoreMask(tk: Tokenizer, words: seq<string>, m: Marker, text: string, ids: seq<int>)
    requires m.Good() && SplitOf(tk, words, m, text, ids).Some?
    ensures var r := SplitOf(tk, words, m, text, ids).value;
            Restore(m, r.text, r.originals) == Some(text)
  {
    var pieces := Pieces(tk, ids);
    var p := MaskParts(words, pieces, |text|);
    MaskKeepsText(words, pieces, |text|);
    assert Concat(pieces)[..|text|] == text;
    assert Named(Numbered(p, 0), p.holes) == p;
    RestoreRender(m, Numbered(p, 0), p.holes);
  }
}

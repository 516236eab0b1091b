/** The run-wise decode of a completion: ordinary ids in maximal runs, added tokens one by one
    (overlay/patch_output_token_split.py:148-166, 272-288). */
module RunDecode {

  /** The texts of the added tokens by id, and the backend's decode of a run of ordinary ids. */
  datatype Tokenizer = Tokenizer(added: map<int, string>, decode: seq<int> -> string)

  /** A stretch of the completion's text: a run of ordinary tokens, or one added token. */
  datatype Piece = Piece(ordinary: bool, text: string)

  /** The pieces up to the last added token, and the ordinary ids since. */
  datatype Runs = Runs(pieces: seq<Piece>, run: seq<int>)

  function Close(tk: Tokenizer, r: Runs): seq<Piece> {
    if r.run == [] then r.pieces else r.pieces + [Piece(true, tk.decode(r.run))]
  }

  function Feed(tk: Tokenizer, r: Runs, id: int): Runs {
    if id in tk.added then Runs(Close(tk, r) + [Piece(false, tk.added[id])], []) else Runs(r.pieces, r.run + [id])
  }

  function FeedAll(tk: Tokenizer, r: Runs, ids: seq<int>): Runs {
    if ids == [] then r else Feed(tk, FeedAll(tk, r, ids[..|ids| - 1]), ids[|ids| - 1])
  }

  /** The pieces of a whole completion. */
  function Pieces(tk: Tokenizer, ids: seq<int>): seq<Piece> {
    Close(tk, FeedAll(tk, Runs([], []), ids))
  }

  function Concat(pieces: seq<Piece>): string {
    if pieces == [] then [] else Concat(pieces[..|pieces| - 1]) + pieces[|pieces| - 1].text
  }

  lemma ConcatOne(pieces: seq<Piece>, p: Piece)
    ensures Concat(pieces + [p]) == Concat(pieces) + p.text
  {
    assert (pieces + [p])[..|pieces|] == pieces;
  }

  lemma {:induction false} ConcatAll(a: seq<Piece>, b: seq<Piece>)
    ensures Concat(a + b) == Concat(a) + Concat(b)
  {
    if b == [] {
      assert a + b == a;
    } else {
      assert (a + b)[..|a + b| - 1] == a + b[..|b| - 1];
      ConcatAll(a, b[..|b| - 1]);
    }
  }

  lemma {:induction false} FeedMore(tk: Tokenizer, r: Runs, a: seq<int>, b: seq<int>)
    ensures FeedAll(tk, r, a + b) == FeedAll(tk, FeedAll(tk, r, a), b)
  {
    if b == [] {
      assert a + b == a;
    } else {
      assert (a + b)[..|a + b| - 1] == a + b[..|b| - 1];
      FeedMore(tk, r, a, b[..|b| - 1]);
    }
  }

  /** Feeding ordinary ids only lengthens the run. */
  lemma {:induction false} FeedOrdinary(tk: Tokenizer, r: Runs, ids: seq<int>)
    requires forall i :: 0 <= i < |ids| ==> ids[i] !in tk.added
    ensures FeedAll(tk, r, ids) == Runs(r.pieces, r.run + ids)
  {
    if ids == [] {
      assert r.run + ids == r.run;
    } else {
      FeedOrdinary(tk, r, ids[..|ids| - 1]);
      assert r.run + ids == r.run + ids[..|ids| - 1] + [ids[|ids| - 1]];
    }
  }

  lemma FeedSingle(tk: Tokenizer, r: Runs, id: int)
    ensures FeedAll(tk, r, [id]) == Feed(tk, r, id)
  {
    assert [id][..0] == [];
  }

  /** Earlier pieces stay as they are. */
  lemma {:induction false} FeedAfter(tk: Tokenizer, before: seq<Piece>, r: Runs, ids: seq<int>)
    ensures FeedAll(tk, Runs(before + r.pieces, r.run), ids)
            == Runs(before + FeedAll(tk, r, ids).pieces, FeedAll(tk, r, ids).run)
  {
    if ids != [] {
      FeedAfter(tk, before, r, ids[..|ids| - 1]);
      CloseAfter(tk, before, FeedAll(tk, r, ids[..|ids| - 1]), ids[|ids| - 1]);
    }
  }

  lemma CloseAfter(tk: Tokenizer, before: seq<Piece>, r: Runs, id: int)
    ensures Close(tk, Runs(before + r.pieces, r.run)) == before + Close(tk, r)
    ensures Feed(tk, Runs(before + r.pieces, r.run), id) == Runs(before + Feed(tk, r, id).pieces, Feed(tk, r, id).run)
  {
    if r.run != [] {
      var last := [Piece(true, tk.decode(r.run))];
      assert before + r.pieces + last == before + (r.pieces + last);
    }
    if id in tk.added {
      var added := [Piece(false, tk.added[id])];
      assert before + Close(tk, r) + added == before + (Close(tk, r) + added);
    }
  }

  /** Ordinary ids alone are one run ... */
  lemma PiecesOfRun(tk: Tokenizer, ids: seq<int>)
    requires forall i :: 0 <= i < |ids| ==> ids[i] !in tk.added
    ensures Pieces(tk, ids) == if ids == [] then [] else [Piece(true, tk.decode(ids))]
  {
    FeedOrdinary(tk, Runs([], []), ids);
    assert [] + ids == ids;
  }

  /** ... and an added token is a piece of its own, between the pieces of the ids before and after:
      the two laws leave no choice for any ids. */
  lemma PiecesAround(tk: Tokenizer, a: seq<int>, id: int, b: seq<int>)
    requires id in tk.added
    ensures Pieces(tk, a + [id] + b) == Pieces(tk, a) + [Piece(false, tk.added[id])] + Pieces(tk, b)
  {
    var front := Pieces(tk, a) + [Piece(false, tk.added[id])];
    FeedMore(tk, Runs([], []), a + [id], b);
    FeedMore(tk, Runs([], []), a, [id]);
    FeedSingle(tk, FeedAll(tk, Runs([], []), a), id);
    assert front + [] == front;
    FeedAfter(tk, front, Runs([], []), b);
    CloseAfter(tk, front, FeedAll(tk, Runs([], []), b), id);
  }
}

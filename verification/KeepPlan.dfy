/** The row plan and the window clamp of the truncated prefill (overlay/dsv41_yoco.py:139-210,
    299-314). */
module KeepPlan {
  import opened Arithmetic

  // ---------------------------------------------------------------------------
  // Which rows the decoder keeps.

  /** One scheduled request of a step: its rows, the position of its first row, and its prompt. */
  datatype Request = Request(rows: nat, start: nat, prefillLen: nat, prefilling: bool)

  predicate Truncated(q: Request, keep: nat) {
    q.prefilling && q.prefillLen > keep
  }

  /** The lowest position a row of this request may see (0 = no limit). */
  function Lower(q: Request, keep: nat): nat {
    if Truncated(q, keep) then q.prefillLen - keep else 0
  }

  /** The rule: row i is kept unless the request is cut and i lies before the kept positions;
      the last row always stays. */
  predicate Keeps(q: Request, keep: nat, i: nat) {
    q.start + i >= Lower(q, keep) || i + 1 == q.rows
  }

  /** The chunk ends before the kept positions begin. */
  predicate OnlyPlaceholder(q: Request, keep: nat) {
    q.start + q.rows <= Lower(q, keep)
  }

  datatype Plan = Plan(keepIdx: seq<nat>, compact: seq<nat>, lower: seq<nat>, placeholder: seq<bool>, needed: bool)

  /** Request r's part of a plan: a suffix of the request's rows. */
  ghost predicate PartIs(p: Plan, r: nat, first: nat, q: Request, keep: nat) {
    && r + 1 < |p.compact| && p.compact[r] < p.compact[r + 1] <= |p.keepIdx|
    && |p.keepIdx| == |p.lower| == |p.placeholder|
    && p.compact[r + 1] - p.compact[r] <= q.rows
    && (forall j :: p.compact[r] <= j < p.compact[r + 1] ==>
          && p.keepIdx[j] == first + q.rows - (p.compact[r + 1] - j)
          && p.lower[j] == Lower(q, keep)
          && p.placeholder[j] == OnlyPlaceholder(q, keep))
    && (forall i: nat :: i < q.rows ==> (Keeps(q, keep, i) <==> i >= q.rows - (p.compact[r + 1] - p.compact[r])))
  }

  ghost predicate WellScheduled(qsl: seq<nat>, reqs: seq<Request>) {
    && |qsl| == |reqs| + 1
    && forall r :: 0 <= r < |reqs| ==> reqs[r].rows > 0 && qsl[r + 1] == qsl[r] + reqs[r].rows
  }

  ghost predicate IsPlan(p: Plan, qsl: seq<nat>, reqs: seq<Request>, keep: nat, upTo: nat)
    requires |qsl| == |reqs| + 1 && upTo <= |reqs|
  {
    && |p.keepIdx| == |p.lower| == |p.placeholder|
    && |p.compact| == upTo + 1 && p.compact[0] == 0 && p.compact[upTo] == |p.keepIdx|
    && (forall r :: 0 <= r < upTo ==> PartIs(p, r, qsl[r], reqs[r], keep))
    && (p.needed <==> exists r :: 0 <= r < upTo && Truncated(reqs[r], keep))
  }

  /** One turn of the loop: append request r's suffix. */
  function Extend(p: Plan, q0: nat, first: nat, q: Request, lb: nat, ph: bool, cut: bool): Plan
    requires first <= q.rows && p.compact != []
  {
    var n := q.rows - first;
    Plan(
      p.keepIdx + seq(n, j requires 0 <= j < n => q0 + first + j),
      p.compact + [p.compact[|p.compact| - 1] + n],
      p.lower + seq(n, j => lb),
      p.placeholder + seq(n, j => ph),
      p.needed || cut)
  }

  lemma ExtendKeepsPart(p: Plan, q0: nat, first: nat, q: Request, lb: nat, ph: bool, cut: bool, r: nat, start: nat,
                        other: Request, keep: nat)
    requires first < q.rows && PartIs(p, r, start, other, keep) && p.compact != []
    ensures PartIs(Extend(p, q0, first, q, lb, ph, cut), r, start, other, keep)
  {
  }

  lemma ExtendAddsPart(p: Plan, q0: nat, first: nat, q: Request, lb: nat, ph: bool, cut: bool, keep: nat)
    requires first < q.rows && p.compact != []
             && p.compact[|p.compact| - 1] == |p.keepIdx| == |p.lower| == |p.placeholder|
    requires lb == Lower(q, keep) && ph == OnlyPlaceholder(q, keep)
    requires forall i: nat :: i < q.rows ==> (Keeps(q, keep, i) <==> i >= first)
    ensures PartIs(Extend(p, q0, first, q, lb, ph, cut), |p.compact| - 1, q0, q, keep)
  {
  }

  /** build_keep_plan. */
  method BuildKeepPlan(qsl: seq<nat>, reqs: seq<Request>, keep: nat) returns (p: Plan)
    requires WellScheduled(qsl, reqs)
    ensures IsPlan(p, qsl, reqs, keep, |reqs|)
  {
    p := Plan([], [0], [], [], false);
    for r := 0 to |reqs|
      invariant IsPlan(p, qsl, reqs, keep, r)
    {
      var q := reqs[r];
      var n := qsl[r + 1] - qsl[r];
      var lb, first, placeholder, cut := 0, 0, false, false;
      if q.prefilling && q.prefillLen > keep {
        cut := true;
        lb := q.prefillLen - keep;
        first := Min(Max(lb - q.start, 0), n);
        if first == n {
          first, placeholder := n - 1, true;
        }
      }
      ghost var before := p;
      ExtendAddsPart(p, qsl[r], first, q, lb, placeholder, cut, keep);
      p := Extend(p, qsl[r], first, q, lb, placeholder, cut);
      forall s | 0 <= s < r ensures PartIs(p, s, qsl[s], reqs[s], keep) {
        ExtendKeepsPart(before, qsl[r], first, q, lb, placeholder, cut, s, qsl[s], reqs[s], keep);
      }
    }
  }

  // ---------------------------------------------------------------------------
  // What a plan is good for.

  lemma {:induction false} Ordered(qsl: seq<nat>, reqs: seq<Request>, r: nat, s: nat)
    requires WellScheduled(qsl, reqs) && r <= s <= |reqs|
    ensures qsl[r] <= qsl[s]
  {
    if r < s {
      Ordered(qsl, reqs, r, s - 1);
    }
  }

  lemma {:induction false} CompactOrdered(p: Plan, qsl: seq<nat>, reqs: seq<Request>, keep: nat, r: nat, s: nat)
    requires WellScheduled(qsl, reqs) && IsPlan(p, qsl, reqs, keep, |reqs|) && r <= s <= |reqs|
    ensures p.compact[r] <= p.compact[s] <= |p.keepIdx|
    decreases s - r
  {
    assert s < |reqs| ==> PartIs(p, s, qsl[s], reqs[s], keep);
    if r < s {
      assert PartIs(p, r, qsl[r], reqs[r], keep);
      CompactOrdered(p, qsl, reqs, keep, r + 1, s);
    }
  }

  /** compact_qsl assigns every kept row to one request. */
  lemma {:induction false} PartOf(p: Plan, qsl: seq<nat>, reqs: seq<Request>, keep: nat, j: nat,
                                  from: nat) returns (r: nat)
    requires WellScheduled(qsl, reqs) && IsPlan(p, qsl, reqs, keep, |reqs|)
    requires from <= |reqs| && p.compact[from] <= j < |p.keepIdx|
    ensures from <= r < |reqs| && p.compact[r] <= j < p.compact[r + 1]
    decreases |reqs| - from
  {
    if j < p.compact[from + 1] {
      r := from;
    } else {
      r := PartOf(p, qsl, reqs, keep, j, from + 1);
    }
  }

  /** keep_idx is strictly increasing. */
  lemma Increasing(p: Plan, qsl: seq<nat>, reqs: seq<Request>, keep: nat, i: nat, j: nat)
    requires WellScheduled(qsl, reqs) && IsPlan(p, qsl, reqs, keep, |reqs|) && i < j < |p.keepIdx|
    ensures p.keepIdx[i] < p.keepIdx[j]
  {
    var r := PartOf(p, qsl, reqs, keep, i, 0);
    var s := PartOf(p, qsl, reqs, keep, j, r) by {
      assert p.compact[r] <= j;
    }
    assert PartIs(p, r, qsl[r], reqs[r], keep) && PartIs(p, s, qsl[s], reqs[s], keep);
    if r < s {
      Ordered(qsl, reqs, r + 1, s);
    }
  }

  /** A row of the batch is kept exactly when the rule keeps it. */
  lemma KeptIff(p: Plan, qsl: seq<nat>, reqs: seq<Request>, keep: nat, r: nat, i: nat)
    requires WellScheduled(qsl, reqs) && IsPlan(p, qsl, reqs, keep, |reqs|) && r < |reqs| && i < reqs[r].rows
    ensures qsl[r] + i in p.keepIdx <==> Keeps(reqs[r], keep, i)
  {
    var row, hi := qsl[r] + i, p.compact[r + 1];
    assert PartIs(p, r, qsl[r], reqs[r], keep);
    if Keeps(reqs[r], keep, i) {
      var j := hi - (reqs[r].rows - i);
      assert p.keepIdx[j] == row;
    }
    if row in p.keepIdx {
      var j :| 0 <= j < |p.keepIdx| && p.keepIdx[j] == row;
      var s := PartOf(p, qsl, reqs, keep, j, 0);
      assert PartIs(p, s, qsl[s], reqs[s], keep);
      assert qsl[s] <= row < qsl[s + 1];
      SameRequest(qsl, reqs, r, s, row);
    }
  }

  lemma SameRequest(qsl: seq<nat>, reqs: seq<Request>, r: nat, s: nat, row: nat)
    requires WellScheduled(qsl, reqs) && r < |reqs| && s < |reqs|
    requires qsl[r] <= row < qsl[r + 1] && qsl[s] <= row < qsl[s + 1]
    ensures r == s
  {
    if r < s {
      Ordered(qsl, reqs, r + 1, s);
    } else if s < r {
      Ordered(qsl, reqs, s + 1, r);
    }
  }

  /** Every request keeps a suffix of its rows that is never empty: its last row, from which the
      logits are read, is there. */
  lemma LastRowKept(p: Plan, qsl: seq<nat>, reqs: seq<Request>, keep: nat, r: nat)
    requires WellScheduled(qsl, reqs) && IsPlan(p, qsl, reqs, keep, |reqs|) && r < |reqs|
    ensures p.compact[r] < p.compact[r + 1] <= |p.keepIdx|
    ensures p.keepIdx[p.compact[r + 1] - 1] + 1 == qsl[r + 1]
  {
    assert PartIs(p, r, qsl[r], reqs[r], keep);
  }

  /** A kept row that is not a placeholder lies at or above the first kept position, and a
      placeholder lies below it; the lower bound of both is that position. */
  lemma PositionsOfPart(p: Plan, qsl: seq<nat>, reqs: seq<Request>, keep: nat, r: nat, j: nat)
    requires WellScheduled(qsl, reqs) && IsPlan(p, qsl, reqs, keep, |reqs|) && r < |reqs|
    requires r + 1 < |p.compact| && p.compact[r] <= j < p.compact[r + 1]
    ensures j < |p.keepIdx| == |p.lower| == |p.placeholder|
    ensures qsl[r] <= p.keepIdx[j] < qsl[r + 1]
    ensures var pos := reqs[r].start + p.keepIdx[j] - qsl[r];
            p.lower[j] == Lower(reqs[r], keep) && (p.placeholder[j] <==> pos < p.lower[j])
  {
    var q := reqs[r];
    assert PartIs(p, r, qsl[r], q, keep);
    assert Keeps(q, keep, p.keepIdx[j] - qsl[r]);
  }

  // ---------------------------------------------------------------------------
  // Gather at the boundary layer, scatter at the end.

  /** index_select. */
  function Gather<T>(x: seq<T>, k: seq<nat>): (g: seq<T>)
    requires forall j :: 0 <= j < |k| ==> k[j] < |x|
    ensures |g| == |k| && forall j :: 0 <= j < |k| ==> g[j] == x[k[j]]
  {
    seq(|k|, j requires 0 <= j < |k| => x[k[j]])
  }

  ghost predicate StrictlyIncreasing(k: seq<nat>) {
    forall i, j :: 0 <= i < j < |k| ==> k[i] < k[j]
  }

  /** StepPlan._scatter: a zeroed batch with the kept rows put back. After a gather by the same
      plan it restores every kept row and leaves zero everywhere else. */
  method Scatter<T>(rows: seq<T>, k: seq<nat>, numRows: nat, zero: T) returns (out: array<T>)
    requires |rows| == |k| && StrictlyIncreasing(k) && forall j :: 0 <= j < |k| ==> k[j] < numRows
    ensures fresh(out) && out.Length == numRows
    ensures forall j :: 0 <= j < |k| ==> out[k[j]] == rows[j]
    ensures forall i :: 0 <= i < numRows && i !in k ==> out[i] == zero
  {
    out := new T[numRows](_ => zero);
    for j := 0 to |k|
      invariant forall i :: 0 <= i < j ==> out[k[i]] == rows[i]
      invariant forall i :: 0 <= i < numRows && i !in k ==> out[i] == zero
    {
      out[k[j]] := rows[j];
    }
  }

  /** Gather and then scatter by the same plan: kept rows come back, the others are zero. */
  method GatherThenScatter<T>(x: seq<T>, k: seq<nat>, zero: T) returns (out: seq<T>)
    requires StrictlyIncreasing(k) && forall j :: 0 <= j < |k| ==> k[j] < |x|
    ensures |out| == |x| && forall i :: 0 <= i < |x| ==> out[i] == if i in k then x[i] else zero
  {
    var rows := Scatter(Gather(x, k), k, |x|, zero);
    out := rows[..];
    forall i | 0 <= i < |x| && i in k ensures out[i] == x[i] {
      var j :| 0 <= j < |k| && k[j] == i;
      assert rows[k[j]] == x[k[j]];
    }
  }

  // ---------------------------------------------------------------------------
  // The window clamp.

  /** One row of the window table: its entries and how many of them are live. */
  datatype Window = Window(entries: seq<int>, len: nat)

  /** What the index kernel writes for a row at `pos` that sees the positions from `from` on: the
      slots of from..pos, then -1. */
  ghost predicate Shows(w: Window, from: int, pos: int, slot: int -> int) {
    && w.len == Max(0, pos + 1 - from) && w.len <= |w.entries|
    && (forall j :: 0 <= j < w.len ==> w.entries[j] == slot(from + j))
    && (forall j :: w.len <= j < |w.entries| ==> w.entries[j] == -1)
  }

  /** How many entries the clamp drops. */
  function ShiftOf(len: nat, pos: int, lower: int): (shift: nat)
    ensures shift <= len
  {
    Min(Max(lower - (pos + 1 - len), 0), len)
  }

  /** Entry j of a clamped row: gathered from j + shift, or -1 past the new length. */
  function EntryAt(entries: seq<int>, len: nat, shift: nat, j: nat): (v: int)
    requires shift <= len <= |entries| && j < |entries|
    ensures v == if j < len - shift then entries[j + shift] else -1
  {
    if j < len - shift then entries[Min(j + shift, |entries| - 1)] else -1
  }

  /** The clamp of one row. */
  function Clamped(w: Window, pos: int, lower: int): (c: Window)
    requires w.len <= |w.entries|
    ensures |c.entries| == |w.entries| && c.len == w.len - ShiftOf(w.len, pos, lower)
    ensures forall j :: 0 <= j < |c.entries| ==>
              c.entries[j] == EntryAt(w.entries, w.len, ShiftOf(w.len, pos, lower), j)
  {
    var shift := ShiftOf(w.len, pos, lower);
    Window(seq(|w.entries|, j requires 0 <= j < |w.entries| => EntryAt(w.entries, w.len, shift, j)), w.len - shift)
  }

  /** The clamp leaves exactly the positions max(start, lower)..pos. */
  lemma ClampShows(w: Window, pos: int, lower: int, slot: int -> int)
    requires w.len <= |w.entries| && Shows(w, pos + 1 - w.len, pos, slot)
    ensures Shows(Clamped(w, pos, lower), Max(pos + 1 - w.len, lower), pos, slot)
  {
    var start := pos + 1 - w.len;
    var shift := ShiftOf(w.len, pos, lower);
    forall j | 0 <= j < w.len - shift
      ensures Clamped(w, pos, lower).entries[j] == slot(Max(start, lower) + j)
    {
      assert Max(start, lower) == start + shift;
      assert w.entries[j + shift] == slot(start + (j + shift));
    }
  }

  /** A row without a visible window, as a placeholder's is, stays without one. */
  lemma ClampEmpty(w: Window, pos: int, lower: int)
    requires w.len == 0
    ensures Clamped(w, pos, lower).len == 0
    ensures forall j :: 0 <= j < |w.entries| ==> Clamped(w, pos, lower).entries[j] == -1
  {
  }

  /** Clamping twice is clamping once. */
  lemma ClampIdempotent(w: Window, pos: int, lower: int)
    requires w.len <= |w.entries|
    ensures Clamped(Clamped(w, pos, lower), pos, lower) == Clamped(w, pos, lower)
  {
    var c := Clamped(w, pos, lower);
    var d := Clamped(c, pos, lower);
    assert d.len == c.len;
    assert forall j :: 0 <= j < |w.entries| ==> d.entries[j] == c.entries[j];
  }

  ghost function RowAt(indices: array2<int>, lens: array<nat>, i: nat): (w: Window)
    requires i < indices.Length0 == lens.Length
    reads indices, lens
    ensures |w.entries| == indices.Length1
  {
    Window(seq(indices.Length1, j requires 0 <= j < indices.Length1 reads indices => indices[i, j]), lens[i])
  }

  /** The gather, the where and the copy: every row moved left by its shift and cut to its new
      length. */
  method ShiftRows(indices: array2<int>, shift: seq<nat>, newLen: seq<nat>)
    requires indices.Length0 == |shift| == |newLen|
    requires forall i :: 0 <= i < |shift| ==> newLen[i] + shift[i] <= indices.Length1
    modifies indices
    ensures forall i, j :: 0 <= i < indices.Length0 && 0 <= j < indices.Length1 ==>
              indices[i, j] == if j < newLen[i] then old(indices[i, j + shift[i]]) else -1
  {
    var width := indices.Length1;
    forall i, j | 0 <= i < indices.Length0 && 0 <= j < width {
      indices[i, j] := if j < newLen[i] then indices[i, Min(j + shift[i], width - 1)] else -1;
    }
  }

  ghost predicate ShiftedTo(was: Window, now: Window, shift: nat) {
    && shift <= was.len <= |was.entries| == |now.entries| && now.len == was.len - shift
    && forall j :: 0 <= j < |now.entries| ==> now.entries[j] == EntryAt(was.entries, was.len, shift, j)
  }

  lemma ShiftedIsClamped(was: Window, now: Window, pos: int, lower: int)
    requires ShiftedTo(was, now, ShiftOf(was.len, pos, lower))
    ensures now == Clamped(was, pos, lower)
  {
    assert now.entries == Clamped(was, pos, lower).entries;
  }

  /** clamp_swa_rows, in place. */
  method ClampSwaRows(indices: array2<int>, lens: array<nat>, pos: seq<int>, lower: seq<int>)
    requires indices.Length0 == lens.Length == |pos| == |lower|
    requires forall i :: 0 <= i < lens.Length ==> lens[i] <= indices.Length1
    modifies indices, lens
    ensures forall i :: 0 <= i < lens.Length ==>
              RowAt(indices, lens, i) == Clamped(old(RowAt(indices, lens, i)), pos[i], lower[i])
  {
    var rows := indices.Length0;
    if rows == 0 {
      return;
    }
    var lens64 := lens[..];
    var shift := seq(rows, i requires 0 <= i < rows => ShiftOf(lens64[i], pos[i], lower[i]));
    var newLen := seq(rows, i requires 0 <= i < rows => lens64[i] - shift[i]);
    ShiftRows(indices, shift, newLen);
    forall i | 0 <= i < rows {
      lens[i] := newLen[i];
    }
    forall i | 0 <= i < rows
      ensures RowAt(indices, lens, i) == Clamped(old(RowAt(indices, lens, i)), pos[i], lower[i])
    {
      ghost var was, now := old(RowAt(indices, lens, i)), RowAt(indices, lens, i);
      assert ShiftedTo(was, now, shift[i]);
      ShiftedIsClamped(was, now, pos[i], lower[i]);
    }
  }
}

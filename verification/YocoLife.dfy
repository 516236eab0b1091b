/** The life of one request under the truncated prefill: a prefix hit, the rest of the prompt in
    chunks, then decode (overlay/dsv41_yoco.py:84-105, 153-184, 439-480). */
module YocoLife {
  import opened Arithmetic
  import opened KeepPlan

  // ---------------------------------------------------------------------------
  // Prefix-cache arithmetic.

  function MaxHit(tokens: nat, keep: nat): nat {
    Max(0, tokens - Max(keep, 1))
  }

  /** A hit is within the cap exactly when it leaves the last `keep` tokens, and at least one. */
  lemma MaxHitIff(tokens: nat, keep: nat, h: nat)
    ensures h <= MaxHit(tokens, keep) <==> h == 0 || (h + keep <= tokens && h < tokens)
  {
  }

  function CappedHit(tokens: nat, keep: nat, align: nat, peek: nat, cached: nat): (h: nat)
    requires align > 0
  {
    var limit := Min(cached, MaxHit(tokens, keep)) - peek;
    Max(0, limit / align * align)
  }

  lemma QuotientIsLargest(x: int, align: nat, m: int)
    requires align > 0
    ensures x / align * align <= x < x / align * align + align
    ensures m * align <= x ==> m * align <= x / align * align
  {
    var q := x / align;
    assert x == q * align + x % align;
    MulMonotone(q + 1, m, align);
    MulMonotone(m, q, align);
    assert (q + 1) * align == q * align + align;
  }

  /** capped_hit is the largest multiple of align that, with the peek past it, is cached and
      lies within the cap. */
  lemma CappedHitIsLargest(tokens: nat, keep: nat, align: nat, peek: nat, cached: nat, m: nat)
    requires align > 0
    ensures var h := CappedHit(tokens, keep, align, peek, cached);
            && (h > 0 ==> h + peek <= cached && h + peek <= MaxHit(tokens, keep))
            && h <= MaxHit(tokens, keep)
            && h % align == 0
            && (m * align + peek <= cached && m * align + peek <= MaxHit(tokens, keep) ==> m * align <= h)
  {
    AlignDown(Min(cached, MaxHit(tokens, keep)) - peek, align, m);
  }

  /** Rounding down to a multiple, and up to zero. */
  lemma AlignDown(limit: int, align: nat, m: nat)
    requires align > 0
    ensures var h := Max(0, limit / align * align);
            && (h > 0 ==> h <= limit)
            && (limit >= 0 ==> h <= limit < h + align)
            && h % align == 0
            && (m * align <= limit ==> m * align <= h)
  {
    QuotientIsLargest(limit, align, m);
    var q := limit / align;
    if limit >= 0 {
      MulMonotone(q + 1, 0, align);
      DivModUnique(q * align, align, q, 0);
    } else {
      MulMonotone(0, q, align);
    }
  }

  function ReachableBoundary(tokens: nat, keep: nat, blockSize: nat, eagle: bool): int {
    tokens - keep - if eagle then blockSize else 0
  }

  /** A retry of the same prompt, with the boundary still cached, recomputes at most
      KEEP + peek + alignment - 1 tokens. */
  lemma RetryRecomputes(tokens: nat, keep: nat, align: nat, blockSize: nat, eagle: bool, cached: nat)
    requires align > 0 && keep > 0 && cached >= tokens - keep
    ensures var peek := if eagle then blockSize else 0;
            tokens - CappedHit(tokens, keep, align, peek, cached) <= keep + peek + align - 1
  {
    var peek := if eagle then blockSize else 0;
    AlignDown(Min(cached, MaxHit(tokens, keep)) - peek, align, 0);
  }

  /** The boundary that sparse retention adds is where such a retry hits, once aligned. */
  lemma RetryHitsBoundary(tokens: nat, keep: nat, align: nat, blockSize: nat, eagle: bool, cached: nat)
    requires align > 0 && keep > 0 && cached >= tokens - keep
    ensures var peek, b := if eagle then blockSize else 0, ReachableBoundary(tokens, keep, blockSize, eagle);
            b >= 0 ==> CappedHit(tokens, keep, align, peek, cached) == b / align * align
  {
    var b := ReachableBoundary(tokens, keep, blockSize, eagle);
    if b >= 0 {
      QuotientIsLargest(b, align, 0);
      MulMonotone(b / align + 1, 0, align);
    }
  }

  // ---------------------------------------------------------------------------
  // The life of a request.

  /** The sliding window, the number of speculative tokens and KEEP. */
  datatype Config = Config(window: nat, spec: nat, keep: nat)

  /** The constructor's check (overlay/dsv41_yoco.py:369-376): min_keep_tokens(window, spec). */
  predicate Accepted(c: Config) {
    c.keep >= c.window + c.spec + 1
  }

  /** A prefill chunk, or a decode step; a decode step may go back over rejected draft tokens. */
  datatype Step = Chunk(rows: nat) | Decode(start: nat, rows: nat)

  /** How many positions are computed, and the positions whose decoder sliding-window KV this
      request has written, in the order of the writes. */
  datatype Life = Life(computed: nat, stored: seq<nat>)

  predicate Possible(c: Config, n: nat, l: Life, s: Step) {
    match s
    case Chunk(rows) => rows > 0 && l.computed + rows <= n
    case Decode(start, rows) => rows > 0 && l.computed >= n && start <= l.computed && start + c.spec + 1 >= n
  }

  /** The step as the row plan sees it. */
  function AsRequest(n: nat, l: Life, s: Step): Request {
    match s
    case Chunk(rows) => Request(rows, l.computed, n, true)
    case Decode(start, rows) => Request(rows, start, n, false)
  }

  /** The rows the decoder computes and stores: the kept ones that are no placeholders. */
  predicate Stores(q: Request, keep: nat, i: nat) {
    i < q.rows && Keeps(q, keep, i) && !OnlyPlaceholder(q, keep)
  }

  function StoredRows(q: Request, keep: nat, upTo: nat): seq<nat> {
    if upTo == 0 then []
    else StoredRows(q, keep, upTo - 1) + if Stores(q, keep, upTo - 1) then [q.start + upTo - 1] else []
  }

  function Next(c: Config, n: nat, l: Life, s: Step): Life {
    var q := AsRequest(n, l, s);
    Life(Max(l.computed, q.start + q.rows), l.stored + StoredRows(q, c.keep, q.rows))
  }

  /** The lowest position a row at `pos` reads: the window's start, clamped to the lower bound. */
  function ReadsFrom(c: Config, pos: nat, lower: nat): nat {
    Max(Max(pos + 1 - c.window, 0), lower)
  }

  /** All the rows of a step are written before any of them is read. */
  ghost predicate Safe(c: Config, n: nat, l: Life, s: Step) {
    var q := AsRequest(n, l, s);
    forall i, p: nat :: Stores(q, c.keep, i) && ReadsFrom(c, q.start + i, Lower(q, c.keep)) <= p <= q.start + i ==>
      p in Next(c, n, l, s).stored
  }

  predicate IsRun(c: Config, n: nat, hit: nat, steps: seq<Step>) {
    if steps == [] then hit <= MaxHit(n, c.keep)
    else
      var before := steps[..|steps| - 1];
      IsRun(c, n, hit, before) && Possible(c, n, After(c, n, hit, before), steps[|steps| - 1])
  }

  function After(c: Config, n: nat, hit: nat, steps: seq<Step>): Life {
    if steps == [] then Life(hit, [])
    else Next(c, n, After(c, n, hit, steps[..|steps| - 1]), steps[|steps| - 1])
  }

  /** The first position whose decoder KV is kept. */
  function First(n: nat, keep: nat): nat {
    if n > keep then n - keep else 0
  }

  function Range(a: nat, b: nat): (r: seq<nat>)
    requires a <= b
    ensures |r| == b - a && forall i :: 0 <= i < |r| ==> r[i] == a + i
  {
    seq(b - a, i requires 0 <= i < b - a => a + i)
  }

  /** What a step stores, without the plan: the rows at or above the first kept position. */
  lemma {:induction false} StoredRowsAre(q: Request, keep: nat, upTo: nat)
    requires upTo <= q.rows
    ensures var from := Max(q.start, Min(Lower(q, keep), q.start + upTo));
            StoredRows(q, keep, upTo) == Range(from, q.start + upTo)
  {
    if upTo > 0 {
      StoredRowsAre(q, keep, upTo - 1);
    }
  }

  // ---------------------------------------------------------------------------
  // Safety of every run.

  lemma StepStores(c: Config, n: nat, l: Life, s: Step)
    ensures var q := AsRequest(n, l, s);
            var from := Max(q.start, Min(Lower(q, c.keep), q.start + q.rows));
            Next(c, n, l, s).stored == l.stored + Range(from, q.start + q.rows)
  {
    var q := AsRequest(n, l, s);
    StoredRowsAre(q, c.keep, q.rows);
  }

  /** What holds of a request between steps: every position from the first kept one on is
      written, and none below it. */
  ghost predicate Inv(c: Config, n: nat, l: Life) {
    && (forall p: nat :: First(n, c.keep) <= p < l.computed ==> p in l.stored)
    && (forall p: nat :: p in l.stored ==> First(n, c.keep) <= p)
  }

  lemma InRange(a: nat, b: nat)
    requires a <= b
    ensures forall p: nat :: p in Range(a, b) <==> a <= p < b
  {
    forall p: nat ensures p in Range(a, b) <==> a <= p < b {
      if a <= p < b {
        assert Range(a, b)[p - a] == p;
      }
    }
  }

  /** A decode step starts at or above the first kept position. */
  lemma DecodeStart(c: Config, n: nat, l: Life, s: Step)
    requires c.keep >= c.window + c.spec && c.window > 0 && Possible(c, n, l, s)
    ensures s.Decode? ==> s.start >= First(n, c.keep)
    ensures s.Decode? ==> ReadsFrom(c, s.start, 0) >= First(n, c.keep)
  {
  }

  lemma StepKeepsInv(c: Config, n: nat, l: Life, s: Step)
    requires c.keep >= c.window + c.spec && c.window > 0
    requires Inv(c, n, l) && Possible(c, n, l, s)
    ensures Inv(c, n, Next(c, n, l, s))
  {
    var q := AsRequest(n, l, s);
    var from := Max(q.start, Min(Lower(q, c.keep), q.start + q.rows));
    StepStores(c, n, l, s);
    DecodeStart(c, n, l, s);
    InRange(from, q.start + q.rows);
  }

  lemma StepSafe(c: Config, n: nat, l: Life, s: Step)
    requires c.keep >= c.window + c.spec && c.window > 0
    requires Inv(c, n, l) && Possible(c, n, l, s)
    ensures Safe(c, n, l, s)
  {
    var q, next := AsRequest(n, l, s), Next(c, n, l, s);
    StepKeepsInv(c, n, l, s);
    DecodeStart(c, n, l, s);
    forall i, p: nat | Stores(q, c.keep, i) && ReadsFrom(c, q.start + i, Lower(q, c.keep)) <= p <= q.start + i
      ensures p in next.stored
    {
      assert First(n, c.keep) <= p < next.computed;
    }
  }

  lemma {:induction false} RunKeepsInv(c: Config, n: nat, hit: nat, steps: seq<Step>)
    requires c.keep >= c.window + c.spec && c.window > 0 && IsRun(c, n, hit, steps)
    ensures Inv(c, n, After(c, n, hit, steps))
  {
    if steps != [] {
      var before := steps[..|steps| - 1];
      RunKeepsInv(c, n, hit, before);
      StepKeepsInv(c, n, After(c, n, hit, before), steps[|steps| - 1]);
    }
  }

  /** Whatever the hit within the cap, the chunking and the decode steps: no decoder row reads
      sliding-window KV at a position that this request did not write. */
  lemma ReadsOnlyOwnWrites(c: Config, n: nat, hit: nat, steps: seq<Step>, s: Step)
    requires Accepted(c) && c.window > 0 && IsRun(c, n, hit, steps + [s])
    ensures Safe(c, n, After(c, n, hit, steps), s)
  {
    assert (steps + [s])[..|steps|] == steps;
    RunKeepsInv(c, n, hit, steps);
    StepSafe(c, n, After(c, n, hit, steps), s);
  }

  /** The prompt's chunks write the kept positions one after the other. */
  lemma {:induction false} PrefillStores(c: Config, n: nat, hit: nat, steps: seq<Step>)
    requires IsRun(c, n, hit, steps) && forall i :: 0 <= i < |steps| ==> steps[i].Chunk?
    ensures hit <= After(c, n, hit, steps).computed <= Max(n, hit)
    ensures var l := After(c, n, hit, steps);
            l.stored == Range(First(n, c.keep), Max(First(n, c.keep), l.computed))
  {
    if steps == [] {
      assert Range(First(n, c.keep), First(n, c.keep)) == [];
    } else {
      var before, s := steps[..|steps| - 1], steps[|steps| - 1];
      PrefillStores(c, n, hit, before);
      StepStores(c, n, After(c, n, hit, before), s);
    }
  }

  /** Over the whole prefill, however it is chunked, the stored rows are exactly the positions
      from the first kept one to the end of the prompt, each once. */
  lemma PrefillStoresOnce(c: Config, n: nat, hit: nat, steps: seq<Step>)
    requires c.keep > 0 && IsRun(c, n, hit, steps) && forall i :: 0 <= i < |steps| ==> steps[i].Chunk?
    requires After(c, n, hit, steps).computed == n
    ensures After(c, n, hit, steps).stored == Range(First(n, c.keep), n)
  {
    PrefillStores(c, n, hit, steps);
  }

  // ---------------------------------------------------------------------------
  // How tight the two guards are.

  /** With KEEP below window + spec tokens, a decode step that goes back as far as it may reads a
      position that nobody wrote: the constructor's check is one more than what safety needs, and
      nothing below window + spec would do. */
  lemma SmallKeepIsUnsafe(c: Config, n: nat, hit: nat, steps: seq<Step>)
    requires 0 < c.keep < c.window + c.spec && n > c.keep && n > c.spec + 1
    requires IsRun(c, n, hit, steps) && (forall i :: 0 <= i < |steps| ==> steps[i].Chunk?)
    requires After(c, n, hit, steps).computed == n
    requires c.window > 1
    ensures var s := Decode(n - c.spec - 1, 1);
            IsRun(c, n, hit, steps + [s]) && !Safe(c, n, After(c, n, hit, steps), s)
  {
    var s, l := Decode(n - c.spec - 1, 1), After(c, n, hit, steps);
    assert (steps + [s])[..|steps|] == steps;
    PrefillStoresOnce(c, n, hit, steps);
    StepStores(c, n, l, s);
    var q := AsRequest(n, l, s);
    var p := ReadsFrom(c, q.start, 0);
    InRange(First(n, c.keep), n);
    InRange(q.start, q.start + 1);
    assert Stores(q, c.keep, 0) && p !in Next(c, n, l, s).stored;
  }

  /** A hit above the cap makes the first kept row read a position that nobody wrote. */
  lemma HitAboveCapIsUnsafe(c: Config, n: nat, hit: nat)
    requires c.window > 1 && c.keep > 0 && n > c.keep && n - c.keep < hit < n
    ensures Possible(c, n, Life(hit, []), Chunk(1)) && !Safe(c, n, Life(hit, []), Chunk(1))
  {
    var l, s := Life(hit, []), Chunk(1);
    StepStores(c, n, l, s);
    InRange(hit, hit + 1);
    assert Stores(AsRequest(n, l, s), c.keep, 0) && hit - 1 !in Next(c, n, l, s).stored;
  }

  // ---------------------------------------------------------------------------
  // The batch's plan gives each request these rows.

  lemma {:induction false} StoredRowsIff(q: Request, keep: nat, upTo: nat, i: nat)
    requires i < upTo <= q.rows
    ensures q.start + i in StoredRows(q, keep, upTo) <==> Stores(q, keep, i)
  {
    StoredRowsAre(q, keep, upTo);
    var from := Max(q.start, Min(Lower(q, keep), q.start + upTo));
    InRange(from, q.start + upTo);
  }

  /** The non-placeholder rows of request r in any plan of any batch are those its life counts. */
  lemma PlanStores(p: Plan, qsl: seq<nat>, reqs: seq<Request>, keep: nat, r: nat, i: nat)
    requires WellScheduled(qsl, reqs) && IsPlan(p, qsl, reqs, keep, |reqs|) && r < |reqs| && i < reqs[r].rows
    ensures (exists j :: 0 <= j < |p.keepIdx| && p.keepIdx[j] == qsl[r] + i && !p.placeholder[j])
            <==> reqs[r].start + i in StoredRows(reqs[r], keep, reqs[r].rows)
  {
    var q := reqs[r];
    StoredRowsIff(q, keep, q.rows, i);
    KeptIff(p, qsl, reqs, keep, r, i);
    forall j | 0 <= j < |p.keepIdx| && p.keepIdx[j] == qsl[r] + i ensures p.placeholder[j] == OnlyPlaceholder(q, keep) {
      var s := PartOf(p, qsl, reqs, keep, j, 0);
      assert PartIs(p, s, qsl[s], reqs[s], keep);
      SameRequest(qsl, reqs, r, s, qsl[r] + i);
    }
  }
}

/** What the final checkpoints are worth to the next turn: the sliding-window lookup finds them
    (vllm/v1/core/single_type_kv_cache_manager.py), the truncated prefill's cap admits them
    (overlay/dsv41_yoco.py:97-101), and the record's prediction counts with them
    (scripts/swa_final_window_turns.py:109-123). */
module FinalHits {
  import opened Arithmetic
  import opened FinalWindow
  import YocoLife

  // ---------------------------------------------------------------------------
  // The lookup.

  /** A length in blocks is a multiple of the alignment. */
  predicate AlignedBlocks(g: Group, blocks: nat)
    requires g.alignBlocks > 0
  {
    blocks % g.alignBlocks == 0
  }

  /** The lookup asks this of the length in tokens. */
  lemma AlignedInTokens(g: Group, blocks: nat)
    requires g.Valid()
    ensures g.Align() > 0
    ensures AlignedBlocks(g, blocks) <==> blocks * g.bs % g.Align() == 0
  {
    AlignPositive(g);
    var q, r := blocks / g.alignBlocks, blocks % g.alignBlocks;
    MulMonotone(r + 1, g.alignBlocks, g.bs);
    assert (r + 1) * g.bs == r * g.bs + g.bs;
    assert blocks * g.bs == q * g.Align() + r * g.bs by {
      assert (q * g.alignBlocks + r) * g.bs == q * (g.alignBlocks * g.bs) + r * g.bs;
    }
    DivModUnique(blocks * g.bs, g.Align(), q, r * g.bs);
    MulMonotone(1, r, g.bs);
  }

  /** hb blocks are a possible hit: aligned, and the window before it, with the peek block after
      it, is cached as far as there are blocks. */
  ghost predicate IsCheckpoint(g: Group, cached: seq<bool>, maxBlocks: nat, hb: nat)
    requires g.Valid() && maxBlocks <= |cached|
  {
    && 0 < hb && hb + g.Shift() <= maxBlocks && AlignedBlocks(g, hb)
    && forall i :: Max(0, hb - g.WindowBlocks()) <= i < hb + g.Shift() ==> cached[i]
  }

  /** The lookup keeps a run from block 0 that is shorter than a window only if no alignment step
      is lost to the dropped peek block. */
  predicate KeepsShortRuns(g: Group, hb: nat)
    requires g.Valid()
  {
    hb >= g.WindowBlocks() || !g.eagle || g.alignBlocks == 1
  }

  /** Where the scan stands after the blocks from i on: the current run, and how it covers every
      checkpoint it has reached. */
  ghost predicate Scanned(g: Group, cached: seq<bool>, maxBlocks: nat, i: nat, num: nat)
    requires g.Valid() && maxBlocks <= |cached|
  {
    && i + num <= maxBlocks
    && (forall k :: i <= k < i + num ==> cached[k])
    && (num > 0 ==> i + num >= g.Shift() && (g.alignBlocks == 1 || AlignedBlocks(g, i + num - g.Shift())))
    && (forall hb: nat :: IsCheckpoint(g, cached, maxBlocks, hb) ==> Reached(g, i, num, hb))
  }

  ghost predicate Reached(g: Group, i: nat, num: nat, hb: nat)
    requires g.Valid()
  {
    && (hb >= g.WindowBlocks() ==> hb - g.WindowBlocks() < i)
    && (Max(0, hb - g.WindowBlocks()) <= i < hb + g.Shift() ==> i + num >= hb + g.Shift())
  }

  /** Only runs from block 0 that are shorter than a window are cached. */
  ghost predicate OnlyShortRuns(g: Group, cached: seq<bool>, maxBlocks: nat)
    requires g.Valid() && maxBlocks <= |cached|
  {
    && (exists hb: nat :: IsCheckpoint(g, cached, maxBlocks, hb))
    && forall hb: nat :: IsCheckpoint(g, cached, maxBlocks, hb) ==> hb < g.WindowBlocks()
  }

  /** What the lookup returns, in blocks: a checkpoint, no smaller than any it keeps and at most an
      alignment step below any other; with a peek block and an alignment of several blocks, a
      short run loses exactly its last alignment step. */
  ghost predicate IsLongestHit(g: Group, cached: seq<bool>, maxBlocks: nat, hit: nat)
    requires g.Valid() && maxBlocks <= |cached|
  {
    && (hit > 0 ==> IsCheckpoint(g, cached, maxBlocks, hit))
    && (forall hb: nat :: IsCheckpoint(g, cached, maxBlocks, hb) && KeepsShortRuns(g, hb) ==> hb <= hit)
    && (forall hb: nat :: IsCheckpoint(g, cached, maxBlocks, hb) ==> hb <= hit + g.alignBlocks)
    && (g.eagle && g.alignBlocks != 1 && OnlyShortRuns(g, cached, maxBlocks) ==>
          IsCheckpoint(g, cached, maxBlocks, hit + g.alignBlocks))
  }

  /** With an alignment of at least a window there are no short runs. */
  lemma AlignedPastWindow(g: Group, cached: seq<bool>, maxBlocks: nat)
    requires g.Valid() && maxBlocks <= |cached| && g.alignBlocks >= g.WindowBlocks()
    ensures !OnlyShortRuns(g, cached, maxBlocks)
  {
    forall hb: nat | IsCheckpoint(g, cached, maxBlocks, hb) ensures hb >= g.WindowBlocks() {
      if hb < g.alignBlocks {
        DivModUnique(hb, g.alignBlocks, 0, hb);
      }
    }
  }

  /** No checkpoint is longer than the hit exactly when a peek block and an alignment of several
      blocks do not meet a cache of short runs only. */
  lemma LongestIff(g: Group, cached: seq<bool>, maxBlocks: nat, hit: nat)
    requires g.Valid() && maxBlocks <= |cached| && IsLongestHit(g, cached, maxBlocks, hit)
    ensures (forall hb: nat :: IsCheckpoint(g, cached, maxBlocks, hb) ==> hb <= hit)
            <==> !(g.eagle && g.alignBlocks != 1 && OnlyShortRuns(g, cached, maxBlocks))
  {
    if !(g.eagle && g.alignBlocks != 1 && OnlyShortRuns(g, cached, maxBlocks)) {
      forall hb: nat | IsCheckpoint(g, cached, maxBlocks, hb) ensures hb <= hit {
        if !KeepsShortRuns(g, hb) {
          var longer: nat :| IsCheckpoint(g, cached, maxBlocks, longer) && longer >= g.WindowBlocks();
          assert KeepsShortRuns(g, longer);
        }
      }
    }
  }

  /** Such a cache: five cached one-token blocks from block 0 hold a checkpoint of four, and the
      lookup returns two. */
  lemma ShortRunExample(hit: nat)
    requires IsLongestHit(Group(11, 1, 2, true), [true, true, true, true, true], 5, hit)
    ensures IsCheckpoint(Group(11, 1, 2, true), [true, true, true, true, true], 5, 4) && hit == 2
  {
    var g, cached := Group(11, 1, 2, true), [true, true, true, true, true];
    assert g.WindowBlocks() == 10;
    assert IsCheckpoint(g, cached, 5, 4);
    assert OnlyShortRuns(g, cached, 5);
  }

  /** Popping blocks until the length is aligned. */
  method PopToAligned(g: Group, len: nat) returns (n: nat)
    requires g.Valid()
    ensures n <= len && AlignedBlocks(g, n)
    ensures forall k :: n < k <= len ==> !AlignedBlocks(g, k)
  {
    n := len;
    while !AlignedBlocks(g, n)
      invariant n <= len
      invariant forall k :: n < k <= len ==> !AlignedBlocks(g, k)
      decreases n
    {
      n := n - 1;
    }
  }

  lemma WindowHasBlocks(g: Group)
    requires g.Valid() && g.window > 1
    ensures g.WindowBlocks() > 0
  {
    FloorIs(g.window - 1 + g.bs - 1, g.bs);
    TimesOrder(Floor(g.window - 1 + g.bs - 1, g.bs), g.WindowBlocks(), 0, 0, g.bs);
  }

  lemma ScanCached(g: Group, cached: seq<bool>, maxBlocks: nat, i: nat, num: nat)
    requires g.Valid() && num + 1 < g.Need() && maxBlocks <= |cached|
    requires Scanned(g, cached, maxBlocks, i, num) && i > 0 && cached[i - 1]
    requires num > 0 || g.alignBlocks == 1 || (i >= g.Shift() && AlignedBlocks(g, i - g.Shift()))
    ensures Scanned(g, cached, maxBlocks, i - 1, num + 1)
  {
    forall hb: nat | IsCheckpoint(g, cached, maxBlocks, hb) ensures Reached(g, i - 1, num + 1, hb) {
      assert Reached(g, i, num, hb);
    }
  }

  lemma ScanSkip(g: Group, cached: seq<bool>, maxBlocks: nat, i: nat, num: nat)
    requires g.Valid() && g.WindowBlocks() > 0 && maxBlocks <= |cached|
    requires Scanned(g, cached, maxBlocks, i, num) && i > 0
    requires !cached[i - 1] || (num == 0 && g.alignBlocks != 1 && i >= g.Shift() && !AlignedBlocks(g, i - g.Shift()))
    ensures Scanned(g, cached, maxBlocks, i - 1, 0)
  {
    forall hb: nat | IsCheckpoint(g, cached, maxBlocks, hb) ensures Reached(g, i - 1, 0, hb) {
      assert Reached(g, i, num, hb);
    }
  }

  /** The scan from right to left: it stops with a run of `need` blocks, or at block 0. */
  method Scan(g: Group, cached: seq<bool>, maxBlocks: nat) returns (found: bool, i: nat, num: nat)
    requires g.Valid() && g.WindowBlocks() > 0 && maxBlocks <= |cached|
    ensures i + num <= maxBlocks && (forall k :: i <= k < i + num ==> cached[k])
    ensures num > 0 ==> i + num >= g.Shift() && (g.alignBlocks == 1 || AlignedBlocks(g, i + num - g.Shift()))
    ensures found ==>
              num == g.Need() && forall hb: nat :: IsCheckpoint(g, cached, maxBlocks, hb) ==> hb + g.Shift() <= i + num
    ensures !found ==> i == 0 && Scanned(g, cached, maxBlocks, 0, num)
  {
    var need := g.Need();
    i, num, found := maxBlocks, 0, false;
    while i > 0
      invariant num < need && Scanned(g, cached, maxBlocks, i, num)
    {
      if cached[i - 1] {
        if num == 0 && g.alignBlocks != 1 && !AlignedBlocks(g, if g.eagle then i - 1 else i) {
          ScanSkip(g, cached, maxBlocks, i, num);
          i := i - 1;
          continue;
        }
        if num + 1 >= need {
          ScanFound(g, cached, maxBlocks, i, num);
          i, num := i - 1, num + 1;
          return true, i, num;
        }
        ScanCached(g, cached, maxBlocks, i, num);
        i, num := i - 1, num + 1;
      } else {
        ScanSkip(g, cached, maxBlocks, i, num);
        i, num := i - 1, 0;
      }
    }
  }

  lemma ScanFound(g: Group, cached: seq<bool>, maxBlocks: nat, i: nat, num: nat)
    requires g.Valid() && num + 1 == g.Need() && maxBlocks <= |cached|
    requires Scanned(g, cached, maxBlocks, i, num) && i > 0 && cached[i - 1]
    requires num > 0 || g.alignBlocks == 1 || (i >= g.Shift() && AlignedBlocks(g, i - g.Shift()))
    ensures forall hb: nat :: IsCheckpoint(g, cached, maxBlocks, hb) ==> hb + g.Shift() <= i + num
  {
    forall hb: nat | IsCheckpoint(g, cached, maxBlocks, hb) ensures hb + g.Shift() <= i + num {
      assert Reached(g, i, num, hb);
    }
  }

  lemma FoundIsLongest(g: Group, cached: seq<bool>, maxBlocks: nat, i: nat, num: nat, hit: nat)
    requires g.Valid() && g.WindowBlocks() > 0 && maxBlocks <= |cached| && num == g.Need()
    requires i + num <= maxBlocks && (forall k :: i <= k < i + num ==> cached[k])
    requires hit == i + num - g.Shift() && AlignedBlocks(g, hit)
    requires forall hb: nat :: IsCheckpoint(g, cached, maxBlocks, hb) ==> hb + g.Shift() <= i + num
    ensures IsLongestHit(g, cached, maxBlocks, hit)
  {
    assert hit - g.WindowBlocks() == i;
    assert hit > 0 ==> IsCheckpoint(g, cached, maxBlocks, hit);
  }

  lemma OneStepDown(a: nat, p: nat, hit: nat)
    requires a > 0 && p > 0 && p % a == 0 && hit % a == 0 && hit < p
    requires forall k :: hit < k <= p - 1 ==> k % a != 0
    ensures hit + a == p
  {
    var q := p / a;
    MulMonotone(1, q, a);
    MulMonotone(q, 0, a);
    assert p == q * a && (q - 1) * a == q * a - a;
    DivModUnique(p - a, a, q - 1, 0);
    var r := hit / a;
    assert hit == r * a;
    MulMonotone(r + 1, q, a);
    MulMonotone(q, r, a);
    assert (r + 1) * a == r * a + a;
  }

  lemma ShortRunLosesStep(g: Group, cached: seq<bool>, maxBlocks: nat, num: nat, popped: nat, hit: nat)
    requires g.Valid() && maxBlocks <= |cached| && Scanned(g, cached, maxBlocks, 0, num)
    requires g.eagle && g.alignBlocks != 1 && exists hb: nat :: IsCheckpoint(g, cached, maxBlocks, hb)
    requires popped <= num && AlignedBlocks(g, popped) && forall k :: popped < k <= num ==> !AlignedBlocks(g, k)
    requires AlignedBlocks(g, hit)
    requires popped > 0 ==> hit < popped && forall k :: hit < k <= popped - 1 ==> !AlignedBlocks(g, k)
    ensures IsCheckpoint(g, cached, maxBlocks, hit + g.alignBlocks)
    ensures forall hb: nat :: IsCheckpoint(g, cached, maxBlocks, hb) ==> hb <= hit + g.alignBlocks
  {
    var hb: nat :| IsCheckpoint(g, cached, maxBlocks, hb);
    assert Reached(g, 0, num, hb);
    assert AlignedBlocks(g, num - 1) && AlignedBlocks(g, hb);
    NeighboursNotAligned(g.alignBlocks, num - 1);
    assert popped == num - 1;
    forall k | hit < k <= popped - 1 ensures k % g.alignBlocks != 0 {
      assert !AlignedBlocks(g, k);
    }
    OneStepDown(g.alignBlocks, popped, hit);
    forall other: nat | IsCheckpoint(g, cached, maxBlocks, other) ensures other <= hit + g.alignBlocks {
      assert Reached(g, 0, num, other);
    }
  }

  lemma NeighboursNotAligned(a: nat, x: nat)
    requires a > 1 && x % a == 0
    ensures (x + 1) % a != 0
  {
    DivModUnique(x + 1, a, x / a, 1);
  }

  lemma ShortRunIsLongest(g: Group, cached: seq<bool>, maxBlocks: nat, num: nat, popped: nat, hit: nat)
    requires g.Valid() && g.WindowBlocks() > 0 && maxBlocks <= |cached| && Scanned(g, cached, maxBlocks, 0, num)
    requires popped <= num && AlignedBlocks(g, popped) && forall k :: popped < k <= num ==> !AlignedBlocks(g, k)
    requires AlignedBlocks(g, hit) && hit <= popped
    requires if g.eagle && popped > 0
             then hit < popped && forall k :: hit < k <= popped - 1 ==> !AlignedBlocks(g, k) else hit == popped
    ensures IsLongestHit(g, cached, maxBlocks, hit)
  {
    assert g.alignBlocks == 1 ==> AlignedBlocks(g, num);
    forall hb: nat | IsCheckpoint(g, cached, maxBlocks, hb) && KeepsShortRuns(g, hb) ensures hb <= hit {
      assert Reached(g, 0, num, hb) && AlignedBlocks(g, hb);
    }
    if g.eagle && g.alignBlocks != 1 && exists hb: nat :: IsCheckpoint(g, cached, maxBlocks, hb) {
      ShortRunLosesStep(g, cached, maxBlocks, num, popped, hit);
    }
  }

  /** find_longest_cache_hit of the sliding-window manager, in blocks; cached[i] says whether the
      request's i-th block hash is in the prefix cache. */
  method FindLongestHit(g: Group, cached: seq<bool>, maxLength: nat) returns (hit: nat)
    requires g.Valid() && g.window > 1 && maxLength / g.bs <= |cached|
    ensures IsLongestHit(g, cached, maxLength / g.bs, hit)
  {
    var maxBlocks := maxLength / g.bs;
    WindowHasBlocks(g);
    var found, i, num := Scan(g, cached, maxBlocks);
    if found {
      hit := i + num;
      assert g.alignBlocks == 1 ==> AlignedBlocks(g, i + num - g.Shift());
      if g.eagle {
        assert AlignedBlocks(g, hit - 1);
        hit := PopToAligned(g, hit - 1);
      }
      FoundIsLongest(g, cached, maxBlocks, i, num, hit);
    } else {
      hit := PopToAligned(g, num);
      ghost var popped := hit;
      if g.eagle && hit > 0 {
        hit := PopToAligned(g, hit - 1);
      }
      ShortRunIsLongest(g, cached, maxBlocks, num, popped, hit);
    }
  }

  // ---------------------------------------------------------------------------
  // The next turn.

  /** A positive multiple of the alignment is a whole, aligned number of blocks. */
  lemma AlignedFloor(g: Group, x: int, h: nat)
    requires g.Valid() && g.Align() > 0 && h == Floor(x, g.Align()) && h > 0
    ensures AlignedBlocks(g, h / g.bs) && h / g.bs > 0 && Times(h, h / g.bs, g.bs)
  {
    var q := x / g.Align();
    MulMonotone(q, 0, g.Align());
    WholeBlocks(g, q, h);
    MulMonotone(1, q, g.alignBlocks);
    DivModUnique(q * g.alignBlocks, g.alignBlocks, q, 0);
  }

  lemma WholeBlocks(g: Group, q: nat, h: nat)
    requires g.Valid() && h == q * g.Align()
    ensures h / g.bs == q * g.alignBlocks && Times(h, q * g.alignBlocks, g.bs)
  {
    assert Times(h, q * g.alignBlocks, g.bs) by {
      assert q * g.alignBlocks * g.bs == q * (g.alignBlocks * g.bs);
    }
    DivOfTimes(h, q * g.alignBlocks, g.bs);
  }

  lemma BoundaryAligned(g: Group, computed: nat, tokens: nat, keep: nat, h: nat)
    requires g.Valid() && g.Align() > 0 && h in Boundaries(g, computed, tokens, keep)
    ensures AlignedBlocks(g, h / g.bs) && h / g.bs > 0 && Times(h, h / g.bs, g.bs)
  {
    var x := if h == EndBoundary(g, computed) then Floor(computed, g.bs) - g.Peek() else tokens - keep - g.Peek();
    AlignedFloor(g, x, h);
  }

  lemma TailIsHit(g: Group, cached: seq<bool>, maxBlocks: nat, hb: nat, hit: nat)
    requires g.Valid() && hb > 0 && AlignedBlocks(g, hb) && hb + g.Shift() <= maxBlocks <= |cached|
    requires forall i :: Max(0, hb - g.WindowBlocks()) <= i < hb + g.Shift() ==> cached[i]
    requires IsLongestHit(g, cached, maxBlocks, hit)
    ensures if KeepsShortRuns(g, hb) then hit >= hb else hit + g.alignBlocks >= hb
  {
    assert IsCheckpoint(g, cached, maxBlocks, hb);
  }

  /** Once the tail of a final checkpoint of hb blocks is cached, the next request that shares the
      prefix and is long enough hits it, or better; only a short run may fall an alignment step
      short of it. */
  lemma FinalCheckpointIsHit(g: Group, cached: seq<bool>, maxBlocks: nat, computed: nat, tokens: nat, keep: nat,
                             h: nat, hb: nat, hit: nat)
    requires g.Valid() && g.Align() > 0 && h in Boundaries(g, computed, tokens, keep) && hb == h / g.bs
    requires hb + g.Shift() <= maxBlocks <= |cached|
    requires forall i :: Max(0, hb - g.WindowBlocks()) <= i < hb + g.Shift() ==> cached[i]
    requires IsLongestHit(g, cached, maxBlocks, hit)
    ensures Times(h, hb, g.bs)
    ensures if KeepsShortRuns(g, hb) then hit >= hb else hit + g.alignBlocks >= hb
  {
    BoundaryAligned(g, computed, tokens, keep, h);
    TailIsHit(g, cached, maxBlocks, hb, hit);
  }

  /** Whatever block has a hash is in the prefix cache. */
  ghost predicate InCache(blocks: seq<Block>, cached: seq<bool>) {
    forall i :: 0 <= i < |blocks| && blocks[i].Held? && blocks[i].hash.Some? ==> i < |cached| && cached[i]
  }

  lemma CachedTail(g: Group, was: seq<Block>, now: seq<Block>, hits: seq<nat>, hashes: seq<nat>, h: nat, hb: nat,
                   cached: seq<bool>)
    requires g.Valid() && HashedInTails(g, was, now, hits, hashes) && h in hits && TailHeld(g, was, h)
    requires hb == h / g.bs && InCache(now, cached) && hb + g.Shift() <= |cached|
    ensures forall i :: Max(0, hb - g.WindowBlocks()) <= i < hb + g.Shift() ==> cached[i]
  {
    forall i | Max(0, hb - g.WindowBlocks()) <= i < hb + g.Shift() ensures cached[i] {
      TailsHashed(g, was, now, hits, hashes, h, i);
    }
  }

  /** From the free to the next turn: a checkpoint whose tail the final caching hashed is hit, or
      better, by a request that shares the prefix while those hashes are in the cache. */
  lemma CachedTailIsHit(g: Group, was: seq<Block>, now: seq<Block>, hits: seq<nat>, hashes: seq<nat>,
                        computed: nat, tokens: nat, keep: nat, h: nat, hb: nat, cached: seq<bool>, maxBlocks: nat,
                        hit: nat)
    requires g.Valid() && g.Align() > 0 && hb == h / g.bs && hb + g.Shift() <= maxBlocks <= |cached|
    requires IsLongestHit(g, cached, maxBlocks, hit) && InCache(now, cached)
    requires hits == Usable(g, was, Boundaries(g, computed, tokens, keep)) && h in hits
    requires HashedInTails(g, was, now, hits, hashes)
    ensures if KeepsShortRuns(g, hb) then hit >= hb else hit + g.alignBlocks >= hb
  {
    CachedTail(g, was, now, hits, hashes, h, hb, cached);
    FinalCheckpointIsHit(g, cached, maxBlocks, computed, tokens, keep, h, hb, hit);
  }

  /** Under the truncated prefill, any continuation (N >= T) can use the checkpoint kept for it:
      with its peek block it lies within the hit cap. */
  lemma ContinuationCanUse(g: Group, computed: nat, tokens: nat, keep: nat, next: nat, cached: nat, h: nat)
    requires g.Valid() && g.Align() > 0 && keep > 0 && computed <= tokens <= next
    requires h == YocoBoundary(g, tokens, keep) && h in Boundaries(g, computed, tokens, keep)
    requires h + g.Peek() <= cached
    ensures h + g.Peek() <= YocoLife.MaxHit(next, keep)
    ensures YocoLife.CappedHit(next, keep, g.Align(), g.Peek(), cached) >= h
  {
    var x := tokens - keep - g.Peek();
    FloorIs(x, g.Align());
    var m := x / g.Align();
    if m < 0 {
      TimesOrder(h, m, 0, 0, g.Align());
    }
    YocoLife.CappedHitIsLargest(next, keep, g.Align(), g.Peek(), cached, m);
  }

  // ---------------------------------------------------------------------------
  // The prediction from the record.

  const BS := 64
  const ALIGN := 128
  const PEEK := 64

  /** The group the record's arithmetic stands for. */
  function LiveGroup(): Group {
    Group(128, 64, 2, true)
  }

  function BEnd(computed: int): int {
    (computed / BS * BS - PEEK) / ALIGN * ALIGN
  }

  function BYoco(tokens: int, keep: nat): int {
    (tokens - keep - PEEK) / ALIGN * ALIGN
  }

  function Candidates(total: nat, keep: nat): seq<int> {
    [BEnd(total - 1)] + if keep > 0 then [BYoco(total, keep)] else []
  }

  predicate UsableCandidate(b: int, total: nat, next: nat, keep: nat) {
    && b >= ALIGN
    && b + PEEK <= (if keep > 0 then next - keep else next - 1)
    && b + PEEK <= (total - 1) / BS * BS
  }

  function MaxUsable(c: seq<int>, total: nat, next: nat, keep: nat, observed: int): (m: int)
    ensures m >= observed
    ensures forall b :: b in c && UsableCandidate(b, total, next, keep) ==> b <= m
    ensures m == observed || (m in c && UsableCandidate(m, total, next, keep))
  {
    if c == [] then observed
    else
      var m, b := MaxUsable(c[1..], total, next, keep, observed), c[0];
      if UsableCandidate(b, total, next, keep) && b > m then b else m
  }

  /** predicted_hit: P prompt tokens and O output tokens, then a request of N tokens. */
  function PredictedHit(p: nat, o: nat, n: nat, observed: int, keep: nat): int {
    MaxUsable(Candidates(p + o, keep), p + o, n, keep, observed)
  }

  /** The prediction is the best of the observed hit and the checkpoints that the patch leaves
      for a request freed with all but its last token computed, limited by the hit cap. */
  lemma PredictionUsesBoundaries(p: nat, o: nat, n: nat, observed: int, keep: nat)
    requires p + o > 0
    ensures LiveGroup().Valid() && LiveGroup().Align() == ALIGN
    ensures var hits := Boundaries(LiveGroup(), p + o - 1, p + o, keep);
            var cap := if keep > 0 then n - keep else n - 1;
            var r := PredictedHit(p, o, n, observed, keep);
            && r >= observed
            && (forall h: nat :: h in hits && h + PEEK <= cap ==> h <= r)
            && (r == observed || (r >= 0 && r in hits && r + PEEK <= cap))
  {
    var t := p + o;
    var hits := Boundaries(LiveGroup(), t - 1, t, keep);
    var cap := if keep > 0 then n - keep else n - 1;
    assert EndBoundary(LiveGroup(), t - 1) == BEnd(t - 1) && YocoBoundary(LiveGroup(), t, keep) == BYoco(t, keep);
    forall h: nat | h in hits && h + PEEK <= cap ensures h <= PredictedHit(p, o, n, observed, keep) {
      assert h in Candidates(t, keep) && UsableCandidate(h, t, n, keep);
    }
  }
}
